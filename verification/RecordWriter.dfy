/** The outgoing half of a record stream: one fixed buffer that is cut into fragments. */
module RecordWriter {
  import opened Bytes
  import opened RecordMarking
  import opened RecordCursors

  /** fix_buf_size, for sizes whose rounding does not overflow. */
  function FixBufSize(s: nat): (size: nat)
    ensures size >= 100 && size % 4 == 0
    ensures if s < 100 then size == 4000 else s <= size < s + 4
  {
    RoundUp(if s < 100 then 4000 else s)
  }

  class Writer {
    const outBuf: array<byte>
    const limit: Option<nat>    // how many octets the connection takes before it breaks; None: it never does
    var fragHeader: nat  // where the header of the current fragment goes
    var outFinger: nat   // where the next octet goes
    var fragSent: bool   // part of the current record has left the buffer
    var wire: seq<byte>  // everything writeit has accepted
    ghost var frags: seq<Frag>  // the fragments closed so far, on the wire or still buffered
    ghost var wired: seq<Frag>  // those on the wire

    /** The cursors are in bounds, whatever they describe. */
    ghost predicate Shape()
      reads this
    {
      && 100 <= outBuf.Length < TWO_31
      && fragHeader + 4 < outBuf.Length
      && fragHeader + 4 <= outFinger <= outBuf.Length
      && (limit.Some? ==> |wire| <= limit.value)
    }

    ghost predicate Broken()
      reads this`wire
    {
      limit.Some? && |wire| == limit.value
    }

    /** The closed fragments are on the wire or in front of the one being filled. */
    ghost predicate Buffered()
      reads this, outBuf
    {
      Shape() && wire + outBuf[..fragHeader] == EncodeFrags(frags)
    }

    ghost predicate Valid()
      reads this, outBuf
    {
      && Buffered()
      && wire == EncodeFrags(wired)
      && Accounted(frags, wired, fragSent)
      && (fragSent ==> fragHeader == 0)
    }

    /** The octets of the fragment being filled. */
    ghost function Partial(): seq<byte>
      requires Shape()
      reads this, outBuf
    {
      outBuf[fragHeader + 4..outFinger]
    }

    /** The records ended so far, and the octets put since. */
    ghost function Records(): seq<seq<byte>>
      reads this
    {
      Gather(frags).done
    }

    ghost function Current(): seq<byte>
      requires Shape()
      reads this, outBuf
    {
      Gather(frags).open + Partial()
    }

    /** The cursors, with what has become of the records and the headers. */
    ghost function State(): Cursors
      requires Shape()
      reads this
    {
      Cursors(fragHeader, outFinger, fragSent, |Records()|, |Gather(wired).done|, !NoEmptyFragment(frags))
    }

    /** Both cursors on a word boundary, as XDR keeps them. */
    ghost predicate Aligned()
      reads this
    {
      OnWord(fragHeader) && OnWord(outFinger) && OnWord(outBuf.Length)
    }

    lemma WordsAligned()
      requires Shape()
      ensures Aligned() <==> OnWords(State()) && OnWord(outBuf.Length)
    {}

    /** xdrrec_create; `sendSize` is as far as the int length given to writeit reaches. */
    constructor (sendSize: nat, limit: Option<nat>)
      requires sendSize < TWO_31 - 4
      ensures Valid() && Aligned() && fresh(outBuf)
      ensures outBuf.Length == FixBufSize(sendSize) && this.limit == limit
      ensures fragHeader == 0 && outFinger == 4 && !fragSent
      ensures frags == [] && wire == [] && Records() == [] && Current() == [] && State() == START
    {
      outBuf, this.limit := new byte[FixBufSize(sendSize)], limit;
      fragHeader, outFinger, fragSent := 0, 4, false;
      wire, frags, wired := [], [], [];
    }

    /** The connection's writeit: takes the first `len` buffered octets, or breaks before the last of them. */
    method WriteIt(len: nat) returns (n: int)
      requires 0 < len <= outBuf.Length && (limit.Some? ==> |wire| <= limit.value)
      modifies this`wire
      ensures n == len <==> (limit.Some? ==> |old(wire)| + len <= limit.value)
      ensures n == len ==> wire == old(wire) + outBuf[..len]
      ensures n != len ==> Broken() && wire == old(wire) + outBuf[..limit.value - |old(wire)|]
    {
      if limit.Some? && limit.value < |wire| + len {
        wire := wire + outBuf[..limit.value - |wire|];
        return -1;
      }
      wire := wire + outBuf[..len];
      n := len;
    }

    /** Stores a header or data word, most significant octet first. */
    method PutWord(at: nat, w: word)
      requires at + 4 <= outBuf.Length
      modifies outBuf
      ensures outBuf[at..at + 4] == Be32(w)
      ensures outBuf[..at] == old(outBuf[..at])
      ensures outBuf[at + 4..] == old(outBuf[at + 4..])
    {
      var s := Be32(w);
      outBuf[at], outBuf[at + 1], outBuf[at + 2], outBuf[at + 3] := s[0], s[1], s[2], s[3];
    }

    /** flush_out: closes the current fragment and sends the whole buffer. */
    method FlushOut(eor: bool) returns (ok: bool)
      requires Buffered()
      modifies this`fragHeader, this`outFinger, this`wire, this`frags, this`wired, outBuf
      ensures Shape() && old(wire) <= wire && (!ok ==> Broken())
      ensures ok ==> frags == wired == old(frags) + [Fragment(eor, old(Partial()))]
      ensures ok ==> fragHeader == 0 && outFinger == 4 && wire == EncodeFrags(frags)
    {
      ghost var f: Frag := Fragment(eor, Partial());
      FillHeader(eor);
      var n := WriteIt(outFinger);
      if n != outFinger {
        return false;
      }
      frags := frags + [f];
      wired := frags;
      fragHeader, outFinger := 0, 4;
      return true;
    }

    /** Completes the header of the current fragment, which makes the buffer one fragment longer. */
    method FillHeader(eor: bool)
      requires Buffered()
      modifies outBuf
      ensures wire + outBuf[..outFinger] == EncodeFrags(frags + [Fragment(eor, old(Partial()))])
    {
      hide EncodeFrag, EncodeFrags, Be32;
      ghost var f: Frag := Fragment(eor, Partial());
      ghost var was := outBuf[..];
      PutWord(fragHeader, (if eor then TWO_31 else 0) + (outFinger - fragHeader - 4));
      HeaderFilledIn(was, outBuf[..], fragHeader, outFinger, f);
      ClosedOnto(wire, was[..fragHeader], frags, f);
    }

    /** A full buffer in the middle of a record leaves as a fragment that is not the last. */
    method SendPartial() returns (ok: bool)
      requires Valid()
      modifies this, outBuf
      ensures Shape() && old(wire) <= wire && (!ok ==> Broken())
      ensures ok ==> Valid() && frags == old(frags) + [Fragment(false, old(Partial()))]
      ensures ok ==> Records() == old(Records()) && Current() == old(Current())
      ensures ok ==> fragHeader == 0 && outFinger == 4 && State() == Cut(old(State()))
      ensures ok ==> (NoEmptyFragment(frags) <==> NoEmptyFragment(old(frags)) && old(Partial()) != [])
    {
      hide EncodeFrag, EncodeFrags, GatherFrom, NoEmptyFragment, OnWord, Accounted;
      ghost var closed, partial := frags, Partial();
      fragSent := true;
      ok := FlushOut(false);
      if ok {
        GatherSnoc([], closed, Fragment(false, partial));
        NoEmptyFragmentSnoc(closed, Fragment(false, partial));
        AllWired(frags);
      }
    }

    /** xdrrec_putlong. */
    method PutLong(w: word) returns (ok: bool)
      requires Valid()
      modifies this, outBuf
      ensures Shape() && old(wire) <= wire && (!ok ==> Broken())
      ensures ok ==> Valid() && Records() == old(Records()) && Current() == old(Current()) + Be32(w)
      ensures old(outFinger) + 4 <= outBuf.Length ==> ok && frags == old(frags) && wire == old(wire)
      ensures ok && outBuf.Length < old(outFinger) + 4 ==> frags == old(frags) + [Fragment(false, old(Partial()))]
      ensures ok ==> State() == PutWordAt(old(State()), outBuf.Length)
      // an empty fragment leaves exactly when the word does not fit a fragment still empty
      ensures ok ==> (NoEmptyFragment(frags) <==>
                      NoEmptyFragment(old(frags)) && (old(outFinger) + 4 <= outBuf.Length || old(Partial()) != []))
      // which cannot happen while every put keeps to words
      ensures ok && old(Aligned()) ==> Aligned() && (NoEmptyFragment(old(frags)) ==> NoEmptyFragment(frags))
    {
      hide Be32, EncodeFrag, EncodeFrags, GatherFrom, NoEmptyFragment, OnWord, Accounted;
      WordRoom(outBuf.Length, fragHeader, outFinger);
      OnWordSum(4, 4);
      if outBuf.Length < outFinger + 4 {
        ok := SendPartial();
        if !ok {
          return;
        }
      }
      Store(Be32(w));
      ok := true;
    }

    /** One turn of the loop in xdrrec_putbytes. */
    method PutPiece(left: seq<byte>) returns (ok: bool, current: nat)
      requires Valid() && left != []
      modifies this, outBuf
      ensures Shape() && old(wire) <= wire && (!ok ==> Broken())
      ensures current == Min(|left|, outBuf.Length - old(outFinger)) && (current > 0 || old(outFinger) == outBuf.Length)
      ensures ok ==> Valid() && Records() == old(Records()) && Current() == old(Current()) + left[..current]
      ensures ok ==>
                PutOctetsAt(State(), |left| - current, outBuf.Length)
                  == PutOctetsAt(old(State()), |left|, outBuf.Length)
      ensures ok ==> outFinger < outBuf.Length
      ensures old(outFinger) + |left| < outBuf.Length ==>
                ok && outFinger == old(outFinger) + current && wire == old(wire) && frags == old(frags)
    {
      hide EncodeFrag, EncodeFrags, GatherFrom, NoEmptyFragment, OnWord, Accounted;
      current := Min(|left|, outBuf.Length - outFinger);
      Store(left[..current]);
      ok := true;
      if outFinger == outBuf.Length {
        ok := SendPartial();
      }
      hide Gather, PutOctetsAt;
      if ok {
        OctetsTurn(old(State()), State(), |left|, current, outBuf.Length,
                   PutOctetsAt(old(State()), |left|, outBuf.Length));
      }
    }

    /** The loop in xdrrec_putbytes. */
    method PutPieces(data: seq<byte>) returns (ok: bool)
      requires Valid()
      modifies this, outBuf
      ensures Shape() && old(wire) <= wire && (!ok ==> Broken())
      ensures ok ==> Valid() && Records() == old(Records()) && Current() == old(Current()) + data
      ensures ok ==> State() == PutOctetsAt(old(State()), |data|, outBuf.Length)
      ensures old(outFinger) + |data| < outBuf.Length ==> ok && wire == old(wire) && frags == old(frags)
    {
      hide EncodeFrag, EncodeFrags, GatherFrom, NoEmptyFragment, Accounted, OnWord, PutOctetsAt, Turn, Gather;
      ghost var all := Current() + data;
      var left, current := data, 0;
      while left != []
        invariant Valid() && old(wire) <= wire
        invariant Records() == old(Records()) && Current() + left == all
        invariant PutOctetsAt(State(), |left|, outBuf.Length) == PutOctetsAt(old(State()), |data|, outBuf.Length)
        invariant old(outFinger) + |data| < outBuf.Length ==>
                    outFinger + |left| < outBuf.Length && wire == old(wire) && frags == old(frags)
        decreases |left|, outFinger == outBuf.Length
      {
        ghost var put := Current();
        ok, current := PutPiece(left);
        if !ok {
          return;
        }
        Assoc(put, left[..current], left[current..]);
        assert left == left[..current] + left[current..];
        left := left[current..];
      }
      assert Current() + left == Current();
      ok := true;
      NoOctets(State(), outBuf.Length);
    }

    /** xdrrec_putbytes. */
    method PutBytes(data: seq<byte>) returns (ok: bool)
      requires Valid()
      modifies this, outBuf
      ensures Shape() && old(wire) <= wire && (!ok ==> Broken())
      ensures ok ==> Valid() && Records() == old(Records()) && Current() == old(Current()) + data
      ensures ok ==> State() == PutOctetsAt(old(State()), |data|, outBuf.Length)
      ensures ok ==> (NoEmptyFragment(frags) <==> NoEmptyFragment(old(frags)))
      ensures ok && old(Aligned()) && OnWord(|data|) ==> Aligned()
      ensures ok && data != [] ==> outFinger < outBuf.Length
      ensures old(outFinger) + |data| < outBuf.Length ==>
                ok && outFinger == old(outFinger) + |data|
                  && unchanged(this`fragHeader, this`fragSent, this`wire, this`frags)
    {
      hide EncodeFrag, EncodeFrags, GatherFrom, NoEmptyFragment, Accounted, Gather;
      if Aligned() && OnWord(|data|) {
        WholeOctets(State(), |data|, outBuf.Length);
      }
      OctetsPut(State(), |data|, outBuf.Length);
      hide OnWord, OnWords, PutOctetsAt;
      ok := PutPieces(data);
      WordsAligned();
    }

    /** Stores octets where the buffer has room for them. */
    method Store(s: seq<byte>)
      requires Buffered() && outFinger + |s| <= outBuf.Length
      modifies this`outFinger, outBuf
      ensures Buffered() && outFinger == old(outFinger) + |s|
      ensures Current() == old(Current()) + s
      ensures Partial() == old(Partial()) + s && State() == old(State()).(finger := outFinger)
    {
      hide EncodeFrags, GatherFrom;
      ghost var was := outBuf[..];
      forall i | 0 <= i < |s| {
        outBuf[outFinger + i] := s[i];
      }
      assert outBuf[outFinger..outFinger + |s|] == s;
      Appended(was, outBuf[..], fragHeader, outFinger, s);
      outFinger := outFinger + |s|;
    }

    /** xdrrec_endofrecord: ends the current record, at once on the wire or batched behind the next. */
    method EndOfRecord(sendNow: bool) returns (ok: bool)
      requires Valid()
      modifies this, outBuf
      ensures Shape() && old(wire) <= wire && (!ok ==> Broken())
      ensures ok ==> Valid() && Records() == old(Records()) + [old(Current())] && Current() == []
      ensures ok && (sendNow || old(fragSent) || old(outFinger) + 4 >= outBuf.Length) ==> wire == EncodeFrags(frags)
      ensures !(sendNow || old(fragSent) || old(outFinger) + 4 >= outBuf.Length) ==>
                ok && wire == old(wire) && fragHeader == old(outFinger) && outFinger == fragHeader + 4
      ensures ok ==> State() == EndAt(old(State()), sendNow, outBuf.Length)
      ensures ok ==> Closed(frags)
      ensures ok ==> (NoEmptyFragment(frags) <==> NoEmptyFragment(old(frags)))
      ensures ok && old(Aligned()) ==> Aligned()
      ensures ok ==> Partial() == [] && outFinger < outBuf.Length
    {
      hide Be32, EncodeFrag, EncodeFrags, GatherFrom, NoEmptyFragment, OnWord;
      ghost var closed := frags;
      ghost var f: Frag := Fragment(true, Partial());
      OnWordSum(outFinger, 4);
      if sendNow || fragSent || outFinger + 4 >= outBuf.Length {
        fragSent := false;
        ok := FlushOut(true);
        if !ok {
          return;
        }
        GatherSnoc([], closed, f);
        NoEmptyFragmentSnoc(closed, f);
        AllWired(frags);
      } else {
        Batch();
        ok := true;
      }
    }

    /** The record that ended stays in the buffer, and the next one starts behind it. */
    method Batch()
      requires Valid() && !fragSent && outFinger + 4 < outBuf.Length
      modifies this, outBuf
      ensures Valid() && wire == old(wire) && frags == old(frags) + [Fragment(true, old(Partial()))]
      ensures Records() == old(Records()) + [old(Current())] && Current() == [] && Closed(frags)
      ensures fragHeader == old(outFinger) && outFinger == fragHeader + 4
              && State() == EndAt(old(State()), false, outBuf.Length)
      ensures NoEmptyFragment(frags) <==> NoEmptyFragment(old(frags))
    {
      hide Be32, EncodeFrag, EncodeFrags, GatherFrom, NoEmptyFragment;
      ghost var f: Frag := Fragment(true, Partial());
      FillHeader(true);
      GatherSnoc([], frags, f);
      NoEmptyFragmentSnoc(frags, f);
      OneMoreBuffered(frags, wired, f);
      fragHeader := outFinger;
      outFinger := outFinger + 4;
      frags := frags + [f];
    }
  }

  /** What the closed fragments are made of: records, of which the first ones are on the wire. */
  ghost predicate Accounted(frags: seq<Frag>, wired: seq<Frag>, open: bool) {
    && (open ==> wired == frags)
    && (!open ==> Gather(frags).open == [] && Closed(wired))
    && Gather(wired).done <= Gather(frags).done
    && (NoEmptyFragment(wired) <==> NoEmptyFragment(frags))
  }

  lemma AllWired(frags: seq<Frag>)
    ensures Accounted(frags, frags, true)
    ensures Gather(frags).open == [] && Closed(frags) ==> Accounted(frags, frags, false)
  {}

  lemma OneMoreBuffered(frags: seq<Frag>, wired: seq<Frag>, f: Frag)
    requires Accounted(frags, wired, false) && f.last
    ensures Accounted(frags + [f], wired, false)
  {
    hide GatherFrom, NoEmptyFragment;
    GatherSnoc([], frags, f);
    NoEmptyFragmentSnoc(frags, f);
  }

  /** A buffer whose header slot at `at` now describes the fragment that follows it. */
  lemma HeaderFilledIn(was: seq<byte>, now: seq<byte>, at: nat, end: nat, f: Frag)
    requires at + 4 <= end <= |was| == |now|
    requires f.payload == was[at + 4..end]
    requires now[..at] == was[..at] && now[at..at + 4] == Be32(Header(f)) && now[at + 4..] == was[at + 4..]
    ensures now[..end] == was[..at] + EncodeFrag(f)
  {
    hide Be32;
    assert now[..end] == now[..at] + now[at..at + 4] + now[at + 4..end];
    assert now[at + 4..end] == now[at + 4..][..end - at - 4] == was[at + 4..end];
  }

  /** Writing `s` at `at` leaves what precedes the fragment alone and extends the fragment by `s`. */
  lemma Appended(was: seq<byte>, now: seq<byte>, header: nat, at: nat, s: seq<byte>)
    requires header + 4 <= at && at + |s| <= |was| == |now|
    requires now[..at] == was[..at] && now[at..at + |s|] == s
    ensures now[..header] == was[..header]
    ensures now[header + 4..at + |s|] == was[header + 4..at] + s
  {
    assert now[..at][..header] == was[..at][..header];
    assert now[..at][header + 4..] == was[..at][header + 4..];
  }

  lemma NoEmptyFragmentSnoc(fs: seq<Frag>, f: Frag)
    ensures NoEmptyFragment(fs + [f]) <==> NoEmptyFragment(fs) && (f.last || f.payload != [])
  {
    var all := fs + [f];
    assert all[|fs|] == f;
    assert forall i | 0 <= i < |fs| :: all[i] == fs[i];
  }

  lemma WordRoom(size: nat, header: nat, finger: nat)
    requires header + 4 <= finger <= size && header + 4 < size
    ensures OnWord(header) && OnWord(finger) && OnWord(size) ==>
              OnWord(finger + 4) && (size < finger + 4 ==> header + 4 < finger)
  {}

  lemma ClosedOnto(sent: seq<byte>, buffered: seq<byte>, fs: seq<Frag>, f: Frag)
    requires sent + buffered == EncodeFrags(fs)
    ensures sent + (buffered + EncodeFrag(f)) == EncodeFrags(fs + [f])
  {
    hide EncodeFrag, EncodeFrags;
    EncodeFragsSnoc(fs, f);
  }
}
