/** The record assembler of non-blocking connections: one partial read per call, never waiting. */
module NonblockReader {
  import opened Bytes
  import opened RecordMarking
  import RecordWriter

  datatype XprtStat = Died | MoreReqs | Idle

  /** The length field of a header. */
  function FragLen(header: seq<byte>): nat
    requires |header| == 4
  {
    FromBe32(header) % TWO_31
  }

  /** Its octets write it, apart from the highest bit. */
  lemma FragLenIs(header: seq<byte>)
    requires |header| == 4
    ensures FragLen(header) == Number(header) - (if header[0] >= 128 then 0x8000_0000 else 0)
  {
    FromBe32IsNumber(header);
  }

  /** A fragment length __xdrrec_getrec accepts. */
  predicate Accepted(len: nat, maxrec: int) {
    len != 0 && len <= maxrec
  }

  /** One more fragment, with this payload. */
  ghost predicate Grows(before: seq<Frag>, after: seq<Frag>, payload: seq<byte>) {
    |after| == |before| + 1 && after[..|before|] == before && after[|before|].payload == payload
  }

  function Min(a: int, b: int): int { if a < b then a else b }

  class Assembler {
    var inBase: array<byte>     // the record buffer, reallocated when a record needs more
    const inHeader: array<byte>
    var hdrLen: nat
    var haveHeader: bool
    var recLen: nat             // octets the record will have
    var received: nat           // octets of it already at inBase
    var maxRec: int
    var lastFrag: bool
    var fbtbc: nat
    var inFinger: nat
    var inBoundry: nat
    var pending: seq<byte>      // what the connection has still to deliver
    ghost var consumed: seq<byte>
    ghost var log: seq<Frag>    // the fragments delivered so far

    ghost predicate Valid()
      reads this, inBase, inHeader
    {
      && inHeader.Length == 4 && hdrLen <= 4 && inBase != inHeader
      && lastFrag
      && inFinger + fbtbc <= inBoundry <= inBase.Length
      && received <= recLen <= inBase.Length
      && (haveHeader ==>
            hdrLen == 4 && received < recLen && recLen == FragLen(inHeader[..]) && Accepted(recLen, maxRec))
      && (!haveHeader ==> received == 0 && recLen == 0)
      && (!haveHeader && hdrLen == 4 ==> !Accepted(FragLen(inHeader[..]), maxRec))
      && consumed == EncodeFrags(log) + Part()
    }

    /** What has arrived of the fragment being assembled. */
    ghost function Part(): seq<byte>
      requires inHeader.Length == 4 && hdrLen <= 4 && received <= inBase.Length
      reads this, inBase, inHeader
    {
      inHeader[..hdrLen] + inBase[..received]
    }

    /** xdrrec_create followed by __xdrrec_setnonblock. */
    constructor (recvSize: nat, maxrec: int, incoming: seq<byte>)
      ensures Valid() && fresh(inBase) && fresh(inHeader)
      ensures maxRec == if maxrec == 0 then RecordWriter.FixBufSize(recvSize) else maxrec
      ensures log == [] && consumed == [] && pending == incoming && fbtbc == 0
    {
      var size := RecordWriter.FixBufSize(recvSize);
      inBase := new byte[size];
      inHeader := new byte[4];
      hdrLen, haveHeader, recLen, received := 0, false, 0, 0;
      maxRec := if maxrec == 0 then size else maxrec;
      lastFrag, fbtbc, inFinger, inBoundry := true, 0, size, size;
      pending, consumed, log := incoming, [], [];
    }

    /** How many octets readit delivers when `offer` octets have arrived; -1 stands for a broken connection. */
    function Served(offer: int, len: nat): int
      reads this`pending
    {
      if offer < 0 then -1 else Min(offer, Min(len, |pending|))
    }

    /** readit. */
    method ReadIt(buf: array<byte>, at: nat, len: nat, offer: int) returns (n: int)
      requires at + len <= buf.Length
      modifies this`pending, this`consumed, buf
      ensures n == old(Served(offer, len))
      ensures n <= 0 ==> pending == old(pending) && consumed == old(consumed) && buf[..] == old(buf[..])
      ensures n > 0 ==> pending == old(pending[n..]) && consumed == old(consumed + pending[..n])
      ensures n > 0 ==> buf[..at] == old(buf[..at]) && buf[at..at + n] == old(pending[..n])
    {
      n := Served(offer, len);
      if n > 0 {
        forall i | 0 <= i < n {
          buf[at + i] := pending[i];
        }
        consumed := consumed + pending[..n];
        pending := pending[n..];
      }
    }

    /** realloc_stream. */
    method ReallocStream(size: nat)
      requires inBoundry <= inBase.Length && inFinger <= inBase.Length
      modifies this`inBase, this`inBoundry
      ensures old(inBase.Length) <= inBase.Length && inBase[..old(inBase.Length)] == old(inBase[..])
      ensures size <= old(inBase.Length) ==> inBase == old(inBase) && inBoundry == old(inBoundry)
      ensures old(inBase.Length) < size ==> fresh(inBase) && inBase.Length == size && inBoundry == size
    {
      if size > inBase.Length {
        var buf := new byte[size];
        forall i | 0 <= i < inBase.Length {
          buf[i] := inBase[i];
        }
        inBase := buf;
        inBoundry := size;
      }
    }

    /** Reads what it can of the header. */
    method ReadHeader(offer: int) returns (n: int)
      requires Valid() && !haveHeader
      modifies this`pending, this`consumed, this`hdrLen, inHeader
      ensures n == old(Served(offer, 4 - hdrLen)) && old(hdrLen) <= hdrLen <= 4
      ensures n <= 0 ==> Valid() && pending == old(pending)
      ensures n > 0 ==> old(hdrLen) < hdrLen && |pending| < |old(pending)|
      ensures consumed == EncodeFrags(log) + inHeader[..hdrLen]
      ensures consumed + pending == old(consumed + pending)
    {
      hide FromBe32, EncodeFrags;
      assert inBase[..0] == [];
      ghost var was := inHeader[..hdrLen];
      assert consumed == EncodeFrags(log) + was;
      n := ReadIt(inHeader, hdrLen, 4 - hdrLen, offer);
      if n > 0 {
        assert inHeader[..hdrLen + n] == was + old(pending[..n]);
        Assoc(EncodeFrags(log), was, old(pending[..n]));
        Assoc(old(consumed), old(pending[..n]), pending);
        assert old(pending) == old(pending[..n]) + pending;
        hdrLen := hdrLen + n;
      } else {
        assert inHeader[..hdrLen] == inHeader[..][..hdrLen] == was;
        assert inHeader[..] == old(inHeader[..]);
      }
    }

    /** The first half of __xdrrec_getrec: reads on at the header. */
    method GetHeader(expectData: bool, offer: int, wouldBlock: bool) returns (stat: XprtStat)
      requires Valid() && !haveHeader
      modifies this, inHeader
      ensures inBase == old(inBase) || fresh(inBase)
      ensures Valid() && unchanged(this`log, this`maxRec, this`lastFrag, this`fbtbc)
      ensures consumed + pending == old(consumed + pending)
      ensures haveHeader ==> hdrLen == 4 && received == 0 && stat == MoreReqs
      // a complete header counts exactly when it announces from 1 to maxRec octets, and otherwise ends the connection
      ensures old(hdrLen) < 4 && hdrLen == 4 ==>
                var len := Number(inHeader[..]) - (if inHeader[0] >= 128 then 0x8000_0000 else 0);
                && (haveHeader <==> 1 <= len <= maxRec)
                && if haveHeader then recLen == len else stat == Died
      ensures stat == MoreReqs <==> |pending| < |old(pending)| && !(hdrLen == 4 && !haveHeader)
      ensures |pending| < |old(pending)| <==> old(Served(offer, 4 - hdrLen)) > 0
      ensures old(Served(offer, 4 - hdrLen)) == 0 ==> stat == if wouldBlock || !expectData then Idle else Died
      ensures old(Served(offer, 4 - hdrLen)) < 0 ==> stat == Died
    {
      hide FromBe32, EncodeFrags;
      var n := ReadHeader(offer);
      if n == 0 {
        return if wouldBlock || !expectData then Idle else Died;
      }
      if n < 0 {
        return Died;
      }
      assert inBase[..0] == [];
      assert inHeader[..hdrLen] + [] == inHeader[..hdrLen];
      if hdrLen < 4 {
        return MoreReqs;
      }
      assert inHeader[..4] == inHeader[..];
      FragLenIs(inHeader[..]);
      hide Number;
      var fragLen := FragLen(inHeader[..]);
      if fragLen == 0 || fragLen > maxRec || recLen + fragLen > maxRec {
        return Died;
      }
      recLen := recLen + fragLen;
      ReallocStream(recLen);
      if FromBe32(inHeader[..]) >= TWO_31 {
        lastFrag := true;
      }
      haveHeader := true;
      return MoreReqs;
    }

    /** Reads what it can of the payload. */
    method ReadPayload(offer: int) returns (n: int)
      requires Valid() && haveHeader
      modifies this`pending, this`consumed, this`received, inBase
      ensures n == old(Served(offer, recLen - received)) && old(received) <= received <= recLen
      ensures n >= 0 ==> received == old(received) + n
      ensures n <= 0 ==> Valid() && pending == old(pending)
      ensures n > 0 ==> old(received) < received && |pending| < |old(pending)|
      ensures consumed == EncodeFrags(log) + Part()
      ensures consumed + pending == old(consumed + pending)
    {
      hide FromBe32, EncodeFrags;
      ghost var was, body := Part(), inBase[..received];
      n := ReadIt(inBase, received, recLen - received, offer);
      if n > 0 {
        assert inBase[..received + n] == body + old(pending[..n]);
        Assoc(inHeader[..hdrLen], body, old(pending[..n]));
        Assoc(EncodeFrags(log), was, old(pending[..n]));
        Assoc(old(consumed), old(pending[..n]), pending);
        assert old(pending) == old(pending[..n]) + pending;
        received := received + n;
      } else {
        assert inBase[..received] == inBase[..][..received] == body;
      }
    }

    /** The second half of __xdrrec_getrec: reads on at the payload. */
    method GetPayload(expectData: bool, offer: int, wouldBlock: bool) returns (got: bool, stat: XprtStat)
      requires Valid() && haveHeader
      modifies this, inBase
      ensures Valid() && maxRec == old(maxRec) && inBase == old(inBase)
      ensures consumed + pending == old(consumed + pending)
      ensures got <==> old(Served(offer, recLen - received) == recLen - received)
      ensures got ==> stat == MoreReqs && inFinger == 0 && inBoundry == fbtbc && Accepted(fbtbc, maxRec)
      ensures got ==> Grows(old(log), log, inBase[..fbtbc])
      ensures got ==> consumed == EncodeFrags(log) && !haveHeader && hdrLen == 0
      ensures !got ==> log == old(log) && fbtbc == old(fbtbc)
      ensures stat == MoreReqs <==> |pending| < |old(pending)|
      ensures |pending| < |old(pending)| <==> old(Served(offer, recLen - received)) > 0
      ensures |pending| <= |old(pending)|
      ensures old(Served(offer, recLen - received)) == 0 ==> stat == if wouldBlock || !expectData then Idle else Died
    {
      hide FromBe32, EncodeFrags, EncodeFrag;
      var n := ReadPayload(offer);
      if n < 0 {
        return false, Died;
      }
      if n == 0 {
        return false, if wouldBlock || !expectData then Idle else Died;
      }
      if received == recLen {
        EndFragment();
        if lastFrag {
          fbtbc := recLen;
          inBoundry := recLen;
          inFinger := 0;
          recLen, received := 0, 0;
          assert consumed == EncodeFrags(log) + Part() by { assert Part() == []; }
          return true, MoreReqs;
        }
      }
      return false, MoreReqs;
    }

    /**
     * __xdrrec_getrec: TRUE exactly when the call completes a fragment, whose payload then stands at
     * the start of the buffer with nothing of the next fragment read yet.
     */
    method GetRec(expectData: bool, hdrOffer: int, bodyOffer: int, wouldBlock: bool) returns (got: bool, stat: XprtStat)
      requires Valid()
      modifies this, inHeader, inBase
      ensures inBase == old(inBase) || fresh(inBase)
      ensures Valid() && maxRec == old(maxRec)
      ensures consumed + pending == old(consumed + pending)
      ensures got ==> stat == MoreReqs && inFinger == 0 && inBoundry == fbtbc && Accepted(fbtbc, maxRec)
      ensures got ==> Grows(old(log), log, inBase[..fbtbc])
      ensures got ==> consumed == EncodeFrags(log) && !haveHeader && hdrLen == 0
      ensures !got ==> log == old(log) && fbtbc == old(fbtbc)
      ensures stat == MoreReqs ==> |pending| < |old(pending)|
      // it takes what there is to take
      ensures |pending| < |old(pending)| <==>
                old(if haveHeader then Served(bodyOffer, recLen - received) else Served(hdrOffer, 4 - hdrLen)) > 0
      ensures old(haveHeader) ==> (got <==> old(Served(bodyOffer, recLen - received) == recLen - received))
    {
      hide FromBe32, EncodeFrags, EncodeFrag;
      if !haveHeader {
        stat := GetHeader(expectData, hdrOffer, wouldBlock);
        if !haveHeader {
          return false, stat;
        }
      }
      got, stat := GetPayload(expectData, bodyOffer, wouldBlock);
    }

    /** The fragment at hand is complete; the next octet to come belongs to a header. */
    method EndFragment()
      requires inHeader.Length == 4 && hdrLen == 4 && received == recLen <= inBase.Length
      requires recLen == FragLen(inHeader[..]) && consumed == EncodeFrags(log) + Part()
      modifies this`haveHeader, this`hdrLen, this`log
      ensures !haveHeader && hdrLen == 0 && consumed == EncodeFrags(log)
      ensures Grows(old(log), log, inBase[..recLen])
    {
      hide FromBe32, EncodeFrags, EncodeFrag;
      ghost var f: Frag := CompleteFragment(inHeader[..], inBase[..recLen]);
      assert inHeader[..4] == inHeader[..];
      EncodeFragsSnoc(log, f);
      log := log + [f];
      haveHeader := false;
      hdrLen := 0;
    }

    /** xdrrec_getbytes after a delivery, where the record is wholly buffered. */
    method GetBytes(len: nat) returns (ok: bool, data: seq<byte>)
      requires Valid()
      modifies this`fbtbc, this`inFinger
      ensures Valid()
      ensures ok <==> len <= old(fbtbc)
      ensures ok ==> data == inBase[old(inFinger)..old(inFinger) + len] && fbtbc == old(fbtbc) - len
    {
      data := [];
      while |data| < len
        invariant |data| <= len && |data| <= old(fbtbc)
        invariant inFinger == old(inFinger) + |data| && fbtbc == old(fbtbc) - |data|
        invariant data == inBase[old(inFinger)..inFinger]
        decreases len - |data|
      {
        var current := fbtbc;
        if current == 0 {
          return false, data;
        }
        current := if len - |data| < current then len - |data| else current;
        data := data + inBase[inFinger..inFinger + current];
        inFinger := inFinger + current;
        fbtbc := fbtbc - current;
      }
      ok := true;
    }
  }

  /** The fragment a complete header and payload make up. */
  lemma CompleteFragment(header: seq<byte>, payload: seq<byte>) returns (f: Frag)
    requires |header| == 4 && |payload| == FragLen(header)
    ensures f.payload == payload && EncodeFrag(f) == header + payload
  {
    hide Be32;
    f := Fragment(FromBe32(header) >= TWO_31, payload);
    FromBe32RoundTrip(header);
  }

  /** Less than one fragment: a header cut short, or an accepted header with its payload cut short. */
  ghost predicate Unfinished(part: seq<byte>) {
    |part| >= 4 ==> |part| - 4 < FragLen(part[..4])
  }

  /** Octets that start with an encoded fragment have its header in front. */
  lemma EncodingHead(f: Frag, after: seq<byte>)
    ensures var s := EncodeFrag(f) + after;
            s[..4] == Be32(Header(f)) && FragLen(s[..4]) == |f.payload| && s[4 + |f.payload|..] == after
  {
    hide Be32, FromBe32;
    var s := EncodeFrag(f) + after;
    assert s[..4] == Be32(Header(f));
    Be32RoundTrip(Header(f));
  }

  /**
   * Fragment boundaries are unambiguous: if fragments and an unfinished one lie in front of `later`
   * where `fs` are encoded, they are the first of `fs`, and all of them when nothing is to come.
   */
  lemma {:induction false} BoundariesUnique(log: seq<Frag>, part: seq<byte>, later: seq<byte>, fs: seq<Frag>)
    requires EncodeFrags(log) + part + later == EncodeFrags(fs)
    requires Unfinished(part)
    ensures log <= fs
    ensures later == [] ==> log == fs && part == []
    decreases |log|
  {
    hide EncodeFrag, Be32, FromBe32;
    var all := EncodeFrags(fs);
    if log == [] {
      if later == [] && fs != [] {
        assert all == part == EncodeFrag(fs[0]) + EncodeFrags(fs[1..]);
        EncodingHead(fs[0], EncodeFrags(fs[1..]));
        EncodingLength(fs[0]);
      }
    } else {
      var rest := EncodeFrags(log[1..]) + part + later;
      EncodingLength(log[0]);
      assert all == EncodeFrag(log[0]) + rest;
      EncodingHead(log[0], rest);
      EncodingHead(fs[0], EncodeFrags(fs[1..]));
      EncodingLength(fs[0]);
      SameFragment(log[0], fs[0], rest, EncodeFrags(fs[1..]));
      BoundariesUnique(log[1..], part, later, fs[1..]);
      assert log == [log[0]] + log[1..] && fs == [fs[0]] + fs[1..];
    }
  }

  lemma EncodingLength(f: Frag)
    ensures |EncodeFrag(f)| == 4 + |f.payload|
  {}

  lemma SameFragment(f: Frag, g: Frag, a: seq<byte>, b: seq<byte>)
    requires EncodeFrag(f) + a == EncodeFrag(g) + b
    ensures f == g && a == b
  {
    hide Be32, FromBe32;
    var s := EncodeFrag(f) + a;
    EncodingHead(f, a);
    EncodingHead(g, b);
    Be32Injective(Header(f), Header(g));
    assert f.payload == s[4..4 + |f.payload|];
    assert g.payload == s[4..4 + |f.payload|];
  }

  /**
   * What the non-blocking reader has delivered of a stream is its first fragments, one a time, each
   * once; when the stream is used up it has delivered them all.
   */
  lemma DeliversEachFragmentOnce(r: Assembler, fs: seq<Frag>)
    requires r.Valid() && r.consumed + r.pending == EncodeFrags(fs)
    requires forall i | 0 <= i < |fs| :: 1 <= |fs[i].payload| <= r.maxRec
    ensures r.log <= fs
    ensures r.pending == [] ==> r.log == fs
  {
    hide Be32, FromBe32, EncodeFrags, EncodeFrag;
    var part := r.Part();
    if !r.haveHeader && r.hdrLen == 4 {
      assert part == r.inHeader[..];
      RefusedHeaderIsForeign(r.log, part, r.pending, fs, r.maxRec);
    } else {
      assert part[..r.hdrLen] == r.inHeader[..r.hdrLen];
      assert r.hdrLen == 4 ==> r.inHeader[..4] == r.inHeader[..];
      BoundariesUnique(r.log, part, r.pending, fs);
    }
  }

  /** A stream of acceptable fragments has no header the reader refuses. */
  lemma {:induction false} RefusedHeaderIsForeign(log: seq<Frag>, header: seq<byte>, later: seq<byte>, fs: seq<Frag>,
                                                  maxrec: int)
    requires EncodeFrags(log) + header + later == EncodeFrags(fs)
    requires |header| == 4 && !Accepted(FragLen(header), maxrec)
    requires forall i | 0 <= i < |fs| :: Accepted(|fs[i].payload|, maxrec)
    ensures false
    decreases |log|
  {
    hide EncodeFrag, Be32, FromBe32;
    if log == [] {
      assert EncodeFrags(fs)[..4] == header;
      assert EncodeFrags(fs) != [];
      EncodingHead(fs[0], EncodeFrags(fs[1..]));
    } else {
      var rest := EncodeFrags(log[1..]) + header + later;
      assert EncodeFrags(fs) == EncodeFrag(log[0]) + rest;
      SameFragment(log[0], fs[0], rest, EncodeFrags(fs[1..]));
      RefusedHeaderIsForeign(log[1..], header, later, fs[1..], maxrec);
    }
  }

  function Payloads(fs: seq<Frag>): seq<seq<byte>> {
    seq(|fs|, i requires 0 <= i < |fs| => fs[i].payload)
  }

  /**
   * The reader never clears last_frag, so it delivers fragments, not records: the two are the same
   * exactly when every record is a single fragment.
   */
  lemma FragmentsAreRecords(fs: seq<Frag>)
    ensures Payloads(fs) == Gather(fs).done <==> forall i | 0 <= i < |fs| :: fs[i].last
  {
    if forall i | 0 <= i < |fs| :: fs[i].last {
      SingleFragments(fs);
    } else {
      var i :| 0 <= i < |fs| && !fs[i].last;
      FewerRecords([], fs, i);
    }
  }

  lemma {:induction false} SingleFragments(fs: seq<Frag>)
    requires forall i | 0 <= i < |fs| :: fs[i].last
    ensures Gather(fs).done == Payloads(fs)
  {
    if fs != [] {
      SingleFragments(fs[1..]);
      assert [] + fs[0].payload == fs[0].payload;
      assert Payloads(fs) == [fs[0].payload] + Payloads(fs[1..]);
    }
  }

  lemma {:induction false} FewerRecords(open: seq<byte>, fs: seq<Frag>, i: nat)
    requires i < |fs| && !fs[i].last
    ensures |GatherFrom(open, fs).done| < |fs|
    decreases |fs|
  {
    var next := if fs[0].last then [] else open + fs[0].payload;
    RecordsAtMost(next, fs[1..]);
    if i > 0 {
      FewerRecords(next, fs[1..], i - 1);
    }
  }

  lemma {:induction false} RecordsAtMost(open: seq<byte>, fs: seq<Frag>)
    ensures |GatherFrom(open, fs).done| <= |fs|
    decreases |fs|
  {
    if fs != [] {
      RecordsAtMost(if fs[0].last then [] else open + fs[0].payload, fs[1..]);
    }
  }
}
