/** The incoming half of a blocking record stream: one buffer refilled by reads of any size. */
module RecordReader {
  import opened Bytes
  import opened RecordMarking
  import RecordWriter

  class Reader {
    const inBuf: array<byte>
    var inFinger: nat      // next octet to be had
    var inBoundry: nat     // end of what was read
    var fbtbc: nat         // fragment bytes to be consumed
    var lastFrag: bool
    var pending: seq<byte> // what the connection has still to deliver before it ends
    ghost var taken: nat   // octets consumed since the stream began

    ghost predicate Valid()
      reads this
    {
      && inBuf.Length >= 100 && OnWord(inBuf.Length)
      && inFinger <= inBoundry <= inBuf.Length
      // in_base is word aligned, so the finger is aligned exactly when whole words were consumed
      && OnWord(taken - inFinger)
    }

    /** Everything still to be consumed, buffered or not. */
    ghost function Stream(): seq<byte>
      requires Valid()
      reads this, inBuf
    {
      inBuf[inFinger..inBoundry] + pending
    }

    ghost function Sees(): View
      requires Valid()
      reads this, inBuf
    {
      View(Stream(), fbtbc, lastFrag)
    }

    /** xdrrec_create. */
    constructor (recvSize: nat, incoming: seq<byte>)
      ensures Valid() && fresh(inBuf)
      ensures inBuf.Length == RecordWriter.FixBufSize(recvSize)
      ensures Sees() == View(incoming, 0, true) && taken == 0
    {
      var size := RecordWriter.FixBufSize(recvSize);
      inBuf := new byte[size];
      inFinger, inBoundry := size, size;
      fbtbc, lastFrag := 0, true;
      pending, taken := incoming, 0;
      new;
      assert Stream() == incoming;
    }

    /** The connection's readit: any positive number of the octets that are left, or -1 at the end. */
    method ReadIt(at: nat, len: nat) returns (n: int)
      requires 0 < len && at + len <= inBuf.Length
      modifies this`pending, inBuf
      ensures pending == old(pending) <==> old(pending) == []
      ensures n == -1 <==> old(pending) == []
      ensures n != -1 ==> 0 < n <= len && n <= |old(pending)|
      ensures n != -1 ==> inBuf[at..at + n] == old(pending[..n]) && pending == old(pending[n..])
    {
      if pending == [] {
        return -1;
      }
      n :| 0 < n <= len && n <= |pending|;
      forall i | 0 <= i < n {
        inBuf[at + i] := pending[i];
      }
      pending := pending[n..];
    }

    /** fill_input_buf: keeps the alignment of the exhausted buffer. */
    method FillInputBuf() returns (ok: bool)
      requires Valid() && inFinger == inBoundry
      modifies this`inFinger, this`inBoundry, this`pending, inBuf
      ensures Valid() && Stream() == old(Stream())
      ensures ok <==> old(pending) != []
      ensures ok ==> inFinger < inBoundry
      ensures !ok ==> Stream() == []
    {
      var i := inBoundry % 4;
      var len := inBuf.Length - i;
      ghost var all := pending;
      len := ReadIt(i, len);
      if len == -1 {
        return false;
      }
      SameAlignment(taken, inBoundry);
      inFinger := i;
      inBoundry := i + len;
      assert all == all[..len] + all[len..];
      return true;
    }

    /** get_input_bytes. */
    method GetInputBytes(len: nat) returns (ok: bool, data: seq<byte>)
      requires Valid()
      modifies this`inFinger, this`inBoundry, this`pending, this`taken, inBuf
      ensures Valid()
      ensures ok <==> len <= |old(Stream())|
      ensures ok ==> data == old(Stream())[..len] && Stream() == old(Stream())[len..]
      ensures !ok ==> Stream() == []
      ensures taken == old(taken) + |data|
    {
      hide OnWord;
      data := [];
      ghost var all := Stream();
      while |data| < len
        invariant Valid() && |data| <= len
        invariant all == data + Stream()
        invariant taken == old(taken) + |data|
        decreases len - |data|, inFinger == inBoundry
      {
        var current := inBoundry - inFinger;
        if current == 0 {
          ok := FillInputBuf();
          if !ok {
            return;
          }
        } else {
          current := if len - |data| < current then len - |data| else current;
          var next := inBuf[inFinger..inFinger + current];
          Advance(current);
          Assoc(data, next, Stream());
          data := data + next;
        }
      }
      assert data == all[..len];
      ok := true;
    }

    /** Moves the finger over `n` buffered octets. */
    method Advance(n: nat)
      requires Valid() && inFinger + n <= inBoundry
      modifies this`inFinger, this`taken
      ensures Valid() && inFinger == old(inFinger) + n
      ensures taken == old(taken) + n
      ensures old(Stream()) == old(inBuf[inFinger..inFinger + n]) + Stream()
      ensures Stream() == old(Stream())[n..]
    {
      assert inBuf[inFinger..inBoundry] == inBuf[inFinger..inFinger + n] + inBuf[inFinger + n..inBoundry];
      inFinger, taken := inFinger + n, taken + n;
      assert taken - inFinger == old(taken) - old(inFinger);
    }

    /** skip_input_bytes. */
    method SkipInputBytes(cnt: nat) returns (ok: bool)
      requires Valid()
      modifies this`inFinger, this`inBoundry, this`pending, this`taken, inBuf
      ensures Valid()
      ensures ok <==> cnt <= |old(Stream())|
      ensures ok ==> Stream() == old(Stream())[cnt..]
      ensures !ok ==> Stream() == []
    {
      hide OnWord;
      var left := cnt;
      ghost var all := Stream();
      while left > 0
        invariant Valid() && 0 <= left <= cnt
        invariant cnt - left <= |all| && Stream() == all[cnt - left..]
        decreases left, inFinger == inBoundry
      {
        var current := inBoundry - inFinger;
        if current == 0 {
          ok := FillInputBuf();
          if !ok {
            return;
          }
        } else {
          current := if left < current then left else current;
          Advance(current);
          assert all[cnt - left..][current..] == all[cnt - left + current..];
          left := left - current;
        }
      }
      ok := true;
    }

    /** set_input_fragment. */
    method SetInputFragment() returns (ok: bool)
      requires Valid()
      modifies this`inFinger, this`inBoundry, this`pending, this`taken, this`fbtbc, this`lastFrag, inBuf
      ensures Valid()
      ensures ok <==> NextFragment(old(Stream())).Some?
      ensures ok ==> Sees() == NextFragment(old(Stream())).value
      ensures !ok && |old(Stream())| < 4 ==> Sees() == View([], old(fbtbc), old(lastFrag))
      ensures !ok && |old(Stream())| >= 4 ==> Sees() == View(old(Stream())[4..], old(fbtbc), false)
    {
      hide OnWord, Be32, FromBe32;
      var data;
      ok, data := GetInputBytes(4);
      if !ok {
        return;
      }
      var header := FromBe32(data);
      lastFrag := header >= TWO_31;
      if header == 0 {
        return false;
      }
      fbtbc := header % TWO_31;
    }

    /** What the current fragment has of the next `want` octets. */
    method GetPiece(want: nat) returns (ok: bool, piece: seq<byte>)
      requires Valid() && want > 0 && fbtbc > 0
      modifies this`inFinger, this`inBoundry, this`pending, this`taken, this`fbtbc, inBuf
      ensures Valid()
      ensures !ok ==> Read(old(Sees()), want) == ReadResult(false, [], Sees())
      ensures ok ==> 0 < |piece| <= want && |Stream()| < |old(Stream())|
      ensures ok ==> Continues(Read(old(Sees()), want), piece, Read(Sees(), want - |piece|))
    {
      hide OnWord, NextFragment, Read;
      ReadUnfolds(Sees(), want);
      var current := if want < fbtbc then want else fbtbc;
      ok, piece := GetInputBytes(current);
      if ok {
        fbtbc := fbtbc - current;
      }
    }

    /** xdrrec_getbytes. */
    method GetBytes(len: nat) returns (ok: bool, data: seq<byte>)
      requires Valid()
      modifies this`inFinger, this`inBoundry, this`pending, this`taken, this`fbtbc, this`lastFrag, inBuf
      ensures Valid()
      ensures var r := Read(old(Sees()), len);
              ok == r.ok && Sees() == r.after && (ok ==> data == r.data)
    {
      hide OnWord, NextFragment, Read;
      data := [];
      ghost var goal := Read(Sees(), len);
      assert [] + goal.data == goal.data;
      while |data| < len
        invariant Valid() && |data| <= len
        invariant Continues(goal, data, Read(Sees(), len - |data|))
        decreases |Stream()|, len - |data|
      {
        if fbtbc == 0 {
          ReadUnfolds(Sees(), len - |data|);
          if lastFrag {
            return false, data;
          }
          ok := SetInputFragment();
          if !ok {
            return;
          }
        } else {
          var piece;
          ok, piece := GetPiece(len - |data|);
          if !ok {
            return;
          }
          Assoc(data, piece, Read(Sees(), len - |data| - |piece|).data);
          data := data + piece;
        }
      }
      ReadUnfolds(Sees(), 0);
      assert data + [] == data;
      ok := true;
    }

    /** xdrrec_getlong: a buffered word is taken in place, any other word octet by octet. */
    method GetLong() returns (ok: bool, w: word)
      requires Valid()
      modifies this`inFinger, this`inBoundry, this`pending, this`taken, this`fbtbc, this`lastFrag, inBuf
      ensures Valid()
      ensures var r := Read(old(Sees()), 4);
              ok == r.ok && Sees() == r.after && (ok ==> |r.data| == 4 && w == FromBe32(r.data) == Number(r.data))
    {
      hide NextFragment, FromBe32, Read, Number;
      ReadLength(Sees(), 4);
      if fbtbc >= 4 && inBoundry - inFinger >= 4 {
        assert OnWord(taken) ==> OnWord(inFinger);  // the word load is aligned
        ReadBuffered(Sees(), 4);
        w := FromBe32(inBuf[inFinger..inFinger + 4]);
        FromBe32IsNumber(inBuf[inFinger..inFinger + 4]);
        assert Stream()[..4] == inBuf[inFinger..inFinger + 4];
        fbtbc := fbtbc - 4;
        Advance(4);
        ok := true;
      } else {
        var mylong;
        ok, mylong := GetBytes(4);
        w := if ok then FromBe32(mylong) else 0;
        if ok { FromBe32IsNumber(mylong); }
      }
    }

    /** The loop shared by xdrrec_skiprecord and xdrrec_eof: consumes the rest of the current record. */
    method SkipRest() returns (ok: bool)
      requires Valid()
      modifies this`inFinger, this`inBoundry, this`pending, this`taken, this`fbtbc, this`lastFrag, inBuf
      ensures Valid()
      ensures ok <==> Rest(old(Sees())).Some?
      ensures ok ==> Sees() == View(Rest(old(Sees())).value.tail, 0, true)
    {
      hide OnWord, NextFragment, Rest;
      ghost var goal := Rest(Sees());
      while fbtbc > 0 || !lastFrag
        invariant Valid()
        invariant SameEnd(goal, Rest(Sees()))
        decreases |Stream()|
      {
        ghost var v := Sees();
        RestUnfolds(v);
        ok := SkipInputBytes(fbtbc);
        if !ok {
          return;
        }
        fbtbc := 0;
        if !lastFrag {
          RestSkipsDelivered(v);
          RestUnfolds(Sees());
          ok := SetInputFragment();
          if !ok {
            return;
          }
        } else {
          RestUnfolds(Sees());
        }
      }
      RestUnfolds(Sees());
      ok := true;
    }

    /** xdrrec_skiprecord: moves to the start of the next record. */
    method SkipRecord() returns (ok: bool)
      requires Valid()
      modifies this`inFinger, this`inBoundry, this`pending, this`taken, this`fbtbc, this`lastFrag, inBuf
      ensures Valid()
      ensures ok <==> Rest(old(Sees())).Some?
      ensures ok ==> Sees() == View(Rest(old(Sees())).value.tail, 0, false)
    {
      ok := SkipRest();
      if ok {
        lastFrag := false;
      }
    }

    /**
     * xdrrec_eof: consumes the rest of the current record. FALSE promises more input; TRUE says only
     * that the record was cut short or that nothing beyond it is buffered yet.
     */
    method Eof() returns (eof: bool)
      requires Valid()
      modifies this`inFinger, this`inBoundry, this`pending, this`taken, this`fbtbc, this`lastFrag, inBuf
      ensures Valid()
      ensures Rest(old(Sees())).None? ==> eof
      ensures Rest(old(Sees())).Some? ==> Sees() == View(Rest(old(Sees())).value.tail, 0, true)
      ensures !eof ==> Rest(old(Sees())).Some? && Rest(old(Sees())).value.tail != []
      ensures eof && Rest(old(Sees())).Some? ==> Rest(old(Sees())).value.tail == pending
    {
      var ok := SkipRest();
      eof := !ok || inFinger == inBoundry;
    }
  }

  lemma SameAlignment(taken: nat, boundry: nat)
    requires OnWord(taken - boundry)
    ensures OnWord(taken - boundry % 4)
  {}

  ghost predicate SameEnd(a: Option<RecordEnd>, b: Option<RecordEnd>) {
    (a.Some? <==> b.Some?) && (a.Some? ==> a.value.tail == b.value.tail)
  }

  lemma RestUnfolds(v: View)
    ensures |v.stream| < v.fbtbc ==> Rest(v) == None
    ensures v.last && v.fbtbc <= |v.stream| ==> Rest(v) == Some(RecordEnd(v.stream[..v.fbtbc], v.stream[v.fbtbc..]))
    ensures v.fbtbc == 0 && !v.last && NextFragment(v.stream).None? ==> Rest(v) == None
    ensures v.fbtbc == 0 && !v.last && NextFragment(v.stream).Some? ==>
              SameEnd(Rest(v), Rest(NextFragment(v.stream).value))
  {
    hide NextFragment;
    assert v.stream[0..] == v.stream;
  }
}
