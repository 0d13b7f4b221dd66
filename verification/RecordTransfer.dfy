/** Records sent through a Writer and read back by a Reader at the other end of the connection. */
module RecordTransfer {
  import opened Bytes
  import opened RecordMarking
  import opened RecordCursors
  import opened RecordWriter
  import opened RecordReader

  function ItemBytes(i: Item): seq<byte> {
    match i
    case Long(w) => Be32(w)
    case Octets(s) => s
  }

  function Payload(items: seq<Item>): seq<byte> {
    if items == [] then [] else Payload(items[..|items| - 1]) + ItemBytes(items[|items| - 1])
  }

  function Payloads(records: seq<seq<Item>>): seq<seq<byte>> {
    seq(|records|, i requires 0 <= i < |records| => Payload(records[i]))
  }

  lemma PayloadsSnoc(records: seq<seq<Item>>, n: nat)
    requires n < |records|
    ensures Payloads(records[..n + 1]) == Payloads(records[..n]) + [Payload(records[n])]
  {}

  lemma RunSnoc(records: seq<seq<Item>>, sendNow: seq<bool>, size: nat, n: nat)
    requires n < |records| == |sendNow| && 8 < size
    ensures RunAt(records[..n + 1], sendNow[..n + 1], size) ==
            RecordAt(RunAt(records[..n], sendNow[..n], size), records[n], sendNow[n], size)
  {
    hide RecordAt;
    assert records[..n + 1][..n] == records[..n] && sendNow[..n + 1][..n] == sendNow[..n];
  }

  /** A record put item by item and then ended. */
  method SendRecord(w: Writer, items: seq<Item>, sendNow: bool) returns (ok: bool)
    requires w.Valid() && w.Current() == []
    modifies w, w.outBuf
    ensures w.Shape() && (!ok ==> w.Broken())
    ensures ok ==> w.Valid() && w.Current() == [] && w.Records() == old(w.Records()) + [Payload(items)]
    ensures ok ==> w.State() == RecordAt(old(w.State()), items, sendNow, w.outBuf.Length)
    ensures ok && sendNow ==> w.wire == EncodeFrags(w.frags)
  {
    hide OnWord, Be32, NoEmptyFragment, EncodeFrags, GatherFrom, Gather, PutOctetsAt, PutWordAt, EndAt, Accounted;
    var n := 0;
    while n < |items|
      invariant 0 <= n <= |items| && w.Valid()
      invariant w.Records() == old(w.Records()) && w.Current() == Payload(items[..n])
      invariant w.State() == PutAllAt(old(w.State()), items[..n], w.outBuf.Length)
    {
      match items[n] {
        case Long(v) => ok := w.PutLong(v);
        case Octets(s) => ok := w.PutBytes(s);
      }
      if !ok {
        return;
      }
      assert items[..n + 1][..n] == items[..n];
      n := n + 1;
    }
    assert items[..n] == items;
    ok := w.EndOfRecord(sendNow);
  }

  /** What is left of the current record can be read exactly when it can be after reading part of it. */
  lemma {:induction false} RestWhileReading(v: View, n: nat)
    ensures var r := Read(v, n);
            && (r.ok ==> (Rest(r.after).Some? <==> Rest(v).Some?))
            && (!r.ok ==> (r.after.last && r.after.fbtbc == 0 <==> Rest(v).Some?))
    decreases |v.stream|, n
  {
    hide NextFragment, Rest, Read;
    ReadUnfolds(v, n);
    RestUnfolds(v);
    if n > 0 && v.fbtbc == 0 && !v.last && NextFragment(v.stream).Some? {
      RestWhileReading(NextFragment(v.stream).value, n);
    } else if n > 0 && v.fbtbc > 0 {
      var k := if n < v.fbtbc then n else v.fbtbc;
      if k <= |v.stream| {
        var w := View(v.stream[k..], v.fbtbc - k, v.last);
        RestUnfolds(w);
        if v.fbtbc <= |v.stream| {
          RestAfterDelivering(v, k);
        }
        RestWhileReading(w, n - k);
      }
    }
  }

  /** The record after the current one. */
  function NextRecord(v: View): Option<RecordEnd> {
    match Rest(v)
    case None => None
    case Some(e) => Rest(View(e.tail, 0, false))
  }

  /**
   * Moves to the next record and reads it octet by octet until the reader has no more of it; `ok` says
   * that this is where the record ends.
   */
  method ReceiveRecord(r: Reader) returns (ok: bool, got: seq<byte>)
    requires r.Valid()
    modifies r, r.inBuf
    ensures r.Valid()
    ensures ok <==> NextRecord(old(r.Sees())).Some?
    ensures ok ==> var record := NextRecord(old(r.Sees())).value;
                   got == record.payload && r.Sees() == View(record.tail, 0, true)
  {
    hide OnWord, NextFragment, Rest, Read;
    got := [];
    ok := r.SkipRecord();
    if !ok {
      return;
    }
    ghost var record := Rest(r.Sees());
    PrefixedNothing(record);
    while true
      invariant r.Valid()
      invariant record == Prefixed(got, Rest(r.Sees()))
      decreases |r.Stream()|
    {
      ghost var v := r.Sees();
      ReadLength(v, 1);
      RestWhileReading(v, 1);
      if record.Some? {
        ReadWithinRecord(v, 1);
      }
      var more, octet := r.GetBytes(1);
      if !more {
        break;
      }
      if record.Some? {
        var left := Rest(v).value.payload;
        assert left == octet + left[1..];
        Assoc(got, octet, left[1..]);
      }
      got := got + octet;
    }
    ok := r.lastFrag && r.fbtbc == 0;
  }

  /** Reads `n` records off a fresh connection that will deliver `incoming`; `ok` says that all of them were whole. */
  method ReceiveAll(incoming: seq<byte>, n: nat, recvSize: nat) returns (ok: bool, got: seq<seq<byte>>)
    ensures ok <==> ReadRecords(incoming, n).Some?
    ensures ok ==> got == ReadRecords(incoming, n).value.done
  {
    hide OnWord, Rest;
    var r := new Reader(recvSize, incoming);
    ok, got := true, [];
    ghost var all := ReadRecords(incoming, n);
    ghost var left := incoming;
    while ok && |got| < n
      invariant |got| <= n
      invariant r.Valid() && fresh(r) && fresh(r.inBuf)
      invariant !ok ==> all.None?
      invariant ok ==>
                  && r.Sees() == View(left, 0, true)
                  && (ReadRecords(left, n - |got|).Some? <==> all.Some?)
                  && (all.Some? ==> all.value.done == got + ReadRecords(left, n - |got|).value.done)
      decreases n - |got|, ok
    {
      NothingLeft(left);
      var record;
      ok, record := ReceiveRecord(r);
      if ok {
        var e := Rest(View(left, 0, false)).value;
        if all.Some? {
          Assoc(got, [e.payload], ReadRecords(e.tail, n - |got| - 1).value.done);
        }
        left := e.tail;
        got := got + [record];
      }
    }
  }

  /** Between records nothing is left of the previous one. */
  lemma NothingLeft(tail: seq<byte>)
    ensures Rest(View(tail, 0, true)) == Some(RecordEnd([], tail))
  {
    assert tail[..0] == [] && tail[0..] == tail;
  }

  /** A run of records put one after the other. */
  method SendAll(w: Writer, records: seq<seq<Item>>, sendNow: seq<bool>) returns (sent: bool)
    requires |sendNow| == |records| && w.Valid()
    requires w.Current() == [] && w.Records() == [] && w.State() == START
    modifies w, w.outBuf
    ensures w.Shape() && (!sent ==> w.Broken())
    ensures sent ==> w.Valid() && w.Records() == Payloads(records)
    ensures sent ==> w.State() == RunAt(records, sendNow, w.outBuf.Length)
  {
    assert Payloads(records[..0]) == [] && RunAt(records[..0], sendNow[..0], w.outBuf.Length) == START;
    hide OnWord, Be32, NoEmptyFragment, EncodeFrags, GatherFrom, Gather, RecordAt, RunAt, Accounted, Payloads, Payload;
    var n := 0;
    while n < |records|
      invariant 0 <= n <= |records| && w.Valid() && w.Current() == []
      invariant w.Records() == Payloads(records[..n])
      invariant w.State() == RunAt(records[..n], sendNow[..n], w.outBuf.Length)
    {
      sent := SendRecord(w, records[n], sendNow[n]);
      if !sent {
        return;
      }
      PayloadsSnoc(records, n);
      RunSnoc(records, sendNow, w.outBuf.Length, n);
      n := n + 1;
    }
    assert records[..n] == records && sendNow[..n] == sendNow;
    sent := true;
  }

  /**
   * Record round trip. Whatever the two buffer sizes, the batching choices and the sizes of the reads on the
   * way, the records that left the writer arrive as the same records, each ending where it ended, exactly
   * when no header of value 0 was emitted, which the lengths of the puts decide.
   */
  method Transfer(records: seq<seq<Item>>, sendNow: seq<bool>, sendSize: nat, recvSize: nat, limit: Option<nat>)
    returns (sent: bool, whole: bool, got: seq<seq<byte>>)
    requires |sendNow| == |records| && sendSize < TWO_31 - 4
    ensures limit == None ==> sent
    ensures sent ==> (whole <==> !EmitsEmpty(records, sendNow, FixBufSize(sendSize)))
    ensures sent && whole ==>
              var onWire := RunAt(records, sendNow, FixBufSize(sendSize)).onWire;
              onWire <= |records| && got == Payloads(records[..onWire])
    ensures sent && whole && (records == [] || sendNow[|records| - 1]) ==> got == Payloads(records)
  {
    hide OnWord, Be32, NoEmptyFragment, Rest, GatherFrom, Gather, RunAt, EncodeFrags;
    var w := new Writer(sendSize, limit);
    whole, got := false, [];
    sent := SendAll(w, records, sendNow);
    if !sent {
      return;
    }
    RunCounts(records, sendNow, w.outBuf.Length);
    StreamRoundTrip(w.wired);
    var onWire := RunAt(records, sendNow, w.outBuf.Length).onWire;
    whole, got := ReceiveAll(w.wire, onWire, recvSize);
    assert Gather(w.wired).done == Payloads(records)[..onWire] == Payloads(records[..onWire]);
    assert records[..|records|] == records;
  }

  /**
   * Such a header is emitted by puts that are not whole words: 89 octets batched in a 100-octet buffer leave three
   * octets behind the next header, so the word put next pushes an empty fragment out, and the reader
   * never gets the second record.
   */
  method OctetsCanLoseARecord() returns (w: Writer)
    ensures w.Valid() && |w.Records()| == 2 && Closed(w.frags)
    ensures w.wire == EncodeFrags(w.frags) && ReadRecords(w.wire, 2) == None
  {
    hide OnWord, Be32, Rest, EncodeFrags, Gather;
    w := new Writer(100, None);
    var sent := w.PutBytes(seq(89, _ => 0));
    sent := w.EndOfRecord(false);
    assert w.outFinger == 97 && w.Partial() == [];
    sent := w.PutLong(7);
    sent := w.EndOfRecord(true);
    StreamRoundTrip(w.frags);
  }
}
