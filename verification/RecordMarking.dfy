/**
 * Record marking over a byte stream (section 11 of RFC 5531), free of buffers and chunks.
 * A record is a run of fragments; each fragment is a four-octet header followed by its payload.
 */
module RecordMarking {
  import opened Bytes

  datatype AnyFragment = Fragment(last: bool, payload: seq<byte>)

  /** The length field of a fragment header has 31 bits. */
  type Frag = f: AnyFragment | |f.payload| < TWO_31 witness Fragment(true, [])

  /** A header of value 0 is what set_input_fragment refuses: a fragment neither last nor carrying data. */
  predicate NoEmptyFragment(fs: seq<Frag>) {
    forall i | 0 <= i < |fs| :: fs[i].last || fs[i].payload != []
  }

  function Header(f: Frag): word
  {
    (if f.last then TWO_31 else 0) + |f.payload|
  }

  function EncodeFrag(f: Frag): seq<byte>
  {
    Be32(Header(f)) + f.payload
  }

  function EncodeFrags(fs: seq<Frag>): seq<byte>
  {
    if fs == [] then [] else EncodeFrag(fs[0]) + EncodeFrags(fs[1..])
  }

  lemma {:induction false} EncodeFragsSnoc(fs: seq<Frag>, f: Frag)
    ensures EncodeFrags(fs + [f]) == EncodeFrags(fs) + EncodeFrag(f)
  {
    hide EncodeFrag;
    if fs == [] {
      assert fs + [f] == [f];
    } else {
      EncodeFragsSnoc(fs[1..], f);
      assert (fs + [f])[1..] == fs[1..] + [f];
    }
  }

  /** The records a run of fragments completes, and the octets of the record still open at its end. */
  datatype Gathered = Gathered(done: seq<seq<byte>>, open: seq<byte>)

  function GatherFrom(open: seq<byte>, fs: seq<Frag>): Gathered
    decreases |fs|
  {
    if fs == [] then Gathered([], open)
    else if fs[0].last then
      var g := GatherFrom([], fs[1..]);
      Gathered([open + fs[0].payload] + g.done, g.open)
    else GatherFrom(open + fs[0].payload, fs[1..])
  }

  function Gather(fs: seq<Frag>): Gathered {
    GatherFrom([], fs)
  }

  lemma {:induction false} GatherSnoc(open: seq<byte>, fs: seq<Frag>, f: Frag)
    ensures var g := GatherFrom(open, fs);
            GatherFrom(open, fs + [f]) ==
            if f.last then Gathered(g.done + [g.open + f.payload], []) else Gathered(g.done, g.open + f.payload)
    decreases |fs|
  {
    if fs == [] {
      assert fs + [f] == [f];
    } else {
      assert (fs + [f])[1..] == fs[1..] + [f];
      GatherSnoc(if fs[0].last then [] else open + fs[0].payload, fs[1..], f);
    }
  }

  // ---- the reader's view -------------------------------------------------------------------

  /** What the blocking reader still has to deliver, whatever part of it is already buffered. */
  datatype View = View(stream: seq<byte>, fbtbc: nat, last: bool)

  /** set_input_fragment on a stream: None when the header is missing or is 0. */
  function NextFragment(stream: seq<byte>): (next: Option<View>)
    ensures next.Some? ==> |stream| >= 4 && next.value.stream == stream[4..]
  {
    if |stream| < 4 then None
    else
      var h := FromBe32(stream[..4]);
      if h == 0 then None else Some(View(stream[4..], h % TWO_31, h >= TWO_31))
  }

  datatype RecordEnd = RecordEnd(payload: seq<byte>, tail: seq<byte>)

  /** Reference reading of the rest of the current record, and of what follows it. */
  function Rest(v: View): Option<RecordEnd>
    decreases |v.stream|
  {
    if |v.stream| < v.fbtbc then None
    else if v.last then Some(RecordEnd(v.stream[..v.fbtbc], v.stream[v.fbtbc..]))
    else
      match NextFragment(v.stream[v.fbtbc..])
      case None => None
      case Some(next) =>
        match Rest(next)
        case None => None
        case Some(e) => Some(RecordEnd(v.stream[..v.fbtbc] + e.payload, e.tail))
  }

  lemma NextFragmentOfEncoding(f: Frag, tail: seq<byte>)
    ensures NextFragment(EncodeFrag(f) + tail) ==
            if !f.last && f.payload == [] then None else Some(View(f.payload + tail, |f.payload|, f.last))
  {
    var s := EncodeFrag(f) + tail;
    assert s[..4] == Be32(Header(f));
    assert s[4..] == f.payload + tail;
    Be32RoundTrip(Header(f));
  }

  /** A fragment on the wire: the highest bit of its first octet says that it is the last, and 31 bits its length. */
  lemma HeaderOnWire(f: Frag)
    ensures var s := EncodeFrag(f);
            && (s[0] >= 128 <==> f.last)
            && Number(s[..4]) == |f.payload| + (if f.last then 0x8000_0000 else 0)
            && s[4..] == f.payload
  {
    var s := EncodeFrag(f);
    assert s[..4] == Be32(Header(f));
    Be32IsNumber(Header(f));
  }

  /** And what is read off the wire, in its octets. */
  lemma HeaderOffWire(stream: seq<byte>)
    requires |stream| >= 4
    ensures var next := NextFragment(stream);
            && (next.None? <==> stream[..4] == [0, 0, 0, 0])
            && (next.Some? ==>
                  && (next.value.last <==> stream[0] >= 128)
                  && next.value.fbtbc == Number(stream[..4]) - (if stream[0] >= 128 then 0x8000_0000 else 0)
                  && next.value.stream == stream[4..])
  {
    FromBe32IsNumber(stream[..4]);
  }

  function Prefixed(p: seq<byte>, r: Option<RecordEnd>): Option<RecordEnd> {
    match r
    case None => None
    case Some(e) => Some(RecordEnd(p + e.payload, e.tail))
  }

  lemma PrefixedNothing(r: Option<RecordEnd>)
    ensures Prefixed([], r) == r
  {
    if r.Some? {
      assert [] + r.value.payload == r.value.payload;
    }
  }

  /** Delivered octets of the current fragment do not change how the record goes on. */
  lemma RestSkipsDelivered(v: View)
    requires v.fbtbc <= |v.stream|
    ensures Rest(v) == Prefixed(v.stream[..v.fbtbc], Rest(View(v.stream[v.fbtbc..], 0, v.last)))
  {
    hide NextFragment;
    var s := v.stream[v.fbtbc..];
    assert s[0..] == s && s[..0] == [];
    if v.last {
      assert v.stream[..v.fbtbc] + [] == v.stream[..v.fbtbc];
    } else if NextFragment(s).Some? {
      PrefixedNothing(Rest(NextFragment(s).value));
    }
  }

  /** Reading through one encoded fragment. */
  lemma RestOfEncoding(f: Frag, after: seq<byte>)
    requires (f.last || f.payload != [])
    ensures Rest(View(EncodeFrag(f) + after, 0, false)) ==
            if f.last then Some(RecordEnd(f.payload, after)) else Prefixed(f.payload, Rest(View(after, 0, false)))
  {
    var s := EncodeFrag(f) + after;
    var v := View(f.payload + after, |f.payload|, f.last);
    NextFragmentOfEncoding(f, after);
    RestSkipsDelivered(View(s, 0, false));
    assert s[0..] == s && s[..0] == [];
    assert v.stream[..v.fbtbc] == f.payload && v.stream[v.fbtbc..] == after;
    assert Rest(View(s, 0, false)) == Prefixed([], Rest(v));
    RestSkipsDelivered(v);
    PrefixedNothing(Rest(v));
    if f.last {
      assert after[0..] == after && after[..0] == [];
    }
  }

  /** How many fragments the first record of `fs` has. */
  function FirstEnd(fs: seq<Frag>): (k: nat)
    ensures k <= |fs|
    decreases |fs|
  {
    if fs == [] then 0 else if fs[0].last then 1 else 1 + FirstEnd(fs[1..])
  }

  /**
   * Reading one record from encoded fragments succeeds exactly when none of its fragments is empty
   * in the middle; it then delivers the first record and leaves the reader at the remaining ones.
   */
  lemma {:induction false} FirstRecord(open: seq<byte>, fs: seq<Frag>, tail: seq<byte>)
    requires GatherFrom(open, fs).done != []
    ensures var g := GatherFrom(open, fs);
            var k := FirstEnd(fs);
            var r := Rest(View(EncodeFrags(fs) + tail, 0, false));
            && k > 0
            && (r.Some? <==> NoEmptyFragment(fs[..k]))
            && (r.Some? ==> open + r.value.payload == g.done[0] && r.value.tail == EncodeFrags(fs[k..]) + tail)
            && Gather(fs[k..]) == Gathered(g.done[1..], g.open)
    decreases |fs|
  {
    hide EncodeFrag, NextFragment, Rest;
    var f := fs[0];
    var k := FirstEnd(fs);
    var after := EncodeFrags(fs[1..]) + tail;
    assert EncodeFrags(fs) + tail == EncodeFrag(f) + after;
    assert fs[..k] == [f] + fs[1..][..k - 1];
    NoEmptyFragmentCons(f, fs[1..][..k - 1]);
    if !f.last && f.payload == [] {
      EmptyFragmentStopsReader(after);
    } else {
      RestOfEncoding(f, after);
    }
    if !f.last {
      FirstRecord(open + f.payload, fs[1..], tail);
      assert fs[1..][k - 1..] == fs[k..];
      if Rest(View(after, 0, false)).Some? {
        Assoc(open, f.payload, Rest(View(after, 0, false)).value.payload);
      }
    }
  }

  lemma NoEmptyFragmentCons(f: Frag, fs: seq<Frag>)
    ensures NoEmptyFragment([f] + fs) <==> (f.last || f.payload != []) && NoEmptyFragment(fs)
  {
    var all := [f] + fs;
    assert all[0] == f;
    assert forall i | 0 <= i < |fs| :: fs[i] == all[i + 1];
  }

  lemma NoEmptyFragmentConcat(a: seq<Frag>, b: seq<Frag>)
    ensures NoEmptyFragment(a + b) <==> NoEmptyFragment(a) && NoEmptyFragment(b)
  {
    var all := a + b;
    assert forall i | 0 <= i < |a| :: a[i] == all[i];
    assert forall i | 0 <= i < |b| :: b[i] == all[|a| + i];
  }

  /** One empty middle fragment stops the reader: the record it belongs to cannot be read. */
  lemma EmptyFragmentStopsReader(tail: seq<byte>)
    ensures Rest(View(EncodeFrag(Fragment(false, [])) + tail, 0, false)) == None
  {
    NextFragmentOfEncoding(Fragment(false, []), tail);
    var s := EncodeFrag(Fragment(false, [])) + tail;
    assert s[0..] == s;
  }

  // ---- exact reading of n octets -------------------------------------------------------------

  datatype ReadResult = ReadResult(ok: bool, data: seq<byte>, after: View)

  /** xdrrec_getbytes on the view, failures included. */
  function Read(v: View, n: nat): ReadResult
    decreases |v.stream|, n
  {
    if n == 0 then ReadResult(true, [], v)
    else if v.fbtbc == 0 then
      if v.last then ReadResult(false, [], v)
      else if |v.stream| < 4 then ReadResult(false, [], v.(stream := []))
      else
        match NextFragment(v.stream)
        case None => ReadResult(false, [], View(v.stream[4..], 0, false))
        case Some(next) => Read(next, n)
    else
      var k := if n < v.fbtbc then n else v.fbtbc;
      if |v.stream| < k then ReadResult(false, [], v.(stream := []))
      else
        var r := Read(View(v.stream[k..], v.fbtbc - k, v.last), n - k);
        r.(data := v.stream[..k] + r.data)
  }

  /** `data` is what a reading has delivered so far and `r` is how it goes on to reach `goal`. */
  ghost predicate Continues(goal: ReadResult, data: seq<byte>, r: ReadResult) {
    goal.ok == r.ok && goal.after == r.after && goal.data == data + r.data
  }

  /** One round of the loop in xdrrec_getbytes. */
  lemma ReadUnfolds(v: View, n: nat)
    ensures n == 0 ==> Read(v, n) == ReadResult(true, [], v)
    ensures n > 0 && v.fbtbc == 0 && v.last ==> Read(v, n) == ReadResult(false, [], v)
    ensures n > 0 && v.fbtbc == 0 && !v.last && NextFragment(v.stream).Some? ==>
              Read(v, n) == Read(NextFragment(v.stream).value, n)
    ensures n > 0 && v.fbtbc == 0 && !v.last && NextFragment(v.stream).None? ==>
              Read(v, n) ==
              ReadResult(false, [], if |v.stream| < 4 then v.(stream := []) else View(v.stream[4..], 0, false))
    ensures n > 0 && v.fbtbc > 0 ==>
              var k := if n < v.fbtbc then n else v.fbtbc;
              if |v.stream| < k then Read(v, n) == ReadResult(false, [], v.(stream := []))
              else Continues(Read(v, n), v.stream[..k], Read(View(v.stream[k..], v.fbtbc - k, v.last), n - k))
  {}

  /** Octets of the current fragment are read off the front of the stream. */
  lemma ReadBuffered(v: View, n: nat)
    requires 0 < n <= v.fbtbc && n <= |v.stream|
    ensures Read(v, n) == ReadResult(true, v.stream[..n], View(v.stream[n..], v.fbtbc - n, v.last))
  {
    var w := View(v.stream[n..], v.fbtbc - n, v.last);
    assert Read(w, 0) == ReadResult(true, [], w);
    assert v.stream[..n] + [] == v.stream[..n];
  }

  lemma {:induction false} ReadLength(v: View, n: nat)
    ensures Read(v, n).ok ==> |Read(v, n).data| == n
    ensures |Read(v, n).after.stream| + |Read(v, n).data| <= |v.stream|
    decreases |v.stream|, n
  {
    hide NextFragment;
    if n > 0 && v.fbtbc == 0 && !v.last && NextFragment(v.stream).Some? {
      ReadLength(NextFragment(v.stream).value, n);
    } else if n > 0 && v.fbtbc > 0 {
      var k := if n < v.fbtbc then n else v.fbtbc;
      if k <= |v.stream| {
        ReadLength(View(v.stream[k..], v.fbtbc - k, v.last), n - k);
      }
    }
  }

  /**
   * Reading `n` octets at `v`, where the current record is intact: within the record it delivers the
   * next octets in order; past its end it fails with the record consumed and the next one untouched.
   */
  ghost predicate DeliversInOrder(v: View, n: nat)
    requires Rest(v).Some?
  {
    var e := Rest(v).value;
    var r := Read(v, n);
    && r.ok == (n <= |e.payload|)
    && r.data == e.payload[..if r.ok then n else |e.payload|]
    && Rest(r.after) == Some(RecordEnd(e.payload[|r.data|..], e.tail))
    && (!r.ok ==> r.after == View(e.tail, 0, true))
  }

  lemma {:induction false} ReadWithinRecord(v: View, n: nat)
    requires Rest(v).Some?
    ensures DeliversInOrder(v, n)
    decreases |v.stream|, n
  {
    hide NextFragment;
    var e := Rest(v).value;
    if n == 0 {
      assert e.payload[0..] == e.payload;
    } else if v.fbtbc == 0 {
      RestSkipsDelivered(v);
      assert v.stream[0..] == v.stream && v.stream[..0] == [];
      if !v.last {
        PrefixedNothing(Rest(NextFragment(v.stream).value));
        ReadWithinRecord(NextFragment(v.stream).value, n);
      }
    } else {
      var k := if n < v.fbtbc then n else v.fbtbc;
      RestAfterDelivering(v, k);
      ReadWithinRecord(View(v.stream[k..], v.fbtbc - k, v.last), n - k);
      ReadWithinFragment(v, n, k);
    }
  }

  lemma ReadWithinFragment(v: View, n: nat, k: nat)
    requires 0 < k <= v.fbtbc <= |v.stream| && k == if n < v.fbtbc then n else v.fbtbc
    requires var w := View(v.stream[k..], v.fbtbc - k, v.last);
             Rest(w).Some? && Rest(v) == Prefixed(v.stream[..k], Rest(w)) && DeliversInOrder(w, n - k)
    ensures DeliversInOrder(v, n)
  {
    hide Rest, NextFragment;
    var w := View(v.stream[k..], v.fbtbc - k, v.last);
    PrefixSlices(v.stream[..k], Rest(w).value.payload, |Read(w, n - k).data|);
  }

  lemma PrefixSlices(a: seq<byte>, q: seq<byte>, m: nat)
    requires m <= |q|
    ensures (a + q)[..|a| + m] == a + q[..m] && (a + q)[|a| + m..] == q[m..]
  {}

  lemma RestAfterDelivering(v: View, k: nat)
    requires k <= v.fbtbc <= |v.stream|
    ensures Rest(v) == Prefixed(v.stream[..k], Rest(View(v.stream[k..], v.fbtbc - k, v.last)))
  {
    hide NextFragment, Rest;
    var w := View(v.stream[k..], v.fbtbc - k, v.last);
    assert w.stream[w.fbtbc..] == v.stream[v.fbtbc..];
    assert v.stream[..v.fbtbc] == v.stream[..k] + w.stream[..w.fbtbc];
    RestSkipsDelivered(v);
    RestSkipsDelivered(w);
    var r := Rest(View(v.stream[v.fbtbc..], 0, v.last));
    if r.Some? {
      assert v.stream[..k] + (w.stream[..w.fbtbc] + r.value.payload) == v.stream[..v.fbtbc] + r.value.payload;
    }
  }

  // ---- whole streams ---------------------------------------------------------------------------

  /** The records a reader gets by reading `n` records one after the other. */
  function ReadRecords(stream: seq<byte>, n: nat): Option<Gathered>
    decreases n
  {
    if n == 0 then Some(Gathered([], stream))
    else
      match Rest(View(stream, 0, false))
      case None => None
      case Some(e) =>
        match ReadRecords(e.tail, n - 1)
        case None => None
        case Some(g) => Some(Gathered([e.payload] + g.done, g.open))
  }

  /** The stream ends where a record ends. */
  predicate Closed(fs: seq<Frag>) {
    fs != [] ==> fs[|fs| - 1].last
  }

  /** A fragmentation of whole records is read back as those records iff it has no empty middle fragment. */
  lemma {:induction false} StreamRoundTrip(fs: seq<Frag>)
    requires Closed(fs)
    ensures var r := ReadRecords(EncodeFrags(fs), |Gather(fs).done|);
            && (r.Some? <==> NoEmptyFragment(fs))
            && (r.Some? ==> r.value == Gathered(Gather(fs).done, []))
    decreases |fs|
  {
    hide EncodeFrag, Rest;
    if fs != [] {
      ClosedGathers([], fs);
      FirstRecord([], fs, []);
      var k := FirstEnd(fs);
      assert EncodeFrags(fs) + [] == EncodeFrags(fs) && EncodeFrags(fs[k..]) + [] == EncodeFrags(fs[k..]);
      assert fs == fs[..k] + fs[k..];
      NoEmptyFragmentConcat(fs[..k], fs[k..]);
      StreamRoundTrip(fs[k..]);
      var r := Rest(View(EncodeFrags(fs), 0, false));
      if r.Some? {
        assert [] + r.value.payload == r.value.payload;
      }
    }
  }

  lemma {:induction false} ClosedGathers(open: seq<byte>, fs: seq<Frag>)
    requires Closed(fs) && fs != []
    ensures GatherFrom(open, fs).done != [] && GatherFrom(open, fs).open == []
    decreases |fs|
  {
    if |fs| > 1 {
      ClosedGathers(if fs[0].last then [] else open + fs[0].payload, fs[1..]);
    }
  }

  /** How a caller cuts its reads does not matter: reading `a` and then `b` octets is reading `a + b`. */
  lemma {:induction false} ReadSplit(v: View, a: nat, b: nat)
    requires Read(v, a).ok
    ensures var first := Read(v, a);
            var second := Read(first.after, b);
            && Read(v, a + b).ok == second.ok
            && (second.ok ==> Read(v, a + b) == ReadResult(true, first.data + second.data, second.after))
    decreases |v.stream|, a
  {
    hide NextFragment, Read;
    ReadUnfolds(v, a);
    ReadUnfolds(v, a + b);
    if a == 0 {
      assert [] + Read(v, b).data == Read(v, b).data;
    } else if v.fbtbc == 0 {
      ReadSplit(NextFragment(v.stream).value, a, b);
    } else if a <= v.fbtbc {
      ReadBuffered(v, a);
      ReadSplitInFragment(v, a, b);
    } else {
      var w := View(v.stream[v.fbtbc..], 0, v.last);
      ReadSplit(w, a - v.fbtbc, b);
      Assoc(v.stream[..v.fbtbc], Read(w, a - v.fbtbc).data, Read(Read(v, a).after, b).data);
    }
  }

  lemma ReadSplitInFragment(v: View, a: nat, b: nat)
    requires 0 < a <= v.fbtbc && a <= |v.stream|
    ensures var second := Read(View(v.stream[a..], v.fbtbc - a, v.last), b);
            && Read(v, a + b).ok == second.ok
            && (second.ok ==> Read(v, a + b) == ReadResult(true, v.stream[..a] + second.data, second.after))
  {
    hide NextFragment, Read;
    var w := View(v.stream[a..], v.fbtbc - a, v.last);
    ReadUnfolds(v, a + b);
    ReadUnfolds(w, b);
    if b == 0 {
      assert v.stream[..a] + [] == v.stream[..a];
      ReadUnfolds(w, 0);
    } else if a < v.fbtbc {
      var k := if b < v.fbtbc - a then b else v.fbtbc - a;
      if a + k <= |v.stream| {
        assert v.stream[..a + k] == v.stream[..a] + v.stream[a..][..k];
        assert v.stream[a + k..] == v.stream[a..][k..];
        Assoc(v.stream[..a], v.stream[a..][..k], Read(View(v.stream[a + k..], v.fbtbc - a - k, v.last), b - k).data);
      }
    }
  }
}
