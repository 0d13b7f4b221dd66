/** Where the cursors of a writer stand after what was put on it, computed from the lengths alone. */
module RecordCursors {
  import opened Bytes

  /** One put on the stream: a word, or octets. */
  datatype Item = Long(w: word) | Octets(s: seq<byte>)

  /**
   * The cursors; how many records were ended and how many of them are on the wire; and whether a header of
   * value 0 was emitted.
   */
  datatype Cursors = Cursors(header: nat, finger: nat, fragSent: bool, ended: nat, onWire: nat, empty: bool)

  const START := Cursors(0, 4, false, 0, 0, false)

  /** The cursors are in bounds of a buffer of `size` octets. */
  predicate Fit(c: Cursors, size: nat) {
    8 < size && c.header + 4 < size && c.header + 4 <= c.finger <= size
  }

  /** A full buffer leaves in the middle of a record; its fragment is empty if nothing was put into it. */
  function Cut(c: Cursors): Cursors {
    Cursors(0, 4, true, c.ended, c.ended, c.empty || c.finger == c.header + 4)
  }

  function PutWordAt(c: Cursors, size: nat): (d: Cursors)
    requires Fit(c, size)
    ensures Fit(d, size)
  {
    var d := if size < c.finger + 4 then Cut(c) else c;
    d.(finger := d.finger + 4)
  }

  function PutOctetsAt(c: Cursors, len: nat, size: nat): (d: Cursors)
    requires Fit(c, size)
    ensures Fit(d, size)
    decreases len, c.finger == size
  {
    if len == 0 then c
    else
      var current := Min(len, size - c.finger);
      PutOctetsAt(Turn(c, current, size), len - current, size)
  }

  /** One turn of the loop in xdrrec_putbytes. */
  function Turn(c: Cursors, current: nat, size: nat): (d: Cursors)
    requires Fit(c, size) && c.finger + current <= size
    ensures Fit(d, size) && d.finger < size && d.ended == c.ended && d.empty == c.empty
  {
    var d := c.(finger := c.finger + current);
    if d.finger == size then Cut(d) else d
  }

  /** No octets emit an empty fragment, and octets that fit are only stored. */
  lemma {:induction false} OctetsPut(c: Cursors, len: nat, size: nat)
    requires Fit(c, size)
    ensures var d := PutOctetsAt(c, len, size);
            && d.empty == c.empty && d.ended == c.ended
            && (len > 0 ==> d.finger < size)
            && (c.finger + len < size ==> d == c.(finger := c.finger + len))
    decreases len, c.finger == size
  {
    if len > 0 {
      var current := Min(len, size - c.finger);
      OctetsPut(Turn(c, current, size), len - current, size);
    }
  }

  lemma NoOctets(c: Cursors, size: nat)
    requires Fit(c, size)
    ensures PutOctetsAt(c, 0, size) == c
  {}

  lemma OctetsTurn(c: Cursors, d: Cursors, len: nat, current: nat, size: nat, goal: Cursors)
    requires Fit(c, size) && PutOctetsAt(c, len, size) == goal && len > 0
    requires current == Min(len, size - c.finger) && d == Turn(c, current, size)
    ensures PutOctetsAt(d, len - current, size) == goal
  {}

  function Min(a: nat, b: nat): nat { if a < b then a else b }

  function EndAt(c: Cursors, sendNow: bool, size: nat): (d: Cursors)
    requires Fit(c, size)
    ensures Fit(d, size) && d.empty == c.empty && !d.fragSent
  {
    if sendNow || c.fragSent || c.finger + 4 >= size then Cursors(0, 4, false, c.ended + 1, c.ended + 1, c.empty)
    else Cursors(c.finger, c.finger + 4, false, c.ended + 1, c.onWire, c.empty)
  }

  function PutAt(c: Cursors, item: Item, size: nat): (d: Cursors)
    requires Fit(c, size)
    ensures Fit(d, size)
  {
    match item
    case Long(_) => PutWordAt(c, size)
    case Octets(s) => PutOctetsAt(c, |s|, size)
  }

  function PutAllAt(c: Cursors, items: seq<Item>, size: nat): (d: Cursors)
    requires Fit(c, size)
    ensures Fit(d, size)
  {
    if items == [] then c else PutAt(PutAllAt(c, items[..|items| - 1], size), items[|items| - 1], size)
  }

  function RecordAt(c: Cursors, items: seq<Item>, sendNow: bool, size: nat): (d: Cursors)
    requires Fit(c, size)
    ensures Fit(d, size)
  {
    EndAt(PutAllAt(c, items, size), sendNow, size)
  }

  /** The cursors after a run of records. */
  function RunAt(records: seq<seq<Item>>, sendNow: seq<bool>, size: nat): (d: Cursors)
    requires |sendNow| == |records| && 8 < size
    ensures Fit(d, size)
  {
    if records == [] then START
    else
      var k := |records| - 1;
      RecordAt(RunAt(records[..k], sendNow[..k], size), records[k], sendNow[k], size)
  }

  /** Whether such a run emits a header of value 0: what a caller can know beforehand. */
  predicate EmitsEmpty(records: seq<seq<Item>>, sendNow: seq<bool>, size: nat)
    requires |sendNow| == |records| && 8 < size
  {
    RunAt(records, sendNow, size).empty
  }

  // ---- runs that do not ------------------------------------------------------------------------------

  lemma {:induction false} EndedAt(c: Cursors, items: seq<Item>, size: nat)
    requires Fit(c, size)
    ensures PutAllAt(c, items, size).ended == c.ended
    ensures c.onWire <= c.ended ==> PutAllAt(c, items, size).onWire <= c.ended
  {
    if items != [] {
      EndedAt(c, items[..|items| - 1], size);
      var d := PutAllAt(c, items[..|items| - 1], size);
      match items[|items| - 1] {
        case Long(_) =>
        case Octets(s) =>
          OctetsOnWire(d, |s|, size);
          OctetsPut(d, |s|, size);
      }
    }
  }

  lemma {:induction false} OctetsOnWire(c: Cursors, len: nat, size: nat)
    requires Fit(c, size)
    ensures c.onWire <= c.ended ==> PutOctetsAt(c, len, size).onWire <= c.ended
    decreases len, c.finger == size
  {
    if len > 0 {
      var current := Min(len, size - c.finger);
      OctetsOnWire(Turn(c, current, size), len - current, size);
    }
  }

  /** Every record is counted when it is ended; a run whose last record is sent at once has all of them on the wire. */
  lemma {:induction false} RunCounts(records: seq<seq<Item>>, sendNow: seq<bool>, size: nat)
    requires |sendNow| == |records| && 8 < size
    ensures var d := RunAt(records, sendNow, size);
            && d.onWire <= d.ended == |records| && !d.fragSent
            && (records != [] && sendNow[|records| - 1] ==> d.onWire == |records|)
  {
    if records != [] {
      var k := |records| - 1;
      RunCounts(records[..k], sendNow[..k], size);
      EndedAt(RunAt(records[..k], sendNow[..k], size), records[k], size);
    }
  }

  /** Octets alone never push out an empty fragment, whatever their lengths. */
  lemma {:induction false} OctetsEmitNone(records: seq<seq<Item>>, sendNow: seq<bool>, size: nat)
    requires |sendNow| == |records| && 8 < size
    requires forall items <- records, i <- items :: i.Octets?
    ensures !EmitsEmpty(records, sendNow, size)
  {
    if records != [] {
      var k := |records| - 1;
      OctetsEmitNone(records[..k], sendNow[..k], size);
      OctetsKeep(RunAt(records[..k], sendNow[..k], size), records[k], size);
    }
  }

  lemma {:induction false} OctetsKeep(c: Cursors, items: seq<Item>, size: nat)
    requires Fit(c, size) && forall i <- items :: i.Octets?
    ensures PutAllAt(c, items, size).empty == c.empty
  {
    if items != [] {
      OctetsKeep(c, items[..|items| - 1], size);
      assert items[|items| - 1] in items;
      OctetsPut(PutAllAt(c, items[..|items| - 1], size), |items[|items| - 1].s|, size);
    }
  }

  /** XDR pads opaque data, so every put is a whole number of words. */
  predicate WholeWords(items: seq<Item>) {
    forall i <- items :: i.Octets? ==> OnWord(|i.s|)
  }

  predicate OnWords(c: Cursors) { OnWord(c.header) && OnWord(c.finger) }

  lemma WholeTurn(c: Cursors, len: nat, size: nat)
    requires Fit(c, size) && OnWords(c) && OnWord(len) && OnWord(size)
    ensures var current := Min(len, size - c.finger);
            OnWord(len - current) && OnWords(Turn(c, current, size))
  {
    var current := Min(len, size - c.finger);
    OnWordSum(size, c.finger);
    OnWordSum(len, current);
    OnWordSum(c.finger, current);
    hide OnWord;
  }

  lemma {:induction false} WholeOctets(c: Cursors, len: nat, size: nat)
    requires Fit(c, size) && OnWords(c) && OnWord(len) && OnWord(size)
    ensures OnWords(PutOctetsAt(c, len, size))
    decreases len, c.finger == size
  {
    if len > 0 {
      var current := Min(len, size - c.finger);
      WholeTurn(c, len, size);
      hide OnWords, Turn;
      WholeOctets(Turn(c, current, size), len - current, size);
    }
  }

  lemma {:induction false} WholeWordsKeep(c: Cursors, items: seq<Item>, size: nat)
    requires Fit(c, size) && OnWords(c) && WholeWords(items) && OnWord(size)
    ensures var d := PutAllAt(c, items, size); OnWords(d) && d.empty == c.empty
  {
    if items != [] {
      var k := |items| - 1;
      assert items[k] in items && WholeWords(items[..k]);
      WholeWordsKeep(c, items[..k], size);
      var d := PutAllAt(c, items[..k], size);
      assert items[k].Octets? ==> OnWord(|items[k].s|);
      hide PutOctetsAt, PutWordAt, OnWords, WholeWords;
      match items[k] {
        case Long(_) => WholeWord(d, size);
        case Octets(s) =>
          WholeOctets(d, |s|, size);
          OctetsPut(d, |s|, size);
      }
    }
  }

  lemma WholeWord(c: Cursors, size: nat)
    requires Fit(c, size) && OnWords(c) && OnWord(size)
    ensures OnWords(PutWordAt(c, size)) && PutWordAt(c, size).empty == c.empty
  {
    OnWordSum(c.finger, 4);
    OnWordSum(4, 4);
  }

  lemma WholeWordsEnd(c: Cursors, sendNow: bool, size: nat)
    requires Fit(c, size)
    ensures OnWords(c) ==> OnWords(EndAt(c, sendNow, size))
  {}

  /** Nor do puts of whole words, as XDR makes them. */
  lemma {:induction false} WholeWordsEmitNone(records: seq<seq<Item>>, sendNow: seq<bool>, size: nat)
    requires |sendNow| == |records| && 8 < size && OnWord(size)
    requires forall items <- records :: WholeWords(items)
    ensures OnWords(RunAt(records, sendNow, size)) && !EmitsEmpty(records, sendNow, size)
  {
    hide WholeWords;
    if records != [] {
      var k := |records| - 1;
      WholeWordsEmitNone(records[..k], sendNow[..k], size);
      hide OnWords, PutAllAt;
      WholeWordsEnd(PutAllAt(RunAt(records[..k], sendNow[..k], size), records[k], size), sendNow[k], size);
      WholeWordsKeep(RunAt(records[..k], sendNow[..k], size), records[k], size);
    }
  }
}
