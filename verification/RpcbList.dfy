/** The loop that codes an rpcbind list (rpcb_prot.c), in its three directions, over a memory stream. */
module RpcbList {
  import opened Bytes
  import opened RpcbCodec
  import opened XdrMem

  /** A list node in memory.  The strings are None where the pointer is null; address 0 is the null pointer. */
  datatype Cell = Cell(prog: word, vers: word, netid: Option<seq<byte>>, addr: Option<seq<byte>>,
                       owner: Option<seq<byte>>, next: nat)
  {
    predicate Full() { netid.Some? && addr.Some? && owner.Some? }

    /** The element a full node holds. */
    function Value(): Rpcb
      requires Full()
    {
      Rpcb(prog, vers, Texts(netid.value, addr.value, owner.value))
    }

    /** No string is too long for the codec, in particular to be freed. */
    predicate Releasable() { Fits(netid) && Fits(addr) && Fits(owner) }
  }

  predicate Fits(s: Option<seq<byte>>) { s.Some? ==> |Text(s.value)| <= MAX_DATA }

  /** strlen. */
  function StrLen(s: seq<byte>): (n: nat)
    ensures n <= |s|
    ensures (forall i | 0 <= i < n :: s[i] != 0) && (n < |s| ==> s[n] == 0)
  {
    if s == [] || s[0] == 0 then 0 else 1 + StrLen(s[1..])
  }

  /** What is sent of a string: up to its first zero, with a 32-bit length. */
  function Text(s: seq<byte>): seq<byte> { s[..StrLen(s) % TWO_32] }

  lemma TextIsWhole(s: seq<byte>)
    requires |s| < TWO_32
    ensures Text(s) == s <==> 0 !in s
  {
    assert StrLen(s) < |s| ==> |Text(s)| < |s| && s[StrLen(s)] == 0;
  }

  function Sent(v: Rpcb): Rpcb {
    Rpcb(v.prog, v.vers, Texts(Text(v.texts.netid), Text(v.texts.addr), Text(v.texts.owner)))
  }

  // ---- Memory ----------------------------------------------------------------------------------------

  type Cells = map<nat, Cell>

  /** The nodes in use.  An address is never given out twice. */
  class Memory {
    var cells: Cells
    var unused: nat

    ghost predicate Valid()
      reads this
    {
      unused > 0 && forall p <- cells :: 0 < p < unused
    }

    /** mem_alloc and memset. */
    method Alloc() returns (p: nat)
      requires Valid()
      modifies this
      ensures Valid() && p > 0 && p !in old(cells) && cells == old(cells)[p := ZERO]
    {
      p := unused;
      cells, unused := cells[p := ZERO], p + 1;
    }

    /** mem_free: never twice, never of anything else. */
    method Free(p: nat)
      requires Valid() && p in cells
      modifies this`cells
      ensures Valid() && cells == old(cells) - {p}
    {
      cells := cells - {p};
    }

    /** A store through a pointer. */
    method Store(p: nat, cell: Cell)
      requires Valid() && p in cells
      modifies this`cells
      ensures Valid() && cells == old(cells)[p := cell]
    {
      cells := cells[p := cell];
    }
  }

  const ZERO := Cell(0, 0, None, None, None, 0)

  function At(ps: seq<nat>, i: nat): nat { if i < |ps| then ps[i] else 0 }

  function Last(ps: seq<nat>): nat { if ps == [] then 0 else ps[|ps| - 1] }

  ghost predicate Follows(cells: Cells, ps: seq<nat>, i: nat)
    requires i < |ps|
  {
    ps[i] != 0 && ps[i] in cells && cells[ps[i]].next == At(ps, i + 1)
  }

  /** The list at `head` runs through the distinct nodes `ps`. */
  ghost predicate Chain(cells: Cells, head: nat, ps: seq<nat>) {
    && head == At(ps, 0)
    && (forall i: nat | i < |ps| :: Follows(cells, ps, i))
    && (forall i, j | 0 <= i < j < |ps| :: ps[i] != ps[j])
  }

  /** Its nodes hold the elements `list`. */
  ghost predicate Holds(cells: Cells, ps: seq<nat>, list: seq<Rpcb>) {
    |ps| == |list| && forall i | 0 <= i < |ps| :: Is(cells, ps[i], list[i])
  }

  ghost predicate Is(cells: Cells, p: nat, v: Rpcb) { p in cells && cells[p].Full() && cells[p].Value() == v }

  /** `ps` are the nodes of `now` that `was` does not have; the others are as they were. */
  ghost predicate Grown(was: Cells, now: Cells, ps: seq<nat>) {
    && (forall p :: p in now <==> p in was || p in ps)
    && (forall p <- was :: p !in ps && now[p] == was[p])
  }

  ghost predicate AllReleasable(cells: Cells, ps: seq<nat>) { forall p <- ps :: p in cells && cells[p].Releasable() }

  // ---- Decoding --------------------------------------------------------------------------------------

  /** xdr_string with a null pointer to fill. */
  method GetString(xs: MemStream) returns (ok: bool, s: Option<seq<byte>>)
    requires xs.Valid()
    modifies xs`pos, xs`handy
    ensures xs.Valid()
    ensures var r := ParseString(old(xs.Unread()));
            ok == r.Some? && ok == s.Some? && (ok ==> r.value == Parsed(s.value, xs.Unread()))
    ensures Fits(s)
  {
    ghost var all := xs.Unread();
    var data;
    ok, data := xs.DecodeBytes(MAX_DATA);
    s := if ok then Some(data) else None;
    hide FromBe32;
    assert ok ==> xs.Unread() == all[4 + RoundUp(|data|)..];
  }

  /** The strings up to the first that fails. */
  method GetTexts(xs: MemStream)
    returns (ok: bool, netid: Option<seq<byte>>, addr: Option<seq<byte>>, owner: Option<seq<byte>>)
    requires xs.Valid()
    modifies xs`pos, xs`handy
    ensures xs.Valid()
    ensures var r := ParseTexts(old(xs.Unread()));
            && ok == r.Some? == owner.Some?
            && (ok ==> netid.Some? && addr.Some?
                       && r.value == Parsed(Texts(netid.value, addr.value, owner.value), xs.Unread()))
    ensures Fits(netid) && Fits(addr) && Fits(owner)
  {
    hide ParseString;
    netid, addr, owner := None, None, None;
    ok, netid := GetString(xs);
    if !ok { return; }
    ok, addr := GetString(xs);
    if !ok { return; }
    ok, owner := GetString(xs);
  }

  method GetFields(xs: MemStream)
    returns (ok: bool, prog: word, vers: word, netid: Option<seq<byte>>, addr: Option<seq<byte>>,
             owner: Option<seq<byte>>)
    requires xs.Valid()
    modifies xs`pos, xs`handy
    ensures xs.Valid()
    ensures var r := ParseRpcb(old(xs.Unread()));
            && ok == r.Some? == owner.Some?
            && (ok ==> netid.Some? && addr.Some?
                       && r.value == Parsed(Rpcb(prog, vers, Texts(netid.value, addr.value, owner.value)), xs.Unread()))
    ensures Fits(netid) && Fits(addr) && Fits(owner)
  {
    hide ParseWord, ParseTexts;
    vers, netid, addr, owner := 0, None, None, None;
    ok, prog := xs.GetWord();
    if !ok { return; }
    ok, vers := xs.GetWord();
    if !ok { return; }
    ok, netid, addr, owner := GetTexts(xs);
  }

  /** A new node in the slot after the last one. */
  function Linked(cells: Cells, tail: nat, p: nat): Cells {
    var more := cells[p := ZERO];
    if tail in cells then more[tail := cells[tail].(next := p)] else more
  }

  /** The list is linked; nothing else has changed since `was`; every node can be freed. */
  ghost predicate Built(was: Cells, cells: Cells, head: nat, ps: seq<nat>) {
    Chain(cells, head, ps) && AllReleasable(cells, ps) && Grown(was, cells, ps)
  }

  lemma LastNode(cells: Cells, head: nat, ps: seq<nat>)
    requires Chain(cells, head, ps)
    ensures ps == [] <==> Last(ps) == 0
    ensures ps != [] ==> Last(ps) in cells && cells[Last(ps)].next == 0
  {
    if ps != [] { assert Follows(cells, ps, |ps| - 1); }
  }

  lemma LinkedNodes(cells: Cells, head: nat, ps: seq<nat>, p: nat)
    requires Chain(cells, head, ps) && 0 !in cells && p != 0 && p !in cells
    ensures Chain(Linked(cells, Last(ps), p), if ps == [] then p else head, ps + [p])
  {
    var now, longer := Linked(cells, Last(ps), p), ps + [p];
    forall i: nat | i < |longer| ensures Follows(now, longer, i) {
      assert i < |ps| ==> Follows(cells, ps, i);
    }
    forall i, j | 0 <= i < j < |longer| ensures longer[i] != longer[j] {
      assert Follows(cells, ps, i);
    }
  }

  lemma LinkedOthers(was: Cells, cells: Cells, ps: seq<nat>, tail: nat, p: nat)
    requires Grown(was, cells, ps) && AllReleasable(cells, ps) && p !in cells && (tail in cells ==> tail in ps)
    ensures Grown(was, Linked(cells, tail, p), ps + [p]) && AllReleasable(Linked(cells, tail, p), ps + [p])
  {
    var now, longer := Linked(cells, tail, p), ps + [p];
    assert forall q :: q in longer <==> q in ps || q == p;
    assert now.Keys == cells.Keys + {p};
  }

  lemma LinkedChain(was: Cells, cells: Cells, head: nat, ps: seq<nat>, done: seq<Rpcb>, p: nat)
    requires Built(was, cells, head, ps) && Holds(cells, ps, done)
    requires 0 !in cells && p != 0 && p !in cells
    ensures var now := Linked(cells, Last(ps), p);
            && Built(was, now, if ps == [] then p else head, ps + [p])
            && Holds(now, ps, done) && p in now && now[p] == ZERO
  {
    var now := Linked(cells, Last(ps), p);
    LinkedNodes(cells, head, ps, p);
    LastNode(cells, head, ps);
    LinkedOthers(was, cells, ps, Last(ps), p);
    hide Chain, Grown, AllReleasable;
    forall i | 0 <= i < |ps| ensures Is(now, ps[i], done[i]) { assert Is(cells, ps[i], done[i]); }
  }

  lemma FilledChain(was: Cells, cells: Cells, head: nat, ps: seq<nat>, done: seq<Rpcb>, p: nat, cell: Cell)
    requires Built(was, cells, head, ps + [p]) && Holds(cells, ps, done)
    requires p in cells && cell.Releasable() && cell.next == cells[p].next
    ensures var now := cells[p := cell];
            Built(was, now, head, ps + [p]) && (cell.Full() ==> Holds(now, ps + [p], done + [cell.Value()]))
  {
    var now, longer := cells[p := cell], ps + [p];
    assert longer[|ps|] == p && forall i | 0 <= i < |ps| :: longer[i] == ps[i];
    forall i: nat | i < |longer| ensures Follows(now, longer, i) { assert Follows(cells, longer, i); }
    if cell.Full() {
      forall i | 0 <= i < |longer| ensures Is(now, longer[i], (done + [cell.Value()])[i]) {
        if i < |ps| { assert Is(cells, ps[i], done[i]); }
      }
    }
  }

  /** A result of parsing, after the elements `done`. */
  function After(done: seq<Rpcb>, r: Option<Parsed<seq<Rpcb>>>): Option<Parsed<seq<Rpcb>>> {
    if r.None? then None else Some(Parsed(done + r.value.value, r.value.rest))
  }

  lemma AfterNone(r: Option<Parsed<seq<Rpcb>>>)
    ensures After([], r) == r
  {
    if r.Some? { assert [] + r.value.value == r.value.value; }
  }

  /** What the loop does to the rest of the input. */
  lemma OneTurn(s: seq<byte>, done: seq<Rpcb>)
    ensures ParseWord(s).None? ==> ParseList(s).None?
    ensures ParseWord(s).Some? ==>
              var more := ParseWord(s).value;
              if more.value == 0 then After(done, ParseList(s)) == Some(Parsed(done, more.rest))
              else if ParseRpcb(more.rest).None? then ParseList(s).None?
              else var first := ParseRpcb(more.rest).value;
                   After(done, ParseList(s)) == After(done + [first.value], ParseList(first.rest))
  {
    hide ParseWord, ParseRpcb;
    if ParseWord(s).Some? {
      var more := ParseWord(s).value;
      if more.value == 0 {
        assert done + [] == done;
      } else if ParseRpcb(more.rest).Some? {
        var first := ParseRpcb(more.rest).value;
        var others := ParseList(first.rest);
        if others.Some? { Assoc(done, [first.value], others.value.value); }
      }
    }
  }

  /** xdr_reference and xdr_rpcb while decoding into the null pointer after the last node. */
  method DecodeElement(xs: MemStream, mem: Memory, head: nat, tail: nat, ghost was: Cells, ghost ps: seq<nat>,
                       ghost done: seq<Rpcb>)
    returns (ok: bool, first: nat, p: nat)
    requires xs.Valid() && mem.Valid() && Built(was, mem.cells, head, ps) && Holds(mem.cells, ps, done)
             && tail == Last(ps)
    modifies xs`pos, xs`handy, mem
    ensures xs.Valid() && mem.Valid()
    ensures Built(was, mem.cells, first, ps + [p])
    ensures var r := ParseRpcb(old(xs.Unread()));
            ok == r.Some? && (ok ==> r.value.rest == xs.Unread() && Holds(mem.cells, ps + [p], done + [r.value.value]))
  {
    hide Chain, Holds, Grown, AllReleasable, ParseRpcb;
    ghost var cells := mem.cells;
    LastNode(cells, head, ps);
    p := mem.Alloc();
    first := head;
    if tail == 0 { first := p; } else { mem.Store(tail, mem.cells[tail].(next := p)); }
    LinkedChain(was, cells, head, ps, done, p);
    var prog, vers, netid, addr, owner;
    ok, prog, vers, netid, addr, owner := GetFields(xs);
    ghost var left := xs.Unread();
    var cell := Cell(prog, vers, netid, addr, owner, mem.cells[p].next);
    FilledChain(was, mem.cells, first, ps, done, p, cell);
    mem.Store(p, cell);
    assert xs.Unread() == left;
  }

  /** xdr_rpcblist_ptr while decoding into a null pointer.  What it allocates is in the list, also when it fails. */
  method Decode(xs: MemStream, mem: Memory) returns (ok: bool, head: nat, ghost ps: seq<nat>)
    requires xs.Valid() && mem.Valid()
    modifies xs`pos, xs`handy, mem
    ensures xs.Valid() && mem.Valid()
    ensures Built(old(mem.cells), mem.cells, head, ps)
    ensures var r := ParseList(old(xs.Unread()));
            ok == r.Some? && (ok ==> Holds(mem.cells, ps, r.value.value) && xs.Unread() == r.value.rest)
  {
    ghost var done, parsed := [], ParseList(xs.Unread());
    var tail := 0;
    head, ps := 0, [];
    AfterNone(parsed);
    assert Built(mem.cells, mem.cells, head, ps) && Holds(mem.cells, ps, done);
    hide Chain, Holds, Grown, AllReleasable, ParseRpcb, ParseList, ParseWord, Built;
    while true
      invariant xs.Valid() && mem.Valid() && tail == Last(ps)
      invariant Built(old(mem.cells), mem.cells, head, ps) && Holds(mem.cells, ps, done)
      invariant parsed == After(done, ParseList(xs.Unread()))
      decreases |xs.Unread()|
    {
      OneTurn(xs.Unread(), done);
      var more;
      ok, more := xs.GetWord();
      if !ok || more == 0 { return; }
      ghost var r := ParseRpcb(xs.Unread());
      ok, head, tail := DecodeElement(xs, mem, head, tail, old(mem.cells), ps, done);
      ps := ps + [tail];
      if !ok { return; }
      done := done + [r.value.value];
    }
  }

  // ---- Freeing ---------------------------------------------------------------------------------------

  function Elements(ps: seq<nat>): set<nat> { set p <- ps }

  /** How many nodes the loop frees: it stops after one with a string that is too long. */
  ghost function Freed(cells: Cells, ps: seq<nat>): (n: nat)
    ensures n <= |ps|
    ensures AllReleasable(cells, ps) ==> n == |ps|
    ensures forall i | 0 <= i < n - 1 :: ps[i] in cells ==> cells[ps[i]].Releasable()
    ensures n < |ps| ==> n > 0 && ps[n - 1] in cells && !cells[ps[n - 1]].Releasable()
  {
    if ps == [] then 0
    else if ps[0] in cells && !cells[ps[0]].Releasable() then 1
    else 1 + Freed(cells, ps[1..])
  }

  /** xdr_rpcb while freeing. */
  method FreeRpcb(mem: Memory, p: nat) returns (ok: bool)
    requires mem.Valid() && p in mem.cells
    modifies mem`cells
    ensures mem.Valid()
    ensures p in mem.cells && mem.cells == old(mem.cells)[p := mem.cells[p]]
            && mem.cells[p].next == old(mem.cells[p].next)
    ensures ok <==> old(mem.cells[p]).Releasable()
    ensures ok ==> mem.cells[p].netid == mem.cells[p].addr == mem.cells[p].owner == None
  {
    var cell := mem.cells[p];
    hide Text;
    if !Fits(cell.netid) { return false; }
    mem.Store(p, mem.cells[p].(netid := None));
    if !Fits(cell.addr) { return false; }
    mem.Store(p, mem.cells[p].(addr := None));
    if !Fits(cell.owner) { return false; }
    mem.Store(p, mem.cells[p].(owner := None));
    ok := true;
  }

  lemma FreeTurn(cells: Cells, head: nat, ps: seq<nat>, i: nat)
    requires Chain(cells, head, ps) && i < |ps|
    ensures ps[i] != 0 && ps[i] in cells && cells[ps[i]].next == At(ps, i + 1)
    ensures ps[i] !in Elements(ps[..i]) && Elements(ps[..i + 1]) == Elements(ps[..i]) + {ps[i]}
    ensures AllReleasable(cells, ps[..i + 1]) <==> AllReleasable(cells, ps[..i]) && cells[ps[i]].Releasable()
    ensures AllReleasable(cells, ps) ==> cells[ps[i]].Releasable()
    ensures Freed(cells, ps[i..]) == if cells[ps[i]].Releasable() then 1 + Freed(cells, ps[i + 1..]) else 1
  {
    assert Follows(cells, ps, i);
    assert ps[..i + 1] == ps[..i] + [ps[i]] && ps[i..] == [ps[i]] + ps[i + 1..];
  }

  /**
   * xdr_rpcblist_ptr while freeing: every node once, from the front, and none is read once it is freed.
   * A string that is too long ends the pass after its node, and the nodes behind it are lost.
   */
  method Free(mem: Memory, head: nat, ghost ps: seq<nat>) returns (ok: bool)
    requires mem.Valid() && Chain(mem.cells, head, ps)
    modifies mem`cells
    ensures mem.Valid()
    ensures ok <==> AllReleasable(old(mem.cells), ps)
    ensures mem.cells == old(mem.cells) - Elements(ps[..Freed(old(mem.cells), ps)])
  {
    var rp := head;
    ghost var i, cells := 0, mem.cells;
    assert Elements(ps[..0]) == {} && AllReleasable(cells, ps[..0]) && ps[0..] == ps && Freed(cells, []) == 0;
    assert rp == At(ps, 0);
    hide Elements, Freed, AllReleasable, Chain;
    while rp != 0
      invariant mem.Valid() && 0 <= i <= |ps| && rp == At(ps, i)
      invariant mem.cells == cells - Elements(ps[..i])
      invariant AllReleasable(cells, ps[..i])
      invariant Freed(cells, ps) == i + Freed(cells, ps[i..])
      decreases |ps| - i
    {
      FreeTurn(cells, head, ps, i);
      var next := mem.cells[rp].next;
      ok := FreeRpcb(mem, rp);
      mem.Free(rp);
      assert mem.cells == cells - Elements(ps[..i + 1]);
      i := i + 1;
      if !ok { return; }
      rp := next;
    }
    if i < |ps| { FreeTurn(cells, head, ps, i); }
    assert ps[..i] == ps && ps[i..] == [];
    ok := true;
  }

  lemma GrownBack(was: Cells, now: Cells, ps: seq<nat>)
    requires Grown(was, now, ps)
    ensures now - Elements(ps) == was
  {}

  /** Whatever the input, and whether or not it can be decoded, freeing the outcome leaves memory as it was. */
  method Discard(xs: MemStream, mem: Memory) returns (ok: bool)
    requires xs.Valid() && mem.Valid()
    modifies xs`pos, xs`handy, mem
    ensures ok && mem.cells == old(mem.cells)
  {
    var decoded, head;
    ghost var ps;
    hide ParseList, AllReleasable, Grown, Elements;
    decoded, head, ps := Decode(xs, mem);
    GrownBack(old(mem.cells), mem.cells, ps);
    assert ps[..|ps|] == ps;
    ok := Free(mem, head, ps);
  }

  // ---- Encoding --------------------------------------------------------------------------------------

  /** Null pointers and strings that are too long cannot be sent. */
  function EmitString(s: Option<seq<byte>>): Option<seq<byte>> {
    if s.Some? && Fits(s) then Some(StringBytes(Text(s.value))) else None
  }

  function EmitTexts(c: Cell): Option<seq<byte>> {
    Both(EmitString(c.netid), Both(EmitString(c.addr), EmitString(c.owner)))
  }

  function EmitRpcb(c: Cell): Option<seq<byte>> {
    Both(Some(Be32(c.prog)), Both(Some(Be32(c.vers)), EmitTexts(c)))
  }

  /** The bytes of a list in memory, if all of it can be sent. */
  ghost function Emit(cells: Cells, ps: seq<nat>): Option<seq<byte>> {
    if ps == [] then Some(Be32(0))
    else Both(Some(Be32(1)), Both(if ps[0] in cells then EmitRpcb(cells[ps[0]]) else None, Emit(cells, ps[1..])))
  }

  function SentList(list: seq<Rpcb>): (r: seq<Rpcb>)
    ensures |r| == |list| && forall i | 0 <= i < |r| :: r[i] == Sent(list[i])
  {
    seq(|list|, i requires 0 <= i < |list| => Sent(list[i]))
  }

  /** The bytes are those of the recursive definition. */
  lemma {:induction false} EmitsTheList(cells: Cells, ps: seq<nat>, list: seq<Rpcb>)
    requires Holds(cells, ps, list) && forall v <- list :: Sent(v).texts.Short()
    ensures forall v <- SentList(list) :: v.texts.Short()
    ensures Emit(cells, ps) == Some(ListBytes(SentList(list)))
  {
    if ps != [] {
      assert Is(cells, ps[0], list[0]);
      hide Text, RpcbBytes, Be32;
      forall i | 0 <= i < |ps| - 1
        ensures Is(cells, ps[1..][i], list[1..][i])
      {
        assert Is(cells, ps[i + 1], list[i + 1]);
      }
      EmitsTheList(cells, ps[1..], list[1..]);
      assert SentList(list)[1..] == SentList(list[1..]);
    }
  }

  predicate NoZero(v: Rpcb) { 0 !in v.texts.netid && 0 !in v.texts.addr && 0 !in v.texts.owner }

  predicate Sized(v: Rpcb) { |v.texts.netid| < TWO_32 && |v.texts.addr| < TWO_32 && |v.texts.owner| < TWO_32 }

  lemma SentIsWhole(v: Rpcb)
    requires Sized(v)
    ensures Sent(v) == v <==> NoZero(v)
  {
    TextIsWhole(v.texts.netid);
    TextIsWhole(v.texts.addr);
    TextIsWhole(v.texts.owner);
    hide Text;
  }

  lemma AllSentIsWhole(list: seq<Rpcb>)
    requires forall v <- list :: Sized(v)
    ensures SentList(list) == list <==> forall v <- list :: NoZero(v)
  {
    forall i | 0 <= i < |list| ensures SentList(list)[i] == list[i] <==> NoZero(list[i]) {
      SentIsWhole(list[i]);
    }
    hide Sent, NoZero, Sized;
    if SentList(list) == list {
      forall v <- list ensures NoZero(v) {
        var i :| 0 <= i < |list| && list[i] == v;
      }
    }
  }

  /** Decoding what was encoded restores the list, exactly when no string has a zero in it. */
  lemma Restored(cells: Cells, ps: seq<nat>, list: seq<Rpcb>, tail: seq<byte>)
    requires Holds(cells, ps, list) && forall v <- list :: Sent(v).texts.Short() && Sized(v)
    ensures Emit(cells, ps).Some?
    ensures ParseList(Emit(cells, ps).value + tail) == Some(Parsed(list, tail)) <==> forall v <- list :: NoZero(v)
  {
    EmitsTheList(cells, ps, list);
    ListRoundTrip(SentList(list), tail);
    AllSentIsWhole(list);
    hide Emit, ParseList, ListBytes, NoZero, Sized, Sent, SentList, Holds;
  }

  /** xdr_string while encoding. */
  method PutString(xs: MemStream, s: Option<seq<byte>>) returns (ok: bool)
    requires xs.Valid()
    modifies xs`pos, xs`handy, xs.buf
    ensures xs.Wrote(ok, EmitString(s))
  {
    if s == None { return false; }
    assert |Text(s.value)| < TWO_32;
    hide Be32, Text;
    ok := xs.EncodeBytes(Text(s.value), MAX_DATA);
  }

  method PutTwo(xs: MemStream, s: Option<seq<byte>>, t: Option<seq<byte>>) returns (ok: bool)
    requires xs.Valid()
    modifies xs`pos, xs`handy, xs.buf
    ensures xs.Wrote(ok, Both(EmitString(s), EmitString(t)))
  {
    hide EmitString;
    ghost var p0 := xs.pos;
    ok := PutString(xs, s);
    if !ok { return; }
    ghost var p1, m1 := xs.pos, xs.buf[..];
    ok := PutString(xs, t);
    if ok { Glue(m1, xs.buf[..], p0, p1, xs.pos); }
  }

  method PutTexts(xs: MemStream, c: Cell) returns (ok: bool)
    requires xs.Valid()
    modifies xs`pos, xs`handy, xs.buf
    ensures xs.Wrote(ok, EmitTexts(c))
  {
    hide EmitString;
    ghost var p0 := xs.pos;
    ok := PutString(xs, c.netid);
    if !ok { return; }
    ghost var p1, m1 := xs.pos, xs.buf[..];
    ok := PutTwo(xs, c.addr, c.owner);
    if ok { Glue(m1, xs.buf[..], p0, p1, xs.pos); }
  }

  method PutRpcb(xs: MemStream, c: Cell) returns (ok: bool)
    requires xs.Valid()
    modifies xs`pos, xs`handy, xs.buf
    ensures xs.Wrote(ok, EmitRpcb(c))
  {
    hide EmitTexts, Be32;
    ghost var p0 := xs.pos;
    ok := xs.PutLong(c.prog);
    if !ok { return; }
    ghost var p1, m1 := xs.pos, xs.buf[..];
    ok := xs.PutLong(c.vers);
    if !ok { return; }
    Glue(m1, xs.buf[..], p0, p1, xs.pos);
    ghost var p2, m2 := xs.pos, xs.buf[..];
    ok := PutTexts(xs, c);
    if !ok { return; }
    Glue(m2, xs.buf[..], p0, p2, xs.pos);
    Glue(m2, xs.buf[..], p1, p2, xs.pos);
  }

  /** What a turn of the loop writes for the pointer `rp`. */
  ghost function EmitTurn(cells: Cells, rp: nat): Option<seq<byte>>
    requires rp == 0 || rp in cells
  {
    if rp != 0 then Both(Some(Be32(1)), EmitRpcb(cells[rp])) else Some(Be32(0))
  }

  /** The bytes `done`, and then those of the rest of the list, are those of the list. */
  lemma EmitInTurns(cells: Cells, head: nat, ps: seq<nat>, i: nat, done: seq<byte>)
    requires Chain(cells, head, ps) && i <= |ps|
    ensures var rp := At(ps, i);
            && (rp == 0 <==> i == |ps|) && (rp != 0 ==> rp in cells && cells[rp].next == At(ps, i + 1))
            && var c := EmitTurn(cells, rp);
            Both(Some(done), Emit(cells, ps[i..]))
              == if c.None? then None
                 else if rp == 0 then Some(done + c.value)
                 else Both(Some(done + c.value), Emit(cells, ps[i + 1..]))
    ensures var c, all := EmitTurn(cells, At(ps, i)), Both(Some(done), Emit(cells, ps[i..]));
            all.Some? ==> c.Some? && |all.value| >= |done| + |c.value|
  {
    if i < |ps| {
      assert Follows(cells, ps, i);
      assert ps[i..][1..] == ps[i + 1..] && ps[i..][0] == ps[i];
      hide EmitRpcb, Be32;
      var c, others := EmitRpcb(cells[ps[i]]), Emit(cells, ps[i + 1..]);
      if c.Some? && others.Some? {
        Assoc(Be32(1), c.value, others.value);
        Assoc(done, Be32(1) + c.value, others.value);
      }
    }
  }

  /** The boolean, and the element if there is one. */
  method PutElement(xs: MemStream, mem: Memory, rp: nat) returns (ok: bool)
    requires xs.Valid() && (rp == 0 || rp in mem.cells)
    modifies xs`pos, xs`handy, xs.buf
    ensures xs.Wrote(ok, EmitTurn(mem.cells, rp))
  {
    hide EmitRpcb, Be32;
    ghost var p0 := xs.pos;
    var more := rp != 0;
    ok := xs.PutLong(if more then 1 else 0);
    if !ok || !more { return; }
    ghost var p1, m1 := xs.pos, xs.buf[..];
    ok := PutRpcb(xs, mem.cells[rp]);
    if ok { Glue(m1, xs.buf[..], p0, p1, xs.pos); }
  }

  /** The same, as part of what has been written from `p0` on. */
  method PutMore(xs: MemStream, mem: Memory, rp: nat, ghost p0: nat) returns (ok: bool)
    requires xs.Valid() && (rp == 0 || rp in mem.cells) && p0 <= xs.pos
    modifies xs`pos, xs`handy, xs.buf
    ensures xs.Valid() && xs.buf[..p0] == old(xs.buf[..p0])
    ensures var c := EmitTurn(mem.cells, rp);
            && (ok <==> c.Some? && |c.value| <= old(xs.handy))
            && (ok ==> xs.Moved(|c.value|) && xs.buf[p0..xs.pos] == old(xs.buf[p0..xs.pos]) + c.value)
  {
    hide EmitTurn;
    ghost var p1, m1 := xs.pos, xs.buf[..];
    ok := PutElement(xs, mem, rp);
    Glue(m1, xs.buf[..], p0, p1, if ok then xs.pos else p1);
  }

  /** xdr_rpcblist_ptr while encoding. */
  method Encode(xs: MemStream, mem: Memory, head: nat, ghost ps: seq<nat>) returns (ok: bool)
    requires xs.Valid() && mem.Valid() && Chain(mem.cells, head, ps)
    modifies xs`pos, xs`handy, xs.buf
    ensures xs.Wrote(ok, Emit(mem.cells, ps))
  {
    ghost var p0, i, done := xs.pos, 0, [];
    ghost var all := Emit(mem.cells, ps);
    var rp := head;
    assert ps[0..] == ps && rp == At(ps, 0);
    assert Both(Some([]), all) == all by { if all.Some? { assert [] + all.value == all.value; } }
    hide Emit, EmitTurn, Chain, Both;
    while true
      invariant xs.Valid() && xs.pos == p0 + |done| && xs.handy + |done| == old(xs.handy)
      invariant xs.buf[..p0] == old(xs.buf[..p0]) && xs.buf[p0..xs.pos] == done
      invariant 0 <= i <= |ps| && rp == At(ps, i)
      invariant all == Both(Some(done), Emit(mem.cells, ps[i..]))
      decreases |ps| - i
    {
      EmitInTurns(mem.cells, head, ps, i, done);
      ghost var piece := EmitTurn(mem.cells, rp);
      ok := PutMore(xs, mem, rp, p0);
      if !ok { return; }
      done := done + piece.value;
      if rp == 0 { return; }
      rp, i := mem.cells[rp].next, i + 1;
    }
  }
}
