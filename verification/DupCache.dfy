/**
 * The duplicate-request cache of a datagram transport: replies kept in a hash table whose chains run
 * over the same nodes as a ring of victims, so that a repeated request is answered, not executed.
 */
module DupCache {
  import opened Bytes

  const SPARSENESS := 4

  /** What identifies a request. */
  datatype Key = Key(xid: word, proc: word, vers: word, prog: word, addr: seq<byte>)

  datatype Entry = Entry(key: Key, reply: seq<byte>)

  class CacheNode {
    var xid: word
    var proc: word
    var vers: word
    var prog: word
    var addr: seq<byte>
    var reply: array<byte>
    var replyLen: nat
    var next: CacheNode?

    constructor (buf: array<byte>)
      ensures reply == buf && next == null
    {
      xid, proc, vers, prog, addr := 0, 0, 0, 0, [];
      reply, replyLen, next := buf, 0, null;
    }

    ghost predicate Holds(e: Entry, buf: array<byte>)
      reads `xid, `proc, `vers, `prog, `addr, `reply, `replyLen, buf
    {
      && Key(xid, proc, vers, prog, addr) == e.key
      && reply == buf && replyLen == |e.reply| <= buf.Length && buf[..replyLen] == e.reply
    }
  }

  /** A cached reply: its node, the buffer the node owns, and what they hold. */
  datatype Slot = Slot(node: CacheNode, buf: array<byte>, entry: Entry)

  /** CACHE_LOC for a table of `h` chains. */
  function Loc(xid: word, h: nat): nat
    requires h > 0
  {
    xid % h
  }

  // ---- chains as a function of the slots, oldest first ---------------------------------------------

  /** The chain at `b`: the slots that hash there, newest first. */
  ghost function Chain(aged: seq<Slot>, h: nat, b: nat): seq<Slot>
    requires h > 0
  {
    if aged == [] then []
    else
      var front := Chain(aged[..|aged| - 1], h, b);
      var s := aged[|aged| - 1];
      if Loc(s.entry.key.xid, h) == b then [s] + front else front
  }

  lemma ChainOfNewest(aged: seq<Slot>, s: Slot, h: nat, b: nat)
    requires h > 0
    ensures Chain(aged + [s], h, b) ==
            if Loc(s.entry.key.xid, h) == b then [s] + Chain(aged, h, b) else Chain(aged, h, b)
  {
    assert (aged + [s])[..|aged|] == aged;
  }

  /** The oldest slot is the last of its chain. */
  lemma {:induction false} ChainOfOldest(aged: seq<Slot>, h: nat, b: nat)
    requires h > 0 && aged != []
    ensures Chain(aged, h, b) ==
            Chain(aged[1..], h, b) + if Loc(aged[0].entry.key.xid, h) == b then [aged[0]] else []
  {
    var front := aged[..|aged| - 1];
    if |aged| > 1 {
      ChainOfOldest(front, h, b);
      assert aged[1..][..|aged| - 2] == front[1..];
    } else {
      assert front == [] && aged[1..] == [];
    }
  }

  lemma {:induction false} ChainMembers(aged: seq<Slot>, h: nat, b: nat, s: Slot)
    requires h > 0
    ensures s in Chain(aged, h, b) <==> s in aged && Loc(s.entry.key.xid, h) == b
  {
    if aged != [] {
      ChainMembers(aged[..|aged| - 1], h, b, s);
      assert aged == aged[..|aged| - 1] + [aged[|aged| - 1]];
    }
  }

  ghost predicate DistinctNodes(aged: seq<Slot>) {
    forall i, j | 0 <= i < j < |aged| :: aged[i].node != aged[j].node
  }

  lemma {:induction false} ChainDistinct(aged: seq<Slot>, h: nat, b: nat)
    requires h > 0 && DistinctNodes(aged)
    ensures DistinctNodes(Chain(aged, h, b))
  {
    if aged != [] {
      var front := aged[..|aged| - 1];
      ChainDistinct(front, h, b);
      var c := Chain(front, h, b);
      forall k | 0 <= k < |c| ensures c[k].node != aged[|aged| - 1].node {
        ChainMembers(front, h, b, c[k]);
      }
    }
  }

  // ---- what a lookup finds -----------------------------------------------------------------------------

  /** The newest slot of a key. */
  ghost function Newest(aged: seq<Slot>, key: Key): Option<Slot> {
    if aged == [] then None
    else if aged[|aged| - 1].entry.key == key then Some(aged[|aged| - 1])
    else Newest(aged[..|aged| - 1], key)
  }

  ghost function FirstMatch(chain: seq<Slot>, key: Key): Option<Slot> {
    if chain == [] then None else if chain[0].entry.key == key then Some(chain[0]) else FirstMatch(chain[1..], key)
  }

  /** Searching one chain from its head finds what searching everything from the newest would. */
  lemma {:induction false} ChainSearch(aged: seq<Slot>, h: nat, key: Key)
    requires h > 0
    ensures FirstMatch(Chain(aged, h, Loc(key.xid, h)), key) == Newest(aged, key)
  {
    if aged != [] {
      var b := Loc(key.xid, h);
      var front := Chain(aged[..|aged| - 1], h, b);
      ChainSearch(aged[..|aged| - 1], h, key);
      assert ([aged[|aged| - 1]] + front)[1..] == front;
    }
  }

  /** The newest reply to a request among `entries`. */
  function Lookup(entries: seq<Entry>, key: Key): Option<seq<byte>> {
    if entries == [] then None
    else if entries[|entries| - 1].key == key then Some(entries[|entries| - 1].reply)
    else Lookup(entries[..|entries| - 1], key)
  }

  /** The last `size` entries, or all of them. */
  function Recent(log: seq<Entry>, size: nat): seq<Entry> {
    if |log| <= size then log else log[|log| - size..]
  }

  lemma {:induction false} LookupFinds(entries: seq<Entry>, key: Key)
    ensures Lookup(entries, key).None? <==> forall i | 0 <= i < |entries| :: entries[i].key != key
  {
    if entries != [] {
      LookupFinds(entries[..|entries| - 1], key);
    }
  }

  /** The slots hold these entries, in this order. */
  ghost predicate Mirrors(a: seq<Slot>, es: seq<Entry>) {
    |a| == |es| && forall i | 0 <= i < |a| :: a[i].entry == es[i]
  }

  lemma {:induction false} NewestIsLookup(aged: seq<Slot>, entries: seq<Entry>, key: Key)
    requires Mirrors(aged, entries)
    ensures Lookup(entries, key) == match Newest(aged, key) case None => None case Some(s) => Some(s.entry.reply)
    ensures Newest(aged, key).Some? ==> Newest(aged, key).value in aged && Newest(aged, key).value.entry.key == key
  {
    if aged != [] {
      NewestIsLookup(aged[..|aged| - 1], entries[..|aged| - 1], key);
      assert aged == aged[..|aged| - 1] + [aged[|aged| - 1]];
    }
  }

  // ---- links, apart from the heap they are in -----------------------------------------------------

  type Links = map<CacheNode, CacheNode?>

  /** The nodes of `c` are linked in this order from `head`. */
  ghost predicate Linked(head: CacheNode?, c: seq<Slot>, next: Links) {
    && head == (if c == [] then null else c[0].node)
    && forall k | 0 <= k < |c| :: LinkAt(c, k, next)
  }

  ghost predicate LinkAt(c: seq<Slot>, k: nat, next: Links)
    requires k < |c|
  {
    c[k].node in next && next[c[k].node] == if k + 1 < |c| then c[k + 1].node else null
  }

  /** Every chain of the table links the slots of `a` that hash there, and nothing else. */
  ghost predicate AllLinked(heads: seq<CacheNode?>, a: seq<Slot>, next: Links)
    requires heads != []
  {
    forall b | 0 <= b < |heads| :: Linked(heads[b], Chain(a, |heads|, b), next)
  }

  lemma NodeDeterminesSlot(aged: seq<Slot>, s: Slot, t: Slot)
    requires DistinctNodes(aged) && s in aged && t in aged
    ensures s.node == t.node ==> s == t
  {}

  lemma LastDropped(head: CacheNode?, c: seq<Slot>, next: Links)
    requires Linked(head, c, next) && DistinctNodes(c) && |c| > 1
    ensures Linked(head, c[..|c| - 1], next[c[|c| - 2].node := null])
  {
    var d := c[..|c| - 1];
    var now := next[c[|c| - 2].node := null];
    forall k | 0 <= k < |d|
      ensures LinkAt(d, k, now)
    {
      assert LinkAt(c, k, next);
      assert k < |c| - 2 ==> c[k].node != c[|c| - 2].node;
    }
  }

  lemma OtherNodeRelinked(head: CacheNode?, c: seq<Slot>, next: Links, n: CacheNode, to: CacheNode?)
    requires Linked(head, c, next)
    requires forall k | 0 <= k < |c| :: c[k].node != n
    ensures Linked(head, c, next[n := to])
  {
    var now := next[n := to];
    forall k | 0 <= k < |c|
      ensures LinkAt(c, k, now)
    {
      assert LinkAt(c, k, next);
    }
  }

  /** Taking the oldest slot out of its chain, at whose end it stands. */
  lemma OldestUnlinked(heads: seq<CacheNode?>, a: seq<Slot>, next: Links)
    requires heads != [] && a != [] && AllLinked(heads, a, next) && DistinctNodes(a)
    ensures var loc := Loc(a[0].entry.key.xid, |heads|);
            var c := Chain(a, |heads|, loc);
            && c != [] && c[|c| - 1] == a[0]
            && (|c| == 1 ==> AllLinked(heads[loc := null], a[1..], next))
            && (|c| > 1 ==> AllLinked(heads, a[1..], next[c[|c| - 2].node := null]))
  {
    hide Chain, Linked;
    var h := |heads|;
    var loc := Loc(a[0].entry.key.xid, h);
    var c := Chain(a, h, loc);
    ChainOfOldest(a, h, loc);
    ChainDistinct(a, h, loc);
    assert c[..|c| - 1] == Chain(a[1..], h, loc);
    forall b | 0 <= b < h
      ensures |c| == 1 ==> Linked(heads[loc := null][b], Chain(a[1..], h, b), next)
      ensures |c| > 1 ==> Linked(heads[b], Chain(a[1..], h, b), next[c[|c| - 2].node := null])
    {
      assert Linked(heads[b], Chain(a, h, b), next);
      ChainOfOldest(a, h, b);
      if b != loc {
        assert Chain(a, h, b) == Chain(a[1..], h, b);
        if |c| > 1 {
          OtherChainLacks(a, h, b, c[|c| - 2], loc);
          OtherNodeRelinked(heads[b], Chain(a, h, b), next, c[|c| - 2].node, null);
        }
      } else if |c| > 1 {
        LastDropped(heads[b], c, next);
      } else {
        EmptyLinked(next);
      }
    }
  }

  lemma EmptyLinked(next: Links)
    ensures Linked(null, [], next)
  {}

  lemma OtherChainLacks(a: seq<Slot>, h: nat, b: nat, s: Slot, loc: nat)
    requires h > 0 && DistinctNodes(a) && b != loc && s in Chain(a, h, loc)
    ensures forall k | 0 <= k < |Chain(a, h, b)| :: Chain(a, h, b)[k].node != s.node
  {
    ChainMembers(a, h, loc, s);
    forall k | 0 <= k < |Chain(a, h, b)| ensures Chain(a, h, b)[k].node != s.node {
      ChainMembers(a, h, b, Chain(a, h, b)[k]);
      NodeDeterminesSlot(a, s, Chain(a, h, b)[k]);
    }
  }

  lemma SlotOwns(a: seq<Slot>, s: Slot)
    requires s in a
    ensures s.node in Nodes(a) && s.buf in Buffers(a)
  {}

  lemma OldestDropped(a: seq<Slot>)
    requires DistinctNodes(a) && DistinctBuffers(a) && a != []
    ensures DistinctNodes(a[1..]) && DistinctBuffers(a[1..])
    ensures Nodes(a[1..]) <= Nodes(a) && Buffers(a[1..]) <= Buffers(a)
    ensures a[0].node in Nodes(a) && a[0].node !in Nodes(a[1..])
    ensures a[0].buf in Buffers(a) && a[0].buf !in Buffers(a[1..])
  {}

  lemma DistinctSnoc(a: seq<Slot>, s: Slot)
    requires DistinctNodes(a) && DistinctBuffers(a) && s.node !in Nodes(a) && s.buf !in Buffers(a)
    ensures DistinctNodes(a + [s]) && DistinctBuffers(a + [s])
    ensures Nodes(a + [s]) == Nodes(a) + {s.node} && Buffers(a + [s]) == Buffers(a) + {s.buf}
  {
    var g := a + [s];
    assert forall t <- g :: t in a || t == s;
    assert forall t <- a :: t in g;
    assert s in g;
  }

  /** Only the links of the slots' own nodes matter. */
  lemma LinksAgree(heads: seq<CacheNode?>, a: seq<Slot>, next: Links, other: Links)
    requires heads != [] && AllLinked(heads, a, next)
    requires forall s <- a :: s.node in other && (s.node in next ==> other[s.node] == next[s.node])
    ensures AllLinked(heads, a, other)
  {
    forall b | 0 <= b < |heads| ensures Linked(heads[b], Chain(a, |heads|, b), other) {
      var c := Chain(a, |heads|, b);
      assert Linked(heads[b], c, next);
      forall k | 0 <= k < |c| ensures LinkAt(c, k, other) {
        ChainMembers(a, |heads|, b, c[k]);
        assert LinkAt(c, k, next);
      }
    }
  }

  /** Pushing a new slot in front of its chain. */
  lemma NewestLinked(heads: seq<CacheNode?>, a: seq<Slot>, next: Links, s: Slot)
    requires heads != [] && AllLinked(heads, a, next) && s.node !in Nodes(a)
    ensures var loc := Loc(s.entry.key.xid, |heads|);
            AllLinked(heads[loc := s.node], a + [s], next[s.node := heads[loc]])
  {
    hide Chain, Linked;
    var h := |heads|;
    var loc := Loc(s.entry.key.xid, h);
    forall b | 0 <= b < h
      ensures Linked(heads[loc := s.node][b], Chain(a + [s], h, b), next[s.node := heads[loc]])
    {
      var c := Chain(a, h, b);
      assert Linked(heads[b], c, next);
      ChainOfNewest(a, s, h, b);
      forall k | 0 <= k < |c| ensures c[k].node != s.node {
        ChainMembers(a, h, b, c[k]);
        assert c[k].node in Nodes(a);
      }
      OtherNodeRelinked(heads[b], c, next, s.node, heads[loc]);
      if b == loc {
        Pushed(heads[b], c, next[s.node := heads[loc]], s);
      }
    }
  }

  lemma Pushed(head: CacheNode?, c: seq<Slot>, next: Links, s: Slot)
    requires Linked(head, c, next) && s.node in next && next[s.node] == head
    ensures Linked(s.node, [s] + c, next)
  {
    var d := [s] + c;
    forall k | 0 <= k < |d| ensures LinkAt(d, k, next) {
      assert k > 0 ==> LinkAt(c, k - 1, next);
    }
  }

  ghost function Nodes(aged: seq<Slot>): set<CacheNode> {
    set s <- aged :: s.node
  }

  ghost function Buffers(aged: seq<Slot>): set<array<byte>> {
    set s <- aged :: s.buf
  }

  ghost predicate DistinctBuffers(aged: seq<Slot>) {
    forall i, j | 0 <= i < j < |aged| :: aged[i].buf != aged[j].buf
  }

  // ---- the transport ---------------------------------------------------------------------------------

  /** Where the ring keeps the slot of age `j`. */
  function RingIndex(start: nat, j: nat, size: nat): int {
    if start + j < size then start + j else start + j - size
  }

  /** The ring holds the slots in order of age, starting with the next victim once it is full. */
  ghost predicate Ring(f: seq<CacheNode?>, a: seq<Slot>, nv: nat) {
    && |a| <= |f| && nv < |f|
    && (|a| < |f| ==> nv == |a|)
    && (forall j | 0 <= j < |a| :: RingAt(f, a, nv, j))
    && (forall i | |a| <= i < |f| :: f[i] == null)
  }

  ghost predicate RingAt(f: seq<CacheNode?>, a: seq<Slot>, nv: nat, j: nat)
    requires |a| <= |f| && nv < |f| && j < |a|
  {
    f[RingIndex(if |a| < |f| then 0 else nv, j, |f|)] == a[j].node
  }

  /** The slots left when room is made for one more. */
  ghost function Remaining(f: seq<CacheNode?>, a: seq<Slot>): seq<Slot>
    requires |a| <= |f| && f != []
  {
    if |a| == |f| then a[1..] else a
  }

  lemma NextIndex(i: nat, n: nat)
    requires i < n
    ensures (i + 1) % n == if i + 1 == n then 0 else i + 1
  {}

  lemma RingAdvances(f: seq<CacheNode?>, a: seq<Slot>, nv: nat, s: Slot)
    requires Ring(f, a, nv)
    ensures Ring(f[nv := s.node], Remaining(f, a) + [s], (nv + 1) % |f|)
  {
    NextIndex(nv, |f|);
    hide Ring, Remaining;
    RingMoves(f, a, nv, s, if nv + 1 == |f| then 0 else nv + 1);
  }

  lemma RingMoves(f: seq<CacheNode?>, a: seq<Slot>, nv: nat, s: Slot, nw: nat)
    requires Ring(f, a, nv) && nw == if nv + 1 == |f| then 0 else nv + 1
    ensures Ring(f[nv := s.node], Remaining(f, a) + [s], nw)
  {
    var n := |f|;
    var b := Remaining(f, a) + [s];
    var g := f[nv := s.node];
    forall j | 0 <= j < |b| ensures RingAt(g, b, nw, j) {
      if |a| == n {
        if j + 1 < n {
          assert RingAt(f, a, nv, j + 1);
        }
      } else if j < |a| {
        assert RingAt(f, a, nv, j);
      }
    }
  }

  lemma RingVictim(f: seq<CacheNode?>, a: seq<Slot>, nv: nat)
    requires Ring(f, a, nv)
    ensures |a| <= |f| && (f[nv] == null <==> |a| < |f|)
    ensures f[nv] != null ==> a != [] && f[nv] == a[0].node
  {
    if |a| == |f| {
      assert RingAt(f, a, nv, 0);
    }
  }

  lemma MirrorsGrows(f: seq<CacheNode?>, a: seq<Slot>, log: seq<Entry>, s: Slot)
    requires f != [] && |a| <= |f| && Mirrors(a, Recent(log, |f|))
    ensures Mirrors(Remaining(f, a) + [s], Recent(log + [s.entry], |f|))
  {}

  /** A request given to the dispatcher when `at` replies had been cached. */
  datatype Dispatch = Dispatch(key: Key, at: nat)

  datatype Datagram = Datagram(octets: seq<byte>, addr: seq<byte>)

  /** What svc_dg_recv keeps of a decoded call. */
  datatype Request = Request(xid: word, proc: word, vers: word, prog: word)

  function KeyOf(msg: Request, addr: seq<byte>): Key { Key(msg.xid, msg.proc, msg.vers, msg.prog, addr) }

  /** Two requests are the same one exactly when they agree in everything and come from the same address. */
  lemma KeysTellApart(m: Request, a: seq<byte>, n: Request, b: seq<byte>)
    ensures KeyOf(m, a) == KeyOf(n, b) <==>
            m.xid == n.xid && m.proc == n.proc && m.vers == n.vers && m.prog == n.prog && a == b
  {}

  /** The i-th reply ever cached is one to this request. */
  predicate Answers(log: seq<Entry>, i: nat, msg: Request, addr: seq<byte>)
    requires i < |log|
  {
    var k := log[i].key;
    k.xid == msg.xid && k.proc == msg.proc && k.vers == msg.vers && k.prog == msg.prog && k.addr == addr
  }

  /** It is among the last `size` replies cached, and no later one is to this request. */
  predicate AnswersLast(log: seq<Entry>, size: nat, i: nat, msg: Request, addr: seq<byte>)
    requires i < |log|
  {
    Answers(log, i, msg, addr) && |log| - i <= size && forall j | i < j < |log| :: !Answers(log, j, msg, addr)
  }

  /** A lookup finds the last reply to the request, if it is among the last `size` cached. */
  lemma {:induction false} LookupIsLast(entries: seq<Entry>, key: Key)
    ensures Lookup(entries, key).Some? ==>
              exists i | 0 <= i < |entries| :: IsLast(entries, key, i) && entries[i].reply == Lookup(entries, key).value
    ensures forall i | 0 <= i < |entries| && IsLast(entries, key, i) :: Lookup(entries, key) == Some(entries[i].reply)
  {
    if entries != [] {
      var k := |entries| - 1;
      var front := entries[..k];
      LookupIsLast(front, key);
      forall i | 0 <= i < k ensures IsLast(entries, key, i) <==> IsLast(front, key, i) && entries[k].key != key {
        if IsLast(front, key, i) && entries[k].key != key {
          forall j | i < j < |entries| ensures entries[j].key != key { if j < k { assert front[j] == entries[j]; } }
        }
        if IsLast(entries, key, i) {
          forall j | i < j < k ensures front[j].key != key { assert front[j] == entries[j]; }
        }
      }
      if entries[k].key == key { assert IsLast(entries, key, k); }
    }
  }

  ghost predicate IsLast(entries: seq<Entry>, key: Key, i: nat)
    requires i < |entries|
  {
    entries[i].key == key && forall j | i < j < |entries| :: entries[j].key != key
  }

  lemma InRecent(log: seq<Entry>, size: nat, i: nat)
    requires i < |log|
    ensures var recent := Recent(log, size);
            var skipped := |log| - |recent|;
            && (|log| - i <= size <==> i >= skipped)
            && (i >= skipped ==> recent[i - skipped] == log[i])
  {}

  lemma LastOfRecent(log: seq<Entry>, size: nat, key: Key, i: nat)
    requires i < |log| && |log| - i <= size
    ensures var recent := Recent(log, size);
            var k := i - (|log| - |recent|);
            0 <= k < |recent| && (IsLast(recent, key, k) <==> IsLast(log, key, i))
  {
    var recent := Recent(log, size);
    var skipped := |log| - |recent|;
    InRecent(log, size, i);
    forall j | i <= j < |log| ensures log[j] == recent[j - skipped] { InRecent(log, size, j); }
    hide Recent;
    if IsLast(log, key, i) {
      forall j | i - skipped < j < |recent| ensures recent[j].key != key { assert recent[j] == log[j + skipped]; }
    }
  }

  lemma AnswersAre(log: seq<Entry>, size: nat, msg: Request, addr: seq<byte>, i: nat)
    requires i < |log|
    ensures Answers(log, i, msg, addr) <==> log[i].key == KeyOf(msg, addr)
    ensures AnswersLast(log, size, i, msg, addr) <==> |log| - i <= size && IsLast(log, KeyOf(msg, addr), i)
  {
    assert forall j | 0 <= j < |log| :: Answers(log, j, msg, addr) <==> log[j].key == KeyOf(msg, addr);
  }

  lemma NotAnswered(log: seq<Entry>, size: nat, msg: Request, addr: seq<byte>)
    ensures Lookup(Recent(log, size), KeyOf(msg, addr)).None? <==>
            forall i | 0 <= i < |log| && |log| - i <= size :: !Answers(log, i, msg, addr)
  {
    var recent, key := Recent(log, size), KeyOf(msg, addr);
    var skipped := |log| - |recent|;
    LookupFinds(recent, key);
    forall i | 0 <= i < |log| && |log| - i <= size
      ensures i >= skipped && (recent[i - skipped].key == key <==> Answers(log, i, msg, addr))
    {
      AnswersAre(log, size, msg, addr, i);
      InRecent(log, size, i);
    }
    forall k | 0 <= k < |recent|
      ensures |log| - (k + skipped) <= size && (recent[k].key == key <==> Answers(log, k + skipped, msg, addr))
    {
      AnswersAre(log, size, msg, addr, k + skipped);
      InRecent(log, size, k + skipped);
    }
    hide Answers, Recent, KeyOf, Lookup;
  }

  lemma AnsweredByLast(log: seq<Entry>, size: nat, msg: Request, addr: seq<byte>, i: nat)
    requires i < |log| && AnswersLast(log, size, i, msg, addr)
    ensures Lookup(Recent(log, size), KeyOf(msg, addr)) == Some(log[i].reply)
  {
    var recent, key := Recent(log, size), KeyOf(msg, addr);
    AnswersAre(log, size, msg, addr, i);
    LastOfRecent(log, size, key, i);
    InRecent(log, size, i);
    hide Answers, AnswersLast, IsLast, Recent, KeyOf, Lookup;
    LookupIsLast(recent, key);
  }

  lemma AnsweredFromLog(log: seq<Entry>, size: nat, msg: Request, addr: seq<byte>) returns (i: nat)
    requires Lookup(Recent(log, size), KeyOf(msg, addr)).Some?
    ensures i < |log| && AnswersLast(log, size, i, msg, addr)
    ensures Lookup(Recent(log, size), KeyOf(msg, addr)) == Some(log[i].reply)
  {
    var recent, key := Recent(log, size), KeyOf(msg, addr);
    LookupIsLast(recent, key);
    var k: nat :| k < |recent| && IsLast(recent, key, k) && recent[k].reply == Lookup(recent, key).value;
    i := k + (|log| - |recent|);
    InRecent(log, size, i);
    hide Answers, AnswersLast, IsLast, Recent, KeyOf, Lookup;
    LastOfRecent(log, size, key, i);
    AnswersAre(log, size, msg, addr, i);
  }

  /**
   * A request is dispatched with nothing sent, if none of the last `size` replies cached is to it; otherwise the last
   * reply to it is sent again, to where the request came from.
   */
  ghost predicate Treated(log: seq<Entry>, size: nat, msg: Request, addr: seq<byte>, dispatch: bool,
                          before: seq<Datagram>, after: seq<Datagram>)
  {
    if dispatch then (forall i | 0 <= i < |log| && |log| - i <= size :: !Answers(log, i, msg, addr)) && after == before
    else exists i | 0 <= i < |log| ::
           AnswersLast(log, size, i, msg, addr) && after == before + [Datagram(log[i].reply, addr)]
  }

  lemma TreatedFromLog(log: seq<Entry>, size: nat, msg: Request, addr: seq<byte>,
                       before: seq<Datagram>, after: seq<Datagram>)
    requires var r := Lookup(Recent(log, size), KeyOf(msg, addr));
             after == if r.None? then before else before + [Datagram(r.value, addr)]
    ensures Treated(log, size, msg, addr, Lookup(Recent(log, size), KeyOf(msg, addr)).None?, before, after)
  {
    hide Answers, AnswersLast, Lookup, Recent, KeyOf;
    NotAnswered(log, size, msg, addr);
    if Lookup(Recent(log, size), KeyOf(msg, addr)).Some? {
      var i := AnsweredFromLog(log, size, msg, addr);
    }
  }

  /** A request not found among the recent replies had its last reply pushed out by `size` others. */
  lemma MissMeansOld(log: seq<Entry>, size: nat, key: Key)
    requires Lookup(Recent(log, size), key).None?
    ensures forall i | 0 <= i < |log| && log[i].key == key :: |log| - (i + 1) >= size
  {
    var r := Recent(log, size);
    LookupFinds(r, key);
    var skipped := |log| - |r|;
    assert forall j | 0 <= j < |r| :: r[j] == log[skipped + j];
    assert forall i | skipped <= i < |log| :: log[i] == r[i - skipped];
  }

  class Transport {
    const size: nat
    const iosz: nat
    const entries: array<CacheNode?>
    const fifo: array<CacheNode?>
    var nextVictim: nat
    var ucProg: word
    var ucVers: word
    var ucProc: word
    var rpcBuffer: array<byte>
    var xdrBase: array<byte>  // the buffer su_xdrs encodes to and decodes from
    var suXid: word
    var rtAddr: seq<byte>
    ghost var aged: seq<Slot> // the cached replies, oldest first
    ghost var log: seq<Entry> // every reply ever cached
    ghost var pending: Option<Key>         // the request handed to the dispatcher
    ghost var dispatches: seq<Dispatch>    // every request ever handed to it
    ghost var sent: seq<Datagram>          // every reply sent

    ghost predicate SlotOk(s: Slot)
      reads s.node`xid, s.node`proc, s.node`vers, s.node`prog, s.node`addr, s.node`reply, s.node`replyLen, s.buf
    {
      s.buf.Length == iosz && s.node.Holds(s.entry, s.buf)
    }

    /** Nodes and buffers are as the slots `a` say, and the transport's own buffer is another one. */
    ghost predicate ContentOk(a: seq<Slot>)
      reads `rpcBuffer, Nodes(a)`xid, Nodes(a)`proc, Nodes(a)`vers, Nodes(a)`prog, Nodes(a)`addr, Nodes(a)`reply,
            Nodes(a)`replyLen, Buffers(a)
    {
      && DistinctNodes(a) && DistinctBuffers(a) && rpcBuffer !in Buffers(a)
      && forall i | 0 <= i < |a| :: SlotOk(a[i])
    }

    ghost function Next(nodes: set<CacheNode>): Links
      reads nodes`next
    {
      map n | n in nodes :: n.next
    }

    ghost predicate LinksOk(a: seq<Slot>)
      reads entries, Nodes(a)`next
    {
      && entries.Length == SPARSENESS * size > 0
      && AllLinked(entries[..], a, Next(Nodes(a)))
    }

    ghost predicate Valid()
      reads this, entries, fifo, rpcBuffer, Nodes(aged), Buffers(aged)
    {
      && ContentOk(aged) && LinksOk(aged)
      && nextVictim < size == fifo.Length && fifo != entries && Ring(fifo[..], aged, nextVictim)
      && rpcBuffer.Length == iosz && xdrBase == rpcBuffer
      && Mirrors(aged, Recent(log, size))
    }

    constructor (size: nat, iosz: nat)
      requires size > 0
      ensures Valid() && AtMostOnce() && log == [] && dispatches == [] && this.size == size && this.iosz == iosz
      ensures fresh(entries) && fresh(fifo) && fresh(rpcBuffer)
    {
      this.size, this.iosz := size, iosz;
      entries := new CacheNode?[SPARSENESS * size](_ => null);
      fifo := new CacheNode?[size](_ => null);
      nextVictim, ucProg, ucVers, ucProc, suXid, rtAddr := 0, 0, 0, 0, 0, [];
      var buf := new byte[iosz];
      rpcBuffer, xdrBase := buf, buf;
      aged, log, pending, dispatches, sent := [], [], None, [], [];
    }

    /** Takes the oldest slot's node out of its chain; FALSE would be the "victim not found" warning. */
    method Unlink(victim: CacheNode) returns (found: bool)
      requires LinksOk(aged) && DistinctNodes(aged) && aged != [] && victim == aged[0].node
      requires victim.xid == aged[0].entry.key.xid
      modifies entries, Nodes(aged)`next
      ensures found && LinksOk(aged[1..])
    {
      hide AllLinked;
      ghost var heads, next := entries[..], Next(Nodes(aged));
      var loc := Loc(victim.xid, entries.Length);
      ghost var c := Chain(aged, entries.Length, loc);
      var prev: CacheNode? := null;
      var cur := entries[loc];
      ghost var k := 0;
      OldestUnlinked(heads, aged, next);
      ChainDistinct(aged, entries.Length, loc);
      ChainLinked(heads, aged, next, loc);
      while cur != null && cur != victim
        invariant 0 <= k < |c| && cur == c[k].node
        invariant prev == if k == 0 then null else c[k - 1].node
        decreases |c| - k
      {
        assert LinkAt(c, k, next);
        prev := cur;
        cur := cur.next;
        k := k + 1;
      }
      if cur == null {
        return false;
      }
      assert LinkAt(c, k, next);
      assert k == |c| - 1;
      if prev == null {
        entries[loc] := victim.next;
        assert entries[..] == heads[loc := null];
        assert forall s <- aged[1..] :: s in aged;
        LinksAgree(entries[..], aged[1..], next, Next(Nodes(aged[1..])));
      } else {
        assert LinkAt(c, k - 1, next);
        prev.next := victim.next;
        assert entries[..] == heads;
        assert forall s <- aged[1..] :: s in aged;
        LinksAgree(entries[..], aged[1..], next[prev := null], Next(Nodes(aged[1..])));
      }
      found := true;
    }

    ghost function CurrentKey(): Key
      reads this
    {
      Key(suXid, ucProc, ucVers, ucProg, rtAddr)
    }

    /** Moves the reply in the transport's buffer, buffer and all, into a free node. */
    method FillNode(victim: CacheNode, newbuf: array<byte>, replyLen: nat) returns (ghost s: Slot)
      requires ContentOk(aged) && victim !in Nodes(aged)
      requires newbuf !in Buffers(aged) && newbuf != rpcBuffer
      requires rpcBuffer.Length == iosz && replyLen <= iosz
      modifies this`rpcBuffer, this`xdrBase, victim`replyLen, victim`reply, victim`xid, victim`proc, victim`vers,
               victim`prog, victim`addr
      ensures s == Slot(victim, old(rpcBuffer), Entry(CurrentKey(), old(rpcBuffer[..replyLen])))
      ensures ContentOk(aged + [s]) && rpcBuffer == xdrBase == newbuf && victim.xid == suXid
    {
      s := Slot(victim, rpcBuffer, Entry(CurrentKey(), rpcBuffer[..replyLen]));
      victim.replyLen := replyLen;
      victim.reply := rpcBuffer;
      rpcBuffer := newbuf;
      xdrBase := rpcBuffer;
      victim.xid := suXid;
      victim.proc := ucProc;
      victim.vers := ucVers;
      victim.prog := ucProg;
      victim.addr := rtAddr;
      ghost var grown := aged + [s];
      forall i | 0 <= i < |grown| ensures SlotOk(grown[i]) {
        if i < |aged| {
          assert old(SlotOk(aged[i]));
          assert aged[i].node != victim;
        }
      }
      DistinctSnoc(aged, s);
    }

    /** Puts a node in front of its chain. */
    method PushNode(victim: CacheNode, ghost s: Slot)
      requires LinksOk(aged) && victim !in Nodes(aged) && s.node == victim && victim.xid == s.entry.key.xid
      modifies entries, victim`next
      ensures LinksOk(aged + [s])
    {
      hide AllLinked, Chain;
      ghost var heads, next := entries[..], Next(Nodes(aged));
      var loc := Loc(victim.xid, entries.Length);
      victim.next := entries[loc];
      entries[loc] := victim;
      NewestLinked(heads, aged, next, s);
      assert entries[..] == heads[loc := victim];
      ghost var grown := aged + [s];
      assert forall t <- grown :: t in aged || t == s;
      LinksAgree(entries[..], grown, next[victim := heads[loc]], Next(Nodes(grown)));
    }

    /** Frees the oldest slot's node and the buffer it owns. */
    method Evict(victim: CacheNode) returns (found: bool, newbuf: array<byte>)
      requires ContentOk(aged) && LinksOk(aged) && aged != [] && victim == aged[0].node
      modifies this`aged, entries, Nodes(aged)`next
      ensures found && ContentOk(aged) && LinksOk(aged) && aged == old(aged[1..])
      ensures victim !in Nodes(aged) && newbuf !in Buffers(aged) && newbuf != rpcBuffer
      ensures newbuf == old(aged[0].buf) && newbuf.Length == iosz
    {
      hide LinksOk;
      OldestDropped(aged);
      assert SlotOk(aged[0]);
      newbuf := victim.reply;
      found := Unlink(victim);
      if !found {
        return;
      }
      forall i | 0 <= i < |aged[1..]| ensures SlotOk(aged[1..][i]) {
        assert SlotOk(aged[i + 1]);
      }
      aged := aged[1..];
    }

    /** A node that is in no chain and a buffer nobody else has. */
    method Allocate() returns (node: CacheNode, newbuf: array<byte>)
      requires ContentOk(aged) && LinksOk(aged)
      ensures ContentOk(aged) && LinksOk(aged)
      ensures fresh(node) && fresh(newbuf) && newbuf.Length == iosz
      ensures node !in Nodes(aged) && newbuf !in Buffers(aged)
    {
      hide AllLinked;
      newbuf := new byte[iosz];
      node := new CacheNode(newbuf);
    }

    /** The node and the buffer for the next reply: the oldest reply's once the ring is full. */
    method Take() returns (found: bool, victim: CacheNode, newbuf: array<byte>)
      requires ContentOk(aged) && LinksOk(aged)
      requires nextVictim < size == fifo.Length && fifo != entries && Ring(fifo[..], aged, nextVictim)
      modifies this`aged, entries, Nodes(aged)`next
      ensures found && ContentOk(aged) && LinksOk(aged) && aged == Remaining(fifo[..], old(aged))
      ensures victim !in Nodes(aged) && (fresh(victim) || victim in old(Nodes(aged)))
      ensures newbuf !in Buffers(aged) && newbuf != rpcBuffer && newbuf.Length == iosz
      ensures fresh(newbuf) || newbuf in old(Buffers(aged))
      ensures fifo[..] == old(fifo[..])
    {
      hide AllLinked, Chain, Ring;
      ghost var f := fifo[..];
      RingVictim(f, aged, nextVictim);
      var slot := fifo[nextVictim];
      if slot != null {
        victim := slot;
        found, newbuf := Evict(victim);
      } else {
        victim, newbuf := Allocate();
        found := true;
      }
      assert fifo[..] == f;
    }

    /** Moves the reply into a free node and the node into the table. */
    method Place(victim: CacheNode, newbuf: array<byte>, replyLen: nat)
      requires ContentOk(aged) && LinksOk(aged) && victim !in Nodes(aged)
      requires newbuf !in Buffers(aged) && newbuf != rpcBuffer
      requires rpcBuffer.Length == iosz && replyLen <= iosz
      modifies this`rpcBuffer, this`xdrBase, this`aged, entries, victim
      ensures ContentOk(aged) && LinksOk(aged) && rpcBuffer == xdrBase == newbuf
      ensures aged == old(aged) + [Slot(victim, old(rpcBuffer), Entry(CurrentKey(), old(rpcBuffer[..replyLen])))]
    {
      hide AllLinked, Chain;
      ghost var s := FillNode(victim, newbuf, replyLen);
      PushNode(victim, s);
      aged := aged + [s];
    }

    method Rotate(victim: CacheNode)
      requires nextVictim < size == fifo.Length && fifo != entries && ContentOk(aged) && LinksOk(aged)
      modifies fifo, this`nextVictim
      ensures ContentOk(aged) && LinksOk(aged)
      ensures fifo[..] == old(fifo[..])[old(nextVictim) := victim]
      ensures nextVictim == (old(nextVictim) + 1) % size
    {
      hide AllLinked, Chain;
      ghost var heads := entries[..];
      fifo[nextVictim] := victim;
      assert entries[..] == heads;
      assert fifo[..] == old(fifo[..])[old(nextVictim) := victim];
      nextVictim := nextVictim + 1;
      nextVictim := nextVictim % size;
    }

    /**
     * cache_set: caches the reply in the transport's buffer under the request last looked up, in place
     * of the oldest reply once the cache is full, and gives the transport another buffer.
     */
    method CacheSet(replyLen: nat) returns (cached: bool)
      requires Valid() && replyLen <= iosz
      modifies this`rpcBuffer, this`xdrBase, this`aged, this`log, this`nextVictim, entries, fifo, Nodes(aged)
      ensures cached && Valid()
      ensures log == old(log) + [Entry(CurrentKey(), old(rpcBuffer[..replyLen]))]
      ensures rpcBuffer != old(rpcBuffer) && (fresh(rpcBuffer) || rpcBuffer in old(Buffers(aged)))
    {
      hide AllLinked, Chain, Ring, Recent, Mirrors, Remaining, DistinctNodes, DistinctBuffers, Nodes, Buffers;
      ghost var f, a, nv := fifo[..], aged, nextVictim;
      ghost var e := Entry(CurrentKey(), rpcBuffer[..replyLen]);
      RingVictim(f, a, nv);
      var victim, newbuf;
      cached, victim, newbuf := Take();
      if !cached {
        return;
      }
      ghost var left := aged;
      ghost var s := Slot(victim, rpcBuffer, e);
      Place(victim, newbuf, replyLen);
      assert aged == left + [s];
      Rotate(victim);
      assert Ring(fifo[..], aged, nextVictim) by { RingAdvances(f, a, nv, s); }
      MirrorsGrows(f, a, log, s);
      log := log + [e];
    }

    /** The search of cache_get along one chain. */
    method Find(key: Key) returns (ent: CacheNode?)
      requires Valid()
      ensures match Newest(aged, key) case None => ent == null case Some(s) => ent == s.node
    {
      hide AllLinked, Chain, Ring, Recent, DistinctNodes, DistinctBuffers, Mirrors;
      var loc := Loc(key.xid, entries.Length);
      ghost var c, next := Chain(aged, entries.Length, loc), Next(Nodes(aged));
      ChainLinked(entries[..], aged, next, loc);
      ChainSearch(aged, entries.Length, key);
      ent := entries[loc];
      ghost var k := 0;
      assert c[0..] == c;
      while ent != null
        invariant 0 <= k <= |c| && ent == if k < |c| then c[k].node else null
        invariant FirstMatch(c[k..], key) == FirstMatch(c, key)
        decreases |c| - k
      {
        ChainMembers(aged, entries.Length, loc, c[k]);
        assert SlotOk(c[k]);
        assert LinkAt(c, k, next);
        if ent.xid == key.xid && ent.proc == key.proc && ent.vers == key.vers && ent.prog == key.prog &&
           ent.addr == key.addr {
          assert c[k..][0] == c[k];
          return;
        }
        assert c[k..][1..] == c[k + 1..];
        ent := ent.next;
        k := k + 1;
      }
    }

    /**
     * cache_get: finds the newest cached reply to the request, or remembers what cache_set will need.
     * The reply is handed out as the buffer it is kept in.
     */
    method CacheGet(proc: word, vers: word, prog: word) returns (hit: bool, reply: array<byte>, replyLen: nat)
      requires Valid()
      modifies `ucProc, `ucVers, `ucProg
      ensures Valid()
      ensures var r := Lookup(Recent(log, size), Key(suXid, proc, vers, prog, rtAddr));
              && (hit <==> r.Some?)
              && (hit ==> reply in Buffers(aged) && replyLen <= reply.Length && reply[..replyLen] == r.value)
              && (!hit ==> CurrentKey() == Key(suXid, proc, vers, prog, rtAddr))
    {
      hide AllLinked, Chain, Ring, Recent, DistinctNodes, DistinctBuffers, Mirrors, Newest, Lookup;
      ghost var key := Key(suXid, proc, vers, prog, rtAddr);
      NewestIsLookup(aged, Recent(log, size), key);
      var ent := Find(Key(suXid, proc, vers, prog, rtAddr));
      if ent != null {
        SlotOwns(aged, Newest(aged, key).value);
        assert SlotOk(Newest(aged, key).value);
        return true, ent.reply, ent.replyLen;
      }
      ucProc := proc;
      ucVers := vers;
      ucProg := prog;
      return false, rpcBuffer, 0;
    }

    // ---- receiving and replying ------------------------------------------------------------------------

    /** No request was dispatched while a reply to it was among the last `size` ones cached. */
    ghost predicate AtMostOnce()
      reads `log, `dispatches, this
    {
      forall d <- dispatches :: d.at <= |log| &&
        forall i | 0 <= i < d.at && log[i].key == d.key :: d.at - (i + 1) >= size
    }

    /** recvmsg and the encoder store octets at the start of a buffer. */
    method Fill(buf: array<byte>, s: seq<byte>)
      requires |s| <= buf.Length
      modifies buf
      ensures buf[..|s|] == s
    {
      forall i | 0 <= i < |s| {
        buf[i] := s[i];
      }
    }

    /** The part of svc_dg_recv after decoding: answers a repeated request, or lets it be dispatched. */
    method Admit(msg: Request) returns (dispatch: bool)
      requires Valid() && AtMostOnce()
      modifies `ucProc, `ucVers, `ucProg, `suXid, `pending, `dispatches, `sent
      ensures Valid() && AtMostOnce()
      ensures var key := KeyOf(msg, rtAddr);
              var r := Lookup(Recent(log, size), key);
              && (dispatch <==> r.None?)
              && (dispatch ==> pending == Some(key) && CurrentKey() == key && sent == old(sent))
              && (dispatch ==> dispatches == old(dispatches) + [Dispatch(key, |log|)])
              && (!dispatch ==> pending == None && dispatches == old(dispatches))
              && (!dispatch ==> sent == old(sent) + [Datagram(r.value, rtAddr)])
      ensures Treated(log, size, msg, rtAddr, dispatch, old(sent), sent)
      ensures dispatch ==> pending == Some(Key(msg.xid, msg.proc, msg.vers, msg.prog, rtAddr))
    {
      hide AllLinked, Chain, Ring, Recent, DistinctNodes, DistinctBuffers, Mirrors, Nodes, Buffers, Lookup, Treated;
      suXid := msg.xid;
      pending := None;
      var hit, reply, replyLen := CacheGet(msg.proc, msg.vers, msg.prog);
      if hit {
        sent := sent + [Datagram(reply[..replyLen], rtAddr)];
        TreatedFromLog(log, size, msg, rtAddr, old(sent), sent);
        return false;
      }
      TreatedFromLog(log, size, msg, rtAddr, sent, sent);
      ghost var key := KeyOf(msg, rtAddr);
      pending := Some(key);
      MissMeansOld(log, size, key);
      dispatches := dispatches + [Dispatch(key, |log|)];
      return true;
    }

    /**
     * svc_dg_recv: receives a datagram, decodes it and looks the request up. TRUE hands the request to
     * the dispatcher; a repeated request is answered on the spot with the reply cached for it.
     */
    method Recv(incoming: Option<Datagram>, decode: seq<byte> -> Option<Request>)
      returns (dispatch: bool, ghost request: Option<Key>)
      requires Valid() && AtMostOnce()
      requires incoming.Some? ==> |incoming.value.octets| <= iosz
      modifies `ucProc, `ucVers, `ucProg, `rtAddr, `suXid, `pending, `dispatches, `sent, rpcBuffer
      ensures Valid() && AtMostOnce()
      ensures incoming.Some? ==> rpcBuffer[..|incoming.value.octets|] == incoming.value.octets
      ensures request == if incoming.Some? && |incoming.value.octets| >= 16 && decode(rpcBuffer[..]).Some?
                         then Some(KeyOf(decode(rpcBuffer[..]).value, incoming.value.addr)) else None
      ensures request.None? ==> !dispatch && pending == None && sent == old(sent) && dispatches == old(dispatches)
      ensures request.Some? ==>
                var r := Lookup(Recent(log, size), request.value);
                && (dispatch <==> r.None?)
                && (dispatch ==> pending == request && CurrentKey() == request.value && sent == old(sent))
                && (dispatch ==> dispatches == old(dispatches) + [Dispatch(request.value, |log|)])
                && (!dispatch ==> pending == None && dispatches == old(dispatches))
                && (!dispatch ==> sent == old(sent) + [Datagram(r.value, incoming.value.addr)])
      ensures request.Some? ==>
                var msg, addr := decode(rpcBuffer[..]).value, incoming.value.addr;
                && Treated(log, size, msg, addr, dispatch, old(sent), sent)
                && (dispatch ==> pending == Some(Key(msg.xid, msg.proc, msg.vers, msg.prog, addr)))
    {
      hide AllLinked, Chain, Ring, Recent, DistinctNodes, DistinctBuffers, Mirrors, Nodes, Buffers, Lookup, Treated;
      pending := None;
      request := None;
      if incoming.None? {
        return false, request;
      }
      ReceiveInto(incoming.value.octets);
      if |incoming.value.octets| < 16 {
        return false, request;
      }
      rtAddr := incoming.value.addr;
      var msg := decode(xdrBase[..]);
      if msg.None? {
        return false, request;
      }
      request := Some(KeyOf(msg.value, rtAddr));
      dispatch := Admit(msg.value);
    }

    /** What arrives overwrites the transport's buffer and no cached reply. */
    method ReceiveInto(s: seq<byte>)
      requires Valid() && |s| <= iosz
      modifies rpcBuffer
      ensures Valid() && rpcBuffer[..|s|] == s
      ensures old(AtMostOnce()) ==> AtMostOnce()
    {
      hide AllLinked, Chain, Ring, Mirrors, DistinctNodes, DistinctBuffers;
      ghost var heads, f := entries[..], fifo[..];
      forall i | 0 <= i < |aged| ensures aged[i].buf != rpcBuffer {
        assert aged[i] in aged;
      }
      Fill(rpcBuffer, s);
      assert entries[..] == heads && fifo[..] == f;
      forall i | 0 <= i < |aged| ensures SlotOk(aged[i]) {
        assert old(SlotOk(aged[i]));
      }
    }

    /**
     * svc_dg_reply to the request being dispatched: encodes the reply into the transport's buffer,
     * sends it, and caches it when all of it was sent; `sends` is whether sendmsg takes it.
     */
    method Reply(octets: seq<byte>, sends: bool) returns (stat: bool)
      requires Valid() && AtMostOnce() && pending == Some(CurrentKey())
      modifies `rpcBuffer, `xdrBase, `aged, `log, `nextVictim, `sent, rpcBuffer, entries, fifo, Nodes(aged)
      ensures Valid() && AtMostOnce() && CurrentKey() == old(CurrentKey())
      ensures stat <==> |octets| <= iosz && sends
      ensures stat ==> log == old(log) + [Entry(pending.value, octets)]
      ensures stat ==> sent == old(sent) + [Datagram(octets, rtAddr)]
      ensures !stat ==> log == old(log) && sent == old(sent)
    {
      hide AllLinked, Chain, Ring, Mirrors, DistinctNodes, DistinctBuffers;
      if |octets| > iosz {
        ReceiveInto(octets[..iosz]);
        return false;
      }
      ReceiveInto(octets);
      stat := sends;
      if stat {
        sent := sent + [Datagram(rpcBuffer[..|octets|], rtAddr)];
        var cached := CacheSet(|octets|);
      }
    }
  }

  lemma ChainLinked(heads: seq<CacheNode?>, a: seq<Slot>, next: Links, b: nat)
    requires b < |heads| && AllLinked(heads, a, next)
    ensures Linked(heads[b], Chain(a, |heads|, b), next)
  {}

  lemma RingNodes(f: seq<CacheNode?>, a: seq<Slot>, nv: nat, n: CacheNode)
    requires Ring(f, a, nv)
    ensures n in f <==> n in Nodes(a)
  {
    if n in f {
      var i :| 0 <= i < |f| && f[i] == n;
      var j := if |a| < |f| then i else if nv <= i then i - nv else i + |f| - nv;
      assert RingAt(f, a, nv, j);
    }
    if n in Nodes(a) {
      var j :| 0 <= j < |a| && a[j].node == n;
      assert RingAt(f, a, nv, j);
    }
  }

  /**
   * In every state the transport reaches, a node is in the ring exactly when it is in the chain its
   * xid hashes to, it is there once, and no chain has any other node.
   */
  lemma EachNodeInOneChain(t: Transport, n: CacheNode, b: nat)
    requires t.Valid() && b < t.entries.Length
    ensures (exists s <- Chain(t.aged, t.entries.Length, b) :: s.node == n) <==>
            n in t.fifo[..] && Loc(n.xid, t.entries.Length) == b
    ensures Linked(t.entries[b], Chain(t.aged, t.entries.Length, b), t.Next(Nodes(t.aged)))
    ensures DistinctNodes(Chain(t.aged, t.entries.Length, b))
  {
    hide Ring, Chain, AllLinked;
    var h := t.entries.Length;
    RingNodes(t.fifo[..], t.aged, t.nextVictim, n);
    ChainDistinct(t.aged, h, b);
    ChainLinked(t.entries[..], t.aged, t.Next(Nodes(t.aged)), b);
    if s :| s in Chain(t.aged, h, b) && s.node == n {
      ChainMembers(t.aged, h, b, s);
      var i :| 0 <= i < |t.aged| && t.aged[i] == s;
      assert t.SlotOk(t.aged[i]);
    }
    if n in Nodes(t.aged) {
      var i :| 0 <= i < |t.aged| && t.aged[i].node == n;
      assert t.SlotOk(t.aged[i]);
      ChainMembers(t.aged, h, b, t.aged[i]);
    }
  }
}
