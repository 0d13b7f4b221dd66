/** The list of server contexts, one a transport, kept in order of last use so that old ones can be cut off. */
module GssCache {
  class Entry {
    const xprt: nat       // the transport
    const gd: nat         // its context
    var timeToDie: int
    var next: Entry?

    constructor (xprt: nat, gd: nat)
      ensures this.xprt == xprt && this.gd == gd && timeToDie == 0 && next == null
    {
      this.xprt, this.gd, timeToDie, next := xprt, gd, 0, null;
    }
  }

  const LIFETIME := 300

  function Source(i: nat, k: nat): nat
    requires k > 0
  {
    if k <= i then k - 1 else k
  }

  ghost function TimesOf(l: seq<Entry>): (t: seq<int>)
    reads l`timeToDie
    ensures |t| == |l| && forall k | 0 <= k < |l| :: t[k] == l[k].timeToDie
  {
    if l == [] then [] else TimesOf(l[..|l| - 1]) + [l[|l| - 1].timeToDie]
  }

  /** Entries in descending order of their times, which are at most `latest`, and no transport twice. */
  ghost predicate Ordered(list: seq<Entry>, times: seq<int>, latest: int) {
    && |times| == |list|
    && (forall a, b | 0 <= a < b < |list| :: times[a] >= times[b] && list[a].xprt != list[b].xprt)
    && forall a | 0 <= a < |list| :: times[a] <= latest
  }

  /** `now` is `was` with another entry in front and, unless it is a new one, the one at `i` gone. */
  ghost predicate Reordered(was: seq<Entry>, t0: seq<int>, now: seq<Entry>, t1: seq<int>, i: nat) {
    |t0| == |was| && |t1| == |now| > 0 && forall k | 0 < k < |now| :: At(was, t0, now, t1, i, k)
  }

  ghost predicate At(was: seq<Entry>, t0: seq<int>, now: seq<Entry>, t1: seq<int>, i: nat, k: nat)
    requires |t0| == |was| && |t1| == |now| && 0 < k < |now|
  {
    && Source(i, k) < |was| && now[k] == was[Source(i, k)] && t1[k] == t0[Source(i, k)]
    && now[k] != now[0] && now[k].xprt != now[0].xprt
  }

  ghost function Elements(s: seq<Entry>): set<Entry> {
    set e <- s :: e
  }

  lemma ElementsSnoc(s: seq<Entry>, e: Entry)
    ensures Elements(s + [e]) == Elements(s) + {e}
  {
    assert forall x <- s + [e] :: x in s || x == e;
    assert forall x <- s :: x in s + [e];
    assert e in s + [e];
  }

  class Cache {
    var head: Entry?
    ghost var list: seq<Entry>
    ghost var freed: set<Entry>  // entries destroyed, never to be touched again
    ghost var clock: int         // the latest time seen

    ghost predicate Follows(i: nat)
      requires i < |list|
      reads `list, list`next
    {
      list[i].next == if i + 1 < |list| then list[i + 1] else null
    }

    /** The pointers run through `list` in order and end. */
    ghost predicate Linked()
      reads `head, `list, list`next
    {
      && head == (if list == [] then null else list[0])
      && (forall i | 0 <= i < |list| :: Follows(i))
      && (forall i, j | 0 <= i < j < |list| :: list[i] != list[j])
    }

    ghost function Times(): (t: seq<int>)
      reads `list, list`timeToDie
    {
      TimesOf(list)
    }

    /** Most recently used first, no transport twice, nothing destroyed. */
    ghost predicate Valid()
      reads this, list
    {
      && Linked()
      && Ordered(list, Times(), clock + LIFETIME)
      && NoneFreed(list, freed)
    }

    constructor (now: int)
      ensures Valid() && list == [] && freed == {} && clock == now
    {
      head, list, freed, clock := null, [], {}, now;
    }

    /**
     * lookup_cache_entry: the pointer that leads to the transport's entry, or to the end of the list.
     * That pointer is `prev`'s next field, or the head when there is no `prev`.
     */
    method Lookup(xprt: nat) returns (prev: Entry?, ghost i: nat)
      requires Linked()
      ensures i <= |list| && prev == if i == 0 then null else list[i - 1]
      ensures i < |list| ==> list[i].xprt == xprt
      ensures forall k | 0 <= k < i :: list[k].xprt != xprt
    {
      prev, i := null, 0;
      var ce := head;
      while ce != null
        invariant i <= |list| && ce == if i < |list| then list[i] else null
        invariant prev == if i == 0 then null else list[i - 1]
        invariant forall k | 0 <= k < i :: list[k].xprt != xprt
        decreases |list| - i
      {
        assert Follows(i);
        if ce.xprt == xprt {
          return;
        }
        prev := ce;
        ce := ce.next;
        i := i + 1;
      }
    }

    /** Appends a fresh entry where the search ended. */
    method Append(prev: Entry?, e: Entry)
      requires Linked() && prev == if list == [] then null else list[|list| - 1]
      requires e !in list && e.next == null
      modifies this`head, this`list, (if prev == null then {} else {prev})`next
      ensures Linked() && list == old(list) + [e]
    {
      ghost var was := list;
      if prev == null {
        head := e;
      } else {
        prev.next := e;
      }
      list := list + [e];
      forall k | 0 <= k < |list| ensures Follows(k) {
        if k < |was| - 1 {
          assert old(Follows(k)) && was[k] != prev;
        }
      }
    }

    /** use_cache_entry: renews the entry and moves it to the front. */
    method Use(prev: Entry?, now: int, ghost i: nat)
      requires Linked() && i < |list| && prev == if i == 0 then null else list[i - 1]
      modifies this`head, this`list, list
      ensures Linked() && list == [old(list[i])] + old(list[..i] + list[i + 1..])
      ensures old(list[i]).timeToDie == now + LIFETIME
      ensures forall e <- old(list) | e != old(list[i]) :: e.timeToDie == old(e.timeToDie)
    {
      ghost var was := list;
      assert Follows(i) && (i > 0 ==> Follows(i - 1));
      var ce := if prev == null then head else prev.next;
      assert ce == was[i];
      ce.timeToDie := now + LIFETIME;
      if prev == null {
        assert list == [was[0]] + (was[..0] + was[1..]);
        forall k | 0 <= k < |list| ensures Follows(k) {
          assert old(Follows(k));
        }
        return;
      }
      prev.next := ce.next;
      ce.next := head;
      head := ce;
      list := [ce] + (was[..i] + was[i + 1..]);
      forall k | 0 <= k < |list| ensures Follows(k) {
        if k > 0 {
          assert list[k] == if k <= i then was[k - 1] else was[k];
          assert old(Follows(k - 1)) && old(Follows(k));
        }
      }
    }

    /** destroy_cold_cache_entries: frees everything from the first cold entry on. */
    method DestroyCold(now: int, ghost k: nat)
      requires Linked() && k <= |list|
      requires forall i | 0 <= i < |list| :: now > list[i].timeToDie <==> i >= k
      modifies this`head, this`list, this`freed, list`next
      ensures Linked() && list == old(list[..k]) && freed == old(freed + Elements(list[k..]))
    {
      var prev: Entry? := null;
      var ce := head;
      ghost var i := 0;
      while ce != null && !(now > ce.timeToDie)
        invariant i <= k && ce == if i < |list| then list[i] else null
        invariant prev == if i == 0 then null else list[i - 1]
        decreases |list| - i
      {
        assert Follows(i);
        prev := ce;
        ce := ce.next;
        i := i + 1;
      }
      assert i == k;
      CutAt(prev, ce, k);
    }

    /** The loop that frees from `ce` on, always through the pointer that leads to it. */
    method CutAt(prev: Entry?, first: Entry?, ghost k: nat)
      requires Linked() && k <= |list| && prev == (if k == 0 then null else list[k - 1])
      requires first == if k < |list| then list[k] else null
      modifies this`head, this`list, this`freed, list`next
      ensures Linked() && list == old(list[..k]) && freed == old(freed + Elements(list[k..]))
    {
      ghost var was := list;
      var ce := first;
      ghost var j := k;
      assert was[k..k] == [];
      assert freed + Elements([]) == freed;
      hide Elements;
      assert k > 0 ==> Follows(k - 1);
      while ce != null
        invariant list == was && k <= j <= |was| && ce == if j < |was| then was[j] else null
        invariant k == 0 ==> head == ce
        invariant k > 0 ==> head == was[0] && prev.next == ce
        invariant forall m | 0 <= m < |was| && m != k - 1 :: Follows(m)
        invariant freed == old(freed) + Elements(was[k..j])
        decreases |was| - j
      {
        label before:
        assert Follows(j);
        var ceNext := ce.next;
        freed := freed + {ce};
        assert was[k..j + 1] == was[k..j] + [was[j]];
        ElementsSnoc(was[k..j], was[j]);
        if prev == null {
          head := ceNext;
        } else {
          prev.next := ceNext;
        }
        forall m | 0 <= m < |was| && m != k - 1 ensures Follows(m) {
          assert old@before(Follows(m)) && was[m] != prev;
        }
        ce := ceNext;
        j := j + 1;
      }
      assert was[k..j] == was[k..];
      label cut:
      list := was[..k];
      forall m | 0 <= m < k ensures Follows(m) {
        assert m < k - 1 ==> old@cut(Follows(m));
      }
    }

    /** Finds the transport's entry, or makes it at the end of the list. */
    method FindOrMake(xprt: nat, gd: nat) returns (prev: Entry?, e: Entry, ghost i: nat)
      requires Linked()
      modifies this`head, this`list, list`next
      ensures Linked() && i < |list| && list[i] == e && prev == if i == 0 then null else list[i - 1]
      ensures e.xprt == xprt && forall k | 0 <= k < i :: list[k].xprt != xprt
      ensures list == old(list) || (list == old(list) + [e] && i == |old(list)| && fresh(e) && e.gd == gd)
      ensures (exists x <- old(list) :: x.xprt == xprt) ==> list == old(list)
    {
      prev, i := Lookup(xprt);
      assert i > 0 ==> Follows(i - 1);
      var ce := if prev == null then head else prev.next;
      if ce == null {
        e := new Entry(xprt, gd);
        Append(prev, e);
      } else {
        e := ce;
      }
    }

    /** Finds or makes the transport's entry and moves it, renewed, to the front. */
    method Renew(xprt: nat, gd: nat, now: int) returns (e: Entry)
      requires Valid() && clock <= now
      modifies this`head, this`list, this`clock, list
      ensures Valid() && clock == now
      ensures list != [] && list[0] == e && e.xprt == xprt && e.timeToDie == now + LIFETIME
      ensures (exists x <- old(list) :: x.xprt == xprt) ==> e in old(list)
      ensures e in old(list) || (fresh(e) && e.gd == gd)
      ensures forall x :: x in list <==> x == e || x in old(list)
      ensures forall x <- old(list) | x != e :: x.timeToDie == old(x.timeToDie)
    {
      hide Ordered, NoneFreed;
      ghost var was, times := list, Times();
      OrderedLater(was, times, clock + LIFETIME, now + LIFETIME);
      clock := now;
      var prev;
      ghost var i;
      prev, e, i := FindOrMake(xprt, gd);
      ghost var mid := list;
      assert e !in freed by {
        if e in was {
          NoneFreedHas(was, freed, e);
        }
      }
      MoveUp(prev, e, now, i, was, times);
    }

    /** The others' times as recorded. */
    ghost predicate TimesKept(was: seq<Entry>, times: seq<int>, e: Entry)
      reads was`timeToDie
    {
      |times| == |was| && forall k | 0 <= k < |was| && was[k] != e :: was[k].timeToDie == times[k]
    }

    method MoveUp(prev: Entry?, e: Entry, now: int, ghost i: nat, ghost was: seq<Entry>, ghost times: seq<int>)
      requires Linked() && InUse(was, list, i) && list[i] == e && prev == if i == 0 then null else list[i - 1]
      requires Ordered(was, times, clock + LIFETIME) && TimesKept(was, times, e)
      requires NoneFreed(was, freed) && e !in freed
      requires clock == now
      modifies this`head, this`list, list
      ensures Valid() && list == [e] + old(list[..i] + list[i + 1..]) && e.timeToDie == now + LIFETIME
      ensures forall x :: x in list <==> x in old(list)
      ensures forall x <- was | x != e :: x.timeToDie == old(x.timeToDie)
    {
      hide Ordered, Reordered, NoneFreed;
      ghost var mid := list;
      Use(prev, now, i);
      MovedToFront(mid, list, i);
      assert TimesKept(was, times, e);
      hide InUse;
      NoneFreedMoved(was, mid, list, i, freed);
      NowOrdered(was, times, mid, i, now);
    }

    /** The list after the move, with its times, is in order. */
    lemma NowOrdered(was: seq<Entry>, times: seq<int>, mid: seq<Entry>, i: nat, now: int)
      requires InUse(was, mid, i) && list == [mid[i]] + (mid[..i] + mid[i + 1..])
      requires Ordered(was, times, now + LIFETIME) && TimesKept(was, times, mid[i])
      requires mid[i].timeToDie == now + LIFETIME
      ensures Ordered(list, Times(), now + LIFETIME)
    {
      hide Ordered, Reordered;
      forall k | 0 < k < |list| ensures Source(i, k) < |was| && Times()[k] == times[Source(i, k)] {
        OthersAreOld(was, times, mid, list, i, now + LIFETIME, k);
      }
      RenewedIsReordered(was, times, mid, list, Times(), i, now + LIFETIME);
      StillOrdered(was, times, list, Times(), i, now + LIFETIME, now + LIFETIME);
    }

    /**
     * What _svcauth_gss does to the list for a call at time `now`: finds or makes the transport's
     * entry, renews it and cuts off the cold ones. Exactly the expired entries go, never the one in use.
     */
    method Touch(xprt: nat, gd: nat, now: int) returns (e: Entry)
      requires Valid() && clock <= now
      modifies this, list
      ensures Valid() && clock == now
      ensures e.xprt == xprt && list != [] && list[0] == e && e.timeToDie == now + 300
      ensures (exists x <- old(list) :: x.xprt == xprt) ==> e in old(list)
      ensures e in old(list) || (fresh(e) && e.gd == gd)
      ensures forall x <- old(list) | x != e :: x in list <==> now <= old(x.timeToDie)
      ensures forall x <- list :: x == e || (x in old(list) && x.timeToDie == old(x.timeToDie))
      ensures forall x :: x in freed <==> x in old(freed) || (x in old(list) && x != e && now > old(x.timeToDie))
    {
      hide Valid, Linked, Ordered, NoneFreed;
      e := Renew(xprt, gd, now);
      assert forall k | 0 <= k < |list| :: list[k] in list && (list[k] in old(list) || fresh(list[k]));
      DropCold(now);
    }

    /** Cuts the list where its first cold entry stands, which in this order drops the cold ones only. */
    method DropCold(now: int)
      requires Valid() && list != [] && list[0].timeToDie >= now
      modifies this`head, this`list, this`freed, list`next
      ensures Valid() && list != [] && list <= old(list)
      ensures forall x :: x in list <==> x in old(list) && now <= x.timeToDie
      ensures forall x :: x in freed <==> x in old(freed) || (x in old(list) && now > x.timeToDie)
    {
      hide Elements;
      ghost var all, times := list, Times();
      ghost var k := FirstCold(all, times, clock + LIFETIME, now);
      assert forall i | 0 <= i < |all| :: now > all[i].timeToDie <==> now > times[i];
      FrontOrdered(all, times, clock + LIFETIME, k);
      hide Ordered, NoneFreed;
      DestroyCold(now, k);
      assert Times() == times[..k];
      FrontNotFreed(all, k, old(freed));
      ColdElements(all, k, now);
    }

    /** svcauth_gss_destroy: takes the context's entry out of the list, if it is still there. */
    method Destroy(gd: nat) returns (ghost i: nat)
      requires Valid()
      modifies this`head, this`list, this`freed, list`next
      ensures Valid() && i <= |old(list)|
      ensures forall k | 0 <= k < i :: old(list)[k].gd != gd
      ensures i == |old(list)| ==> list == old(list) && freed == old(freed)
      ensures i < |old(list)| ==> old(list)[i].gd == gd && list == old(list)[..i] + old(list)[i + 1..]
      ensures i < |old(list)| ==> freed == old(freed) + {old(list)[i]}
    {
      var prev;
      prev, i := FindContext(gd);
      assert i > 0 ==> Follows(i - 1);
      hide Valid, Linked, Follows;
      var ce := if prev == null then head else prev.next;
      if ce == null {
        return;
      }
      Remove(prev, ce, i);
    }

    /** The entry leaves the list, which stays in order. */
    method Remove(prev: Entry?, ce: Entry, ghost i: nat)
      requires Valid() && i < |list| && list[i] == ce && prev == if i == 0 then null else list[i - 1]
      modifies this`head, this`list, this`freed, list`next
      ensures Valid() && list == old(list)[..i] + old(list)[i + 1..] && freed == old(freed) + {ce}
    {
      WithoutOne(list, Times(), clock + LIFETIME, i, freed);
      TimesWithout(list, Times(), i);
      hide Linked, Ordered, NoneFreed;
      Unlink(prev, ce, i);
    }

    /** The loop of svcauth_gss_destroy, which ends at the pointer that leads to the entry. */
    method FindContext(gd: nat) returns (prev: Entry?, ghost i: nat)
      requires Linked()
      ensures i <= |list| && prev == if i == 0 then null else list[i - 1]
      ensures i < |list| ==> list[i].gd == gd
      ensures forall k | 0 <= k < i :: list[k].gd != gd
    {
      prev, i := null, 0;
      var ce := head;
      while ce != null && ce.gd != gd
        invariant i <= |list| && ce == if i < |list| then list[i] else null
        invariant prev == if i == 0 then null else list[i - 1]
        invariant forall k | 0 <= k < i :: list[k].gd != gd
        decreases |list| - i
      {
        assert Follows(i);
        prev := ce;
        ce := ce.next;
        i := i + 1;
      }
    }

    /** *ce = (*ce)->next, and the entry is freed. */
    method Unlink(prev: Entry?, ce: Entry, ghost i: nat)
      requires Linked() && i < |list| && list[i] == ce && prev == if i == 0 then null else list[i - 1]
      modifies this`head, this`list, this`freed, list`next
      ensures Linked() && list == old(list)[..i] + old(list)[i + 1..] && freed == old(freed) + {ce}
    {
      ghost var was := list;
      assert Follows(i) && (i > 0 ==> Follows(i - 1));
      if prev == null {
        head := ce.next;
      } else {
        prev.next := ce.next;
      }
      freed := freed + {ce};
      list := was[..i] + was[i + 1..];
      forall k | 0 <= k < |list| ensures Follows(k) {
        assert list[k] == if k < i then was[k] else was[k + 1];
        if k + 1 < |was| {
          assert old(Follows(k)) && old(Follows(k + 1));
        }
      }
    }
  }

  /** In descending order of times the cold entries are the last ones. */
  lemma FirstCold(list: seq<Entry>, times: seq<int>, latest: int, now: int) returns (k: nat)
    requires Ordered(list, times, latest)
    ensures k <= |list| && forall i | 0 <= i < |list| :: now > times[i] <==> i >= k
  {
    k := 0;
    while k < |list| && now <= times[k]
      invariant k <= |list| && forall i | 0 <= i < k :: now <= times[i]
    {
      k := k + 1;
    }
  }

  lemma FrontOrdered(list: seq<Entry>, times: seq<int>, latest: int, k: nat)
    requires Ordered(list, times, latest) && k <= |list|
    ensures Ordered(list[..k], times[..k], latest)
  {}

  lemma WithoutOne(list: seq<Entry>, times: seq<int>, latest: int, i: nat, freed: set<Entry>)
    requires Ordered(list, times, latest) && NoneFreed(list, freed) && i < |list|
    requires forall a, b | 0 <= a < b < |list| :: list[a] != list[b]
    ensures Ordered(list[..i] + list[i + 1..], times[..i] + times[i + 1..], latest)
    ensures NoneFreed(list[..i] + list[i + 1..], freed + {list[i]})
  {}

  lemma TimesWithout(list: seq<Entry>, times: seq<int>, i: nat)
    requires i < |list| == |times| && forall k | 0 <= k < |list| :: times[k] == list[k].timeToDie
    ensures TimesOf(list[..i] + list[i + 1..]) == times[..i] + times[i + 1..]
  {}

  lemma FrontNotFreed(list: seq<Entry>, k: nat, freed: set<Entry>)
    requires NoneFreed(list, freed) && k <= |list|
    requires forall i, j | 0 <= i < j < |list| :: list[i] != list[j]
    ensures NoneFreed(list[..k], freed + Elements(list[k..]))
  {}

  lemma ColdElements(all: seq<Entry>, k: nat, now: int)
    requires k <= |all| && forall i | 0 <= i < |all| :: now > all[i].timeToDie <==> i >= k
    ensures forall x :: x in Elements(all[k..]) <==> x in all && now > x.timeToDie
    ensures forall x :: x in all[..k] <==> x in all && now <= x.timeToDie
  {
    forall x | x in all ensures x in all[..k] <==> now <= x.timeToDie {
      var i :| 0 <= i < |all| && all[i] == x;
      if i < k {
        assert x == all[..k][i];
      }
    }
    forall x | x in all ensures x in all[k..] <==> now > x.timeToDie {
      var i :| 0 <= i < |all| && all[i] == x;
      if i >= k {
        assert x == all[k..][i - k];
      }
    }
  }

  /** Moving the latest entry to the front keeps the order of the others. */
  lemma StillOrdered(was: seq<Entry>, t0: seq<int>, now: seq<Entry>, t1: seq<int>, i: nat, clock: int, latest: int)
    requires Ordered(was, t0, clock) && clock <= latest
    requires Reordered(was, t0, now, t1, i) && t1[0] == latest
    ensures Ordered(now, t1, latest)
  {
    forall a, b | 0 <= a < b < |now| ensures t1[a] >= t1[b] && now[a].xprt != now[b].xprt {
      assert At(was, t0, now, t1, i, b);
      if a > 0 {
        assert At(was, t0, now, t1, i, a);
        assert Source(i, a) < Source(i, b);
      }
    }
  }

  /** `mid` is `was`, or `was` with a new transport's entry at the end, and `i` is the entry in use. */
  ghost predicate InUse(was: seq<Entry>, mid: seq<Entry>, i: nat) {
    && i < |mid| && (mid == was || (mid == was + [mid[i]] && i == |was|))
    && forall k | 0 <= k < i :: mid[k].xprt != mid[i].xprt
  }

  lemma OthersAreOld(was: seq<Entry>, t0: seq<int>, mid: seq<Entry>, now: seq<Entry>, i: nat, clock: int, k: nat)
    requires Ordered(was, t0, clock) && InUse(was, mid, i)
    requires now == [mid[i]] + (mid[..i] + mid[i + 1..]) && 0 < k < |now|
    ensures Source(i, k) < |was| && now[k] == was[Source(i, k)] == mid[Source(i, k)]
    ensures now[k] != now[0] && now[k].xprt != now[0].xprt && now[k] in was
  {
    assert now[k] == mid[Source(i, k)];
  }

  lemma RenewedIsReordered(was: seq<Entry>, t0: seq<int>, mid: seq<Entry>, now: seq<Entry>, t1: seq<int>, i: nat,
                           clock: int)
    requires Ordered(was, t0, clock) && InUse(was, mid, i)
    requires now == [mid[i]] + (mid[..i] + mid[i + 1..]) && |t1| == |now|
    requires forall k | 0 < k < |now| :: Source(i, k) < |was| && t1[k] == t0[Source(i, k)]
    ensures Reordered(was, t0, now, t1, i)
  {
    forall k | 0 < k < |now| ensures At(was, t0, now, t1, i, k) {
      OthersAreOld(was, t0, mid, now, i, clock, k);
    }
  }

  lemma OrderedLater(list: seq<Entry>, times: seq<int>, t: int, latest: int)
    requires Ordered(list, times, t) && t <= latest
    ensures Ordered(list, times, latest)
  {}

  ghost predicate NoneFreed(list: seq<Entry>, freed: set<Entry>) {
    forall k | 0 <= k < |list| :: list[k] !in freed
  }

  lemma NoneFreedHas(list: seq<Entry>, freed: set<Entry>, e: Entry)
    requires NoneFreed(list, freed) && e in list
    ensures e !in freed
  {}

  lemma NoneFreedMoved(was: seq<Entry>, mid: seq<Entry>, now: seq<Entry>, i: nat, freed: set<Entry>)
    requires InUse(was, mid, i) && NoneFreed(was, freed) && mid[i] !in freed
    requires now == [mid[i]] + (mid[..i] + mid[i + 1..])
    ensures NoneFreed(now, freed)
  {
    MovedToFront(mid, now, i);
    forall k | 0 <= k < |now| ensures now[k] !in freed {
      assert now[k] in mid;
    }
  }

  lemma MovedToFront(mid: seq<Entry>, now: seq<Entry>, i: nat)
    requires i < |mid| && now == [mid[i]] + (mid[..i] + mid[i + 1..])
    ensures forall x :: x in now <==> x in mid
    ensures |now| == |mid| && forall k | 0 < k < |now| :: now[k] == mid[Source(i, k)]
  {
    forall x ensures x in now <==> x in mid {
      if x in mid {
        var j :| 0 <= j < |mid| && mid[j] == x;
        assert x == now[if j == i then 0 else if j < i then j + 1 else j];
      }
    }
  }
}
