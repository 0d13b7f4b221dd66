/** The server's cache of AUTH_DES conversations: a table of sessions and the order they were last used in. */
module AuthDes {
  import opened Bytes

  const CACHESZ := 64
  const USEC_PER_SEC := 1_000_000

  datatype Time = Time(sec: int, usec: int)

  /** timercmp with <. */
  predicate Before(a: Time, b: Time) {
    a.sec < b.sec || (a.sec == b.sec && a.usec < b.usec)
  }

  /** Fresh by the window given, and well formed. */
  predicate Timely(stamp: Time, now: Time, window: word) {
    0 <= stamp.usec < USEC_PER_SEC && Before(Time(now.sec - window, now.usec), stamp)
  }

  datatype DesKey = DesKey(high: word, low: word)

  datatype Session = Session(key: DesKey, name: Option<string>, window: word, laststamp: Time)

  const NO_SESSION := Session(DesKey(0, 0), None, 0, Time(0, 0))

  datatype Cred = FullName(name: string, key: DesKey, window: word, winverf: word) | NickName(nick: nat)

  datatype AuthStat = AuthOk | BadCred | RejectedCred | BadVerf | RejectedVerf | Failed

  /** What a call comes to. An accepted one uses a slot, for the conversation that the slot then holds. */
  datatype Outcome = Accepted(sid: int, key: DesKey, name: Option<string>, stamp: Time) | Refused(stat: AuthStat)

  /** What identifies a conversation. */
  predicate Holds(s: Session, key: DesKey, name: string) {
    s.key == key && s.name == Some(name)
  }

  /** A nickname arrives as an unsigned long and is cut to a short. */
  function ToShort(n: nat): int {
    var low := n % 0x1_0000;
    if low >= 0x8000 then low - 0x1_0000 else low
  }

  /** A nickname means the slot that its lowest 16 bits write, if there is one. */
  lemma ShortIs(n: nat)
    ensures 0 <= ToShort(n) < 64 <==> n % 0x1_0000 < 64
    ensures 0 <= ToShort(n) < 64 ==> ToShort(n) == n % 0x1_0000
  {}

  function Micros(t: Time): int { t.sec * 1_000_000 + t.usec }

  /** Well-formed times are compared as numbers of microseconds. */
  lemma BeforeIs(a: Time, b: Time)
    requires 0 <= a.usec < 1_000_000 && 0 <= b.usec < 1_000_000
    ensures Before(a, b) <==> Micros(a) < Micros(b)
  {}

  /** A timestamp is timely when it is well formed and less than the window has passed since. */
  lemma TimelyIs(stamp: Time, now: Time, window: word)
    requires 0 <= now.usec < 1_000_000
    ensures Timely(stamp, now, window) <==>
            0 <= stamp.usec < 1_000_000 && Micros(now) < Micros(stamp) + 1_000_000 * window
  {
    if 0 <= stamp.usec < 1_000_000 { BeforeIs(Time(now.sec - window, now.usec), stamp); }
  }

  // ---- the order of use -------------------------------------------------------------------------------

  function MoveToFront(s: seq<int>, k: nat): (r: seq<int>)
    requires k < |s|
    ensures |r| == |s|
  {
    [s[k]] + s[..k] + s[k + 1..]
  }

  /** `lru` lists every slot once; `place` says where. */
  ghost predicate Permutation(lru: seq<int>, place: seq<nat>) {
    && |lru| == |place|
    && (forall i | 0 <= i < |lru| :: 0 <= lru[i] < |place| && place[lru[i]] == i)
    && forall s | 0 <= s < |place| :: place[s] < |lru| && lru[place[s]] == s
  }

  /** Slots stand in the order they were last used in, latest first. */
  ghost predicate ByLastUse(lru: seq<int>, used: seq<int>) {
    && (forall i | 0 <= i < |lru| :: 0 <= lru[i] < |used|)
    && forall i, j | 0 <= i < j < |lru| :: used[lru[i]] > used[lru[j]]
  }

  ghost function PlaceAfter(place: seq<nat>, k: nat): seq<nat> {
    seq(|place|, s requires 0 <= s < |place| =>
      if place[s] == k then 0 else if place[s] < k then place[s] + 1 else place[s])
  }

  lemma FrontIsPermutation(lru: seq<int>, place: seq<nat>, k: nat)
    requires Permutation(lru, place) && k < |lru|
    ensures Permutation(MoveToFront(lru, k), PlaceAfter(place, k))
  {
    var m := MoveToFront(lru, k);
    forall i | 0 <= i < |m| ensures m[i] == lru[if i == 0 then k else if i <= k then i - 1 else i] {}
  }

  lemma FrontIsByLastUse(lru: seq<int>, place: seq<nat>, used: seq<int>, k: nat, now: int)
    requires Permutation(lru, place) && ByLastUse(lru, used) && |used| == |lru| && k < |lru|
    requires forall s | 0 <= s < |used| :: used[s] < now
    ensures ByLastUse(MoveToFront(lru, k), used[lru[k] := now])
  {
    var m := MoveToFront(lru, k);
    forall i | 0 < i < |m|
      ensures m[i] == lru[if i <= k then i - 1 else i] && m[i] != lru[k]
    {
      assert m[i] == lru[if i <= k then i - 1 else i];
      assert place[m[i]] != k;
    }
  }

  // ---- what is accepted again ------------------------------------------------------------------------

  /** The j-th call is accepted for the conversation of the i-th, with an earlier timestamp. */
  predicate Again(log: seq<Outcome>, i: nat, j: nat)
    requires i < |log| && j < |log|
  {
    && log[i].Accepted? && log[j].Accepted?
    && log[i].key == log[j].key && log[i].name == log[j].name && log[i].name.Some?
    && Before(log[j].stamp, log[i].stamp)
  }

  predicate UsedBetween(log: seq<Outcome>, sid: int, i: nat, j: nat)
    requires j <= |log|
  {
    exists k | i < k < j :: log[k].Accepted? && log[k].sid == sid
  }

  /** An earlier timestamp is accepted only after every slot has been used. */
  ghost predicate Guarded(log: seq<Outcome>) {
    forall i, j, sid | 0 <= i < j < |log| && Again(log, i, j) && 0 <= sid < CACHESZ :: UsedBetween(log, sid, i, j)
  }

  /** The last uses of the slots are calls that were accepted for them. */
  ghost predicate Uses(used: seq<int>, log: seq<Outcome>) {
    forall s | 0 <= s < |used| && used[s] >= 0 :: used[s] < |log| && log[used[s]].Accepted? && log[used[s]].sid == s
  }

  /**
   * Since the i-th call, every slot has been used, or a slot still holds its conversation with no earlier
   * timestamp.
   */
  ghost predicate Recalled(table: seq<Session>, used: seq<int>, i: int, e: Outcome)
    requires |table| == |used| && e.Accepted? && e.name.Some?
  {
    || (forall s | 0 <= s < |used| :: used[s] > i)
    || exists s | 0 <= s < |used| ::
         used[s] >= i && Holds(table[s], e.key, e.name.value) && !Before(table[s].laststamp, e.stamp)
  }

  ghost predicate AllRecalled(table: seq<Session>, used: seq<int>, log: seq<Outcome>)
    requires |table| == |used|
  {
    forall i | 0 <= i < |log| && log[i].Accepted? && log[i].name.Some? :: Recalled(table, used, i, log[i])
  }

  /** A slot is used: it keeps its conversation, or it is the one whose last use is the longest ago. */
  ghost predicate Committed(table: seq<Session>, used: seq<int>, now: seq<Session>, sid: int) {
    && |table| == |used| == |now| && 0 <= sid < |used|
    && (forall s | 0 <= s < |used| && s != sid :: now[s] == table[s])
    && (|| (now[sid].key == table[sid].key && now[sid].name == table[sid].name
            && !Before(now[sid].laststamp, table[sid].laststamp))
        || forall s | 0 <= s < |used| && s != sid :: used[sid] < used[s])
  }

  lemma StillRecalled(table: seq<Session>, used: seq<int>, now: seq<Session>, sid: int, clock: int, i: int, e: Outcome)
    requires Committed(table, used, now, sid) && e.Accepted? && e.name.Some?
    requires Recalled(table, used, i, e) && i < clock
    ensures Recalled(now, used[sid := clock], i, e)
  {
    var after := used[sid := clock];
    if !(forall s | 0 <= s < |used| :: used[s] > i) {
      var s :| 0 <= s < |used| && used[s] >= i && Holds(table[s], e.key, e.name.value)
               && !Before(table[s].laststamp, e.stamp);
      if s == sid && forall u | 0 <= u < |used| && u != sid :: used[sid] < used[u] {
        assert forall u | 0 <= u < |after| :: after[u] > i;
      } else {
        assert after[s] >= i && Holds(now[s], e.key, e.name.value) && !Before(now[s].laststamp, e.stamp);
      }
    }
  }

  /** A call that is accepted leaves everything recalled, itself included. */
  lemma AcceptedRecalled(table: seq<Session>, used: seq<int>, now: seq<Session>, log: seq<Outcome>, e: Outcome)
    requires e.Accepted? && Committed(table, used, now, e.sid) && AllRecalled(table, used, log)
    requires e.key == now[e.sid].key && e.name == now[e.sid].name && e.stamp == now[e.sid].laststamp
    ensures AllRecalled(now, used[e.sid := |log|], log + [e])
  {
    var more, after := log + [e], used[e.sid := |log|];
    forall i | 0 <= i < |more| && more[i].Accepted? && more[i].name.Some? ensures Recalled(now, after, i, more[i]) {
      if i < |log| {
        StillRecalled(table, used, now, e.sid, |log|, i, log[i]);
      } else {
        assert after[e.sid] >= i && Holds(now[e.sid], e.key, e.name.value) && !Before(now[e.sid].laststamp, e.stamp);
      }
    }
  }

  /**
   * A timestamp before that of the i-th call, no earlier than what the table holds, means that every slot
   * was used since.
   */
  lemma EarlierIsForgotten(table: seq<Session>, used: seq<int>, i: int, e: Outcome, stamp: Time)
    requires |table| == |used| && e.Accepted? && e.name.Some? && Recalled(table, used, i, e) && Before(stamp, e.stamp)
    requires forall s | 0 <= s < |table| && Holds(table[s], e.key, e.name.value) :: !Before(stamp, table[s].laststamp)
    ensures forall s | 0 <= s < |used| :: used[s] > i
  {}

  lemma GuardedSnoc(log: seq<Outcome>, e: Outcome)
    requires Guarded(log)
    requires forall i, sid | 0 <= i < |log| && Again(log + [e], i, |log|) && 0 <= sid < CACHESZ ::
               UsedBetween(log, sid, i, |log|)
    ensures Guarded(log + [e])
  {
    var more := log + [e];
    forall i, j, sid | 0 <= i < j < |more| && Again(more, i, j) && 0 <= sid < CACHESZ
      ensures UsedBetween(more, sid, i, j)
    {
      if j < |log| {
        assert Again(log, i, j);
      }
      assert UsedBetween(log, sid, i, j);
      var k :| i < k < j && log[k].Accepted? && log[k].sid == sid;
      assert more[k] == log[k];
    }
  }

  lemma UsesSnoc(used: seq<int>, log: seq<Outcome>, e: Outcome)
    requires e.Accepted? && 0 <= e.sid < |used| && Uses(used, log)
    ensures Uses(used[e.sid := |log|], log + [e])
  {}

  /** A call that the table does not refuse as a replay keeps the log guarded. */
  lemma AcceptedGuarded(table: seq<Session>, used: seq<int>, log: seq<Outcome>, e: Outcome)
    requires |table| == |used| == CACHESZ && e.Accepted? && Guarded(log) && Uses(used, log)
             && AllRecalled(table, used, log)
    requires e.name.Some? ==>
               forall s | 0 <= s < CACHESZ && Holds(table[s], e.key, e.name.value) ::
                 !Before(e.stamp, table[s].laststamp)
    ensures Guarded(log + [e])
  {
    var more := log + [e];
    forall i, sid | 0 <= i < |log| && Again(more, i, |log|) && 0 <= sid < CACHESZ
      ensures UsedBetween(log, sid, i, |log|)
    {
      assert more[i] == log[i] && more[|log|] == e;
      EarlierIsForgotten(table, used, i, log[i], e.stamp);
      assert i < used[sid] < |log|;
    }
    hide Guarded, UsedBetween, Again;
    GuardedSnoc(log, e);
  }

  lemma RefusedKeeps(table: seq<Session>, used: seq<int>, log: seq<Outcome>, stat: AuthStat)
    requires |table| == |used| && Guarded(log) && Uses(used, log) && AllRecalled(table, used, log)
    ensures var more := log + [Refused(stat)]; Guarded(more) && Uses(used, more) && AllRecalled(table, used, more)
  {
    GuardedSnoc(log, Refused(stat));
  }

  /** Every slot has been used, so at least that many calls were accepted in between. */
  lemma {:induction false} ManyBetween(log: seq<Outcome>, i: nat, j: nat, n: nat)
    requires i < j <= |log| && forall sid | 0 <= sid < n :: UsedBetween(log, sid, i, j)
    ensures |set k | i < k < j && log[k].Accepted? && 0 <= log[k].sid < n| >= n
  {
    if n > 0 {
      ManyBetween(log, i, j, n - 1);
      var fewer := set k | i < k < j && log[k].Accepted? && 0 <= log[k].sid < n - 1;
      var uses := set k | i < k < j && log[k].Accepted? && 0 <= log[k].sid < n;
      assert UsedBetween(log, n - 1, i, j);
      var k :| i < k < j && log[k].Accepted? && log[k].sid == n - 1;
      assert fewer + {k} <= uses;
      SubsetSize(fewer + {k}, uses);
    }
  }

  lemma {:induction false} SubsetSize<T>(a: set<T>, b: set<T>)
    requires a <= b
    ensures |a| <= |b|
  {
    if a != {} {
      var x :| x in a;
      SubsetSize(a - {x}, b - {x});
    }
  }

  // ---- the cache ----------------------------------------------------------------------------------------

  class Cache {
    const table: array<Session>
    const lru: array<int>
    ghost var place: seq<nat>  // where each slot stands in the order of use
    ghost var used: seq<int>   // when each slot was last used
    ghost var clock: int
    ghost var log: seq<Outcome>  // what each call came to

    /** Every call so far is in the log, and an earlier timestamp was accepted only after every slot had been used. */
    ghost predicate Valid()
      reads this, table, lru
    {
      && Shape() && clock == |log|
      && Uses(used, log) && AllRecalled(table[..], used, log) && Guarded(log)
    }

    ghost predicate Shape()
      reads this, table, lru
    {
      && table.Length == lru.Length == CACHESZ && |used| == CACHESZ
      && Permutation(lru[..], place)
      && ByLastUse(lru[..], used)
      && (forall s | 0 <= s < CACHESZ :: used[s] < clock)
      // a conversation has one slot
      && forall i, j, key, name | 0 <= i < j < CACHESZ && Holds(table[i], key, name) :: !Holds(table[j], key, name)
    }

    /** cache_init. */
    constructor ()
      ensures Valid() && fresh(table) && fresh(lru) && log == []
      ensures forall i | 0 <= i < CACHESZ :: table[i] == NO_SESSION
    {
      table := new Session[CACHESZ](_ => NO_SESSION);
      lru := new int[CACHESZ](i => i);
      place := seq(CACHESZ, i => i);
      used := seq(CACHESZ, i => -1 - i);
      clock, log := 0, [];
    }

    /** cache_victim: the slot whose last use is the longest ago. */
    method Victim() returns (sid: int)
      requires Shape()
      ensures 0 <= sid < CACHESZ
      ensures forall s | 0 <= s < CACHESZ && s != sid :: used[sid] < used[s]
    {
      sid := lru[CACHESZ - 1];
      forall s | 0 <= s < CACHESZ && s != sid ensures used[sid] < used[s] {
        assert lru[..][place[s]] == s && place[s] < CACHESZ - 1;
      }
    }

    /** The loop of cache_ref: shifts what stood before `sid`, which stands at `k`, by one. */
    method Shift(sid: int, ghost k: nat)
      requires k < lru.Length && lru[k] == sid && forall i | 0 <= i < k :: lru[i] != sid
      modifies lru
      ensures lru[..] == MoveToFront(old(lru[..]), k)
    {
      ghost var was := lru[..];
      var prev := lru[0];
      lru[0] := sid;
      var i := 1;
      while prev != sid
        invariant 1 <= i <= k + 1 && prev == was[i - 1]
        invariant lru[0] == sid
        invariant forall j | 1 <= j < i :: lru[j] == was[j - 1]
        invariant forall j | i <= j < lru.Length :: lru[j] == was[j]
        decreases k + 1 - i
      {
        var curr := lru[i];
        lru[i] := prev;
        prev := curr;
        i := i + 1;
      }
      assert i == k + 1;
      assert lru[..] == MoveToFront(was, k);
    }

    /** cache_ref: notes that the slot was used. */
    method Ref(sid: int)
      requires Shape() && 0 <= sid < CACHESZ
      modifies `place, `used, `clock, lru
      ensures Shape() && lru[0] == sid
      ensures lru[..] == MoveToFront(old(lru[..]), old(place[sid]))
      ensures used == old(used)[sid := old(clock)] && clock == old(clock) + 1
    {
      ghost var was, k := lru[..], place[sid];
      assert was[k] == sid && forall i | 0 <= i < k :: was[i] != sid;
      assert k < |was|;
      hide Permutation, ByLastUse, Holds;
      FrontIsPermutation(was, place, k);
      FrontIsByLastUse(was, place, used, k, clock);
      Shift(sid, k);
      place := PlaceAfter(place, k);
      used := used[sid := clock];
      clock := clock + 1;
    }

    /** cache_spot: the conversation's slot, -1 for a replay, or the victim for a new conversation. */
    method Spot(key: DesKey, name: string, stamp: Time) returns (sid: int)
      requires Shape()
      ensures -1 <= sid < CACHESZ
      ensures sid == -1 <==> exists i | 0 <= i < CACHESZ ::
                Holds(table[i], key, name) && Before(stamp, table[i].laststamp)
      ensures sid != -1 && (exists i | 0 <= i < CACHESZ :: Holds(table[i], key, name)) ==> Holds(table[sid], key, name)
      ensures sid != -1 && (forall i | 0 <= i < CACHESZ :: !Holds(table[i], key, name)) ==>
                forall s | 0 <= s < CACHESZ && s != sid :: used[sid] < used[s]
    {
      var i := 0;
      while i < CACHESZ
        invariant 0 <= i <= CACHESZ
        invariant forall j | 0 <= j < i :: !Holds(table[j], key, name)
      {
        if table[i].key.high == key.high && table[i].key.low == key.low && table[i].name == Some(name) {
          assert Holds(table[i], key, name);
          return if Before(stamp, table[i].laststamp) then -1 else i;
        }
        i := i + 1;
      }
      sid := Victim();
    }

    /** What a credential and its verifier have to be, given what is cached. */
    ghost predicate Acceptable(cred: Cred, stamp: Time, now: Time)
      reads table
      requires table.Length == CACHESZ
    {
      match cred
      case FullName(name, key, window, winverf) =>
        && winverf == (window - 1) % TWO_32 && Timely(stamp, now, window)
        && forall i | 0 <= i < CACHESZ :: Holds(table[i], key, name) ==> !Before(stamp, table[i].laststamp)
      case NickName(nick) =>
        && 0 <= ToShort(nick) < CACHESZ && Timely(stamp, now, table[ToShort(nick)].window)
        && !Before(stamp, table[ToShort(nick)].laststamp)
    }

    /** A cached conversation has a later timestamp. */
    ghost predicate Replayed(key: DesKey, name: string, stamp: Time)
      reads table
      requires table.Length == CACHESZ
    {
      exists i | 0 <= i < CACHESZ ::
        table[i].key == key && table[i].name == Some(name) && Before(stamp, table[i].laststamp)
    }

    /** What a credential and its verifier are refused for: bad ones cannot be right, rejected ones ask for new ones. */
    ghost function Refusal(cred: Cred, stamp: Time, now: Time): AuthStat
      reads table
      requires table.Length == CACHESZ
    {
      match cred
      case FullName(name, key, window, winverf) =>
        if !(winverf + 1 == window || (window == 0 && winverf == 0xffff_ffff)) then BadCred
        else if Replayed(key, name, stamp) then RejectedCred
        else if !(0 <= stamp.usec < 1_000_000) then BadVerf
        else if !Timely(stamp, now, window) then BadCred
        else AuthOk
      case NickName(nick) =>
        if nick % 0x1_0000 >= 64 then BadCred
        else
          var entry := table[nick % 0x1_0000];
          if !Timely(stamp, now, entry.window) || Before(stamp, entry.laststamp) then RejectedVerf else AuthOk
    }

    /** The checks of _svcauth_des, once the timestamp is decrypted. */
    method Check(cred: Cred, stamp: Time, now: Time) returns (stat: AuthStat, sid: int, window: word)
      requires Shape()
      ensures stat == AuthOk <==> Acceptable(cred, stamp, now)
      ensures stat == AuthOk ==> 0 <= sid < CACHESZ
      ensures stat == Refusal(cred, stamp, now)
      ensures stat == AuthOk && cred.NickName? ==>
                sid == ToShort(cred.nick) && window == table[sid].window && !Before(stamp, table[sid].laststamp)
      ensures stat == AuthOk && cred.FullName? ==>
                && window == cred.window
                && (Holds(table[sid], cred.key, cred.name) ==> !Before(stamp, table[sid].laststamp))
                && (!Holds(table[sid], cred.key, cred.name) ==>
                      && (forall s | 0 <= s < CACHESZ :: !Holds(table[s], cred.key, cred.name))
                      && forall s | 0 <= s < CACHESZ && s != sid :: used[sid] < used[s])
    {
      sid, window := 0, 0;
      var nick;
      match cred {
        case FullName(name, key, w, winverf) =>
          window := w;
          if winverf != (window - 1) % TWO_32 {
            return BadCred, sid, window;
          }
          sid := Spot(key, name, stamp);
          if sid < 0 {
            return RejectedCred, sid, window;
          }
          nick := false;
        case NickName(n) =>
          sid := ToShort(n);
          if sid < 0 || sid >= CACHESZ {
            return BadCred, sid, window;
          }
          window := table[sid].window;
          nick := true;
      }
      if stamp.usec < 0 || stamp.usec >= USEC_PER_SEC {
        return if nick then RejectedVerf else BadVerf, sid, window;
      }
      if nick && Before(stamp, table[sid].laststamp) {
        return RejectedVerf, sid, window;
      }
      if !Before(Time(now.sec - window, now.usec), stamp) {
        return if nick then RejectedVerf else BadCred, sid, window;
      }
      stat := AuthOk;
    }

    /**
     * _svcauth_des after the timestamp is decrypted: the checks, and for a caller that passes them the
     * commit to the cache. `verifierOk` is whether the reply verifier could be encrypted.
     */
    method Authenticate(cred: Cred, stamp: Time, now: Time, verifierOk: bool) returns (stat: AuthStat, sid: int)
      requires Valid()
      modifies this, table, lru
      ensures Valid()
      ensures stat == AuthOk <==> old(Acceptable(cred, stamp, now)) && verifierOk
      ensures stat == if old(Acceptable(cred, stamp, now)) && !verifierOk then Failed
                      else old(Refusal(cred, stamp, now))
      ensures stat != AuthOk ==> table[..] == old(table[..]) && lru[..] == old(lru[..]) && used == old(used)
      ensures stat == AuthOk ==>
                && 0 <= sid < CACHESZ && lru[0] == sid && used == old(used)[sid := old(clock)]
                && table[sid].laststamp == stamp
                && forall s | 0 <= s < CACHESZ && s != sid :: table[s] == old(table[s])
      ensures log == old(log) +
                     [if stat == AuthOk then Accepted(sid, table[sid].key, table[sid].name, stamp) else Refused(stat)]
      ensures stat == AuthOk && cred.FullName? ==>
                Holds(table[sid], cred.key, cred.name) && table[sid].window == cred.window
      ensures stat == AuthOk && cred.NickName? ==>
                sid == cred.nick % 0x1_0000 && table[sid] == old(table[sid]).(laststamp := stamp)
      // while a slot keeps its conversation, the timestamp in it never decreases
      ensures forall s | 0 <= s < CACHESZ && table[s].key == old(table[s].key) && table[s].name == old(table[s].name) ::
                !Before(table[s].laststamp, old(table[s].laststamp))
      // a new conversation takes the slot whose last use is the longest ago, and no other
      ensures stat == AuthOk && cred.FullName? && !old(Holds(table[sid], cred.key, cred.name)) ==>
                && (forall s | 0 <= s < CACHESZ :: !old(Holds(table[s], cred.key, cred.name)))
                && forall s | 0 <= s < CACHESZ && s != sid :: old(used[sid]) < old(used[s])
    {
      var window;
      stat, sid, window := Check(cred, stamp, now);
      if stat == AuthOk && !verifierOk {
        stat := Failed;
      }
      if stat != AuthOk {
        RefusedKeeps(table[..], used, log, stat);
        log, clock := log + [Refused(stat)], clock + 1;
        return;
      }
      Commit(cred, stamp, sid, window);
    }

    /** Nothing cached makes `stamp` a replay for the conversation that the slot is used for. */
    ghost predicate NoReplay(cred: Cred, stamp: Time, sid: int)
      reads this, table
      requires table.Length == CACHESZ && |used| == CACHESZ && 0 <= sid < CACHESZ
    {
      match cred
      case FullName(name, key, _, _) =>
        if Holds(table[sid], key, name) then !Before(stamp, table[sid].laststamp)
        else
          && (forall s | 0 <= s < CACHESZ :: !Holds(table[s], key, name))
          && forall s | 0 <= s < CACHESZ && s != sid :: used[sid] < used[s]
      case NickName(_) => !Before(stamp, table[sid].laststamp)
    }

    /** The commit of _svcauth_des. */
    method Commit(cred: Cred, stamp: Time, sid: int, window: word)
      requires Valid() && 0 <= sid < CACHESZ && NoReplay(cred, stamp, sid)
      modifies this, table, lru
      ensures Valid() && lru[0] == sid && used == old(used)[sid := old(clock)]
      ensures table[sid] == if cred.FullName? then Session(cred.key, Some(cred.name), window, stamp)
                            else old(table[sid]).(laststamp := stamp)
      ensures forall s | 0 <= s < CACHESZ && s != sid :: table[s] == old(table[s])
      ensures log == old(log) + [Accepted(sid, table[sid].key, table[sid].name, stamp)]
    {
      hide Uses, AllRecalled, Guarded, Permutation, ByLastUse;
      ghost var was := table[..];
      table[sid] := table[sid].(laststamp := stamp);
      Ref(sid);
      if cred.FullName? {
        table[sid] := table[sid].(name := Some(cred.name));
        table[sid] := table[sid].(key := cred.key);
        table[sid] := table[sid].(window := window);
      }
      ghost var e := Accepted(sid, table[sid].key, table[sid].name, stamp);
      UsesSnoc(old(used), log, e);
      AcceptedRecalled(was, old(used), table[..], log, e);
      AcceptedGuarded(was, old(used), log, e);
      log := log + [e];
    }

    /** Until every slot has been used, an earlier timestamp is refused, under the full name and under the nickname. */
    lemma EarlierRefused(i: nat, sid: int, stamp: Time, now: Time, window: word, winverf: word)
      requires Valid() && i < |log| && log[i].Accepted? && log[i].name.Some? && Before(stamp, log[i].stamp)
      requires 0 <= sid < CACHESZ && used[sid] <= i
      ensures !Acceptable(FullName(log[i].name.value, log[i].key, window, winverf), stamp, now)
      ensures forall nick: nat | 0 <= ToShort(nick) < CACHESZ
                                 && Holds(table[ToShort(nick)], log[i].key, log[i].name.value) ::
                !Acceptable(NickName(nick), stamp, now)
    {
      assert Recalled(table[..], used, i, log[i]);
    }
  }

  /** One call of a run, after the timestamp is decrypted. */
  datatype Call = Call(cred: Cred, stamp: Time, now: Time, verifierOk: bool)

  /**
   * Over any run of calls, by full names and nicknames: one that is accepted with an earlier timestamp than one before
   * it on the same conversation has every slot of the table used in between, by at least that many accepted calls.
   */
  method Run(calls: seq<Call>) returns (log: seq<Outcome>)
    ensures |log| == |calls|
    ensures forall i | 0 <= i < |log| && log[i].Accepted? :: log[i].stamp == calls[i].stamp
    ensures forall i | 0 <= i < |log| && log[i].Accepted? && calls[i].cred.FullName? ::
              log[i].key == calls[i].cred.key && log[i].name == Some(calls[i].cred.name)
    ensures forall i, j, sid | 0 <= i < j < |log| && Again(log, i, j) && 0 <= sid < CACHESZ ::
              UsedBetween(log, sid, i, j)
    ensures forall i, j | 0 <= i < j < |log| && Again(log, i, j) ::
              |set k | i < k < j && log[k].Accepted? && 0 <= log[k].sid < CACHESZ| >= CACHESZ
  {
    hide Guarded, Again, UsedBetween;
    var c := new Cache();
    log := [];
    while |log| < |calls|
      invariant |log| <= |calls| && c.Valid() && c.log == log && fresh(c) && fresh(c.table) && fresh(c.lru)
      invariant forall i | 0 <= i < |log| && log[i].Accepted? :: log[i].stamp == calls[i].stamp
      invariant forall i | 0 <= i < |log| && log[i].Accepted? && calls[i].cred.FullName? ::
                  log[i].key == calls[i].cred.key && log[i].name == Some(calls[i].cred.name)
      decreases |calls| - |log|
    {
      var call := calls[|log|];
      var stat, sid := c.Authenticate(call.cred, call.stamp, call.now, call.verifierOk);
      log := log +
        [if stat == AuthOk then Accepted(sid, c.table[sid].key, c.table[sid].name, call.stamp) else Refused(stat)];
    }
    GuardedRun(log);
  }

  lemma GuardedRun(log: seq<Outcome>)
    requires Guarded(log)
    ensures forall i, j, sid | 0 <= i < j < |log| && Again(log, i, j) && 0 <= sid < CACHESZ ::
              UsedBetween(log, sid, i, j)
    ensures forall i, j | 0 <= i < j < |log| && Again(log, i, j) ::
              |set k | i < k < j && log[k].Accepted? && 0 <= log[k].sid < CACHESZ| >= CACHESZ
  {
    hide Again, UsedBetween;
    forall i, j | 0 <= i < j < |log| && Again(log, i, j)
      ensures |set k | i < k < j && log[k].Accepted? && 0 <= log[k].sid < CACHESZ| >= CACHESZ
    {
      ManyBetween(log, i, j, CACHESZ);
    }
  }

  /**
   * Then it can happen: once a new conversation has taken the slot of another, which was the longest unused, any
   * timely timestamp is accepted for that one, also one before its last.
   */
  method EarlierAccepted(c: Cache, sid: int, key: DesKey, name: string, stamp: Time, other: Call, now: Time,
                         window: word)
    returns (stat: AuthStat)
    requires c.Valid() && 0 <= sid < CACHESZ && Holds(c.table[sid], key, name) && Before(stamp, c.table[sid].laststamp)
    requires forall s | 0 <= s < CACHESZ && s != sid :: c.used[sid] < c.used[s]
    requires other.cred.FullName? && c.Acceptable(other.cred, other.stamp, other.now) && other.verifierOk
    requires forall s | 0 <= s < CACHESZ :: !Holds(c.table[s], other.cred.key, other.cred.name)
    requires Timely(stamp, now, window)
    modifies c, c.table, c.lru
    ensures stat == AuthOk
  {
    ghost var table, used := c.table[..], c.used;
    var first, taken := c.Authenticate(other.cred, other.stamp, other.now, other.verifierOk);
    assert !Holds(table[taken], other.cred.key, other.cred.name);
    assert forall s | 0 <= s < CACHESZ && s != taken :: used[taken] < used[s];
    var again;
    stat, again := c.Authenticate(FullName(name, key, window, (window - 1) % TWO_32), stamp, now, true);
  }
}
