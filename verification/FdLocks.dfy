/**
 * The per-descriptor locks of the clients (clnt_fd_locks.h, without
 * preallocation) and their use by the connection client (clnt_vc.c), as steps
 * of any number of threads over one mutex.
 */
module FdLocks {
  import opened Bytes

  /** A lock item. `id` stands for its address; no address is used twice. */
  datatype Item = Item(id: nat, refs: nat, active: bool)

  /**
   * A reference to a lock item: a handle, one still being made, or one that
   * could not be made and whose reference nobody gives back.
   */
  datatype Status = Pending | Live | Leaked
  datatype Handle = Handle(fd: int, id: nat, status: Status)

  datatype Operation = Call | FreeResult | Destroy   // Call: also control

  /** Where a thread is. From Tests on to the end of FreeResult and Destroy it holds the mutex. */
  datatype Pc =
    | Idle
    | Opening(fd: int)
    | Connecting(h: nat)
    | Wants(op: Operation, h: nat)     // before the mutex, or in cond_wait
    | Tests(op: Operation, h: nat)     // at the test of `active`
    | Calls(h: nat)
    | Frees(h: nat)
    | Destroys(h: nat)
    | Signals(h: nat)                  // after the release of the lock
  {
    predicate HoldsMutex() { Tests? || Frees? || Destroys? }
    predicate Inside() { Calls? || Frees? || Destroys? }
    predicate Uses() { Wants? || Tests? || Calls? || Frees? || Destroys? || Signals? }
    predicate Refers() { Uses() || Connecting? }
    predicate Keeps() { Connecting? || Tests? || Calls? || Frees? || Destroys? }

    predicate Destroying() { Destroys? || ((Wants? || Tests?) && op == Destroy) }

    /** No other thread may refer to this thread's handle. */
    predicate Owns() { Connecting? || Destroying() }
  }

  datatype State = State(
    items: map<int, Item>,             // the list: one item for a descriptor
    handles: map<nat, Handle>,
    next: nat,                         // ids from here on are unused
    mutex: Option<nat>,
    threads: seq<Pc>)

  /** fd_lock_create and fd_lock_destroy. */
  function Acquire(items: map<int, Item>, next: nat, fd: int): map<int, Item> {
    if fd in items then items[fd := items[fd].(refs := items[fd].refs + 1)]
    else items[fd := Item(next, 1, false)]
  }

  function Release(items: map<int, Item>, fd: int): map<int, Item>
    requires fd in items && items[fd].refs > 0
  {
    var refs := items[fd].refs - 1;
    if refs <= 0 then items - {fd} else items[fd := items[fd].(refs := refs)]
  }

  // ---------- The steps ----------

  /** Go is the next step of a thread's own program, Fail a failed connect. */
  datatype Action = Open(fd: int) | Begin(op: Operation, h: nat) | Go | Fail

  ghost predicate Dangling(s: State, t: nat) {
    t < |s.threads| && s.threads[t].Refers() &&
    !(s.threads[t].h in s.handles && Pointed(s.items, s.handles[s.threads[t].h]))
  }

  predicate Pointed(items: map<int, Item>, x: Handle) {
    x.fd in items && items[x.fd].id == x.id && items[x.fd].refs > 0
  }

  ghost predicate Enabled(s: State, t: nat, a: Action) {
    && t < |s.threads|
    && !Dangling(s, t)
    && match s.threads[t]
       case Idle => a.Open? || (a.Begin? && a.h in s.handles && s.handles[a.h].status == Live)
       case Connecting(_) => a == Go || a == Fail
       case Tests(_, _) => a == Go
       case Frees(_) => a == Go
       case Destroys(_) => a == Go
       case Signals(_) => a == Go
       case _ => a == Go && s.mutex == None
  }

  function Pointee(s: State, h: nat): Item
    requires h in s.handles && Pointed(s.items, s.handles[h])
  {
    s.items[s.handles[h].fd]
  }

  function SetActive(s: State, h: nat, active: bool): State
    requires h in s.handles && Pointed(s.items, s.handles[h])
  {
    var fd := s.handles[h].fd;
    s.(items := s.items[fd := s.items[fd].(active := active)])
  }

  function At(s: State, t: nat, pc: Pc): State
    requires t < |s.threads|
  {
    s.(threads := s.threads[t := pc])
  }

  function Step(s: State, t: nat, a: Action): State
    requires Enabled(s, t, a)
  {
    match s.threads[t]
    case Idle => At(s, t, if a.Open? then Opening(a.fd) else Wants(a.op, a.h))
    case Opening(fd) =>
      var items := Acquire(s.items, s.next, fd);
      At(s.(items := items, handles := s.handles[s.next := Handle(fd, items[fd].id, Pending)], next := s.next + 1),
         t, Connecting(s.next))
    case Connecting(h) =>
      At(s.(handles := s.handles[h := s.handles[h].(status := if a == Go then Live else Leaked)]), t, Idle)
    case Wants(op, h) => At(s.(mutex := Some(t)), t, Tests(op, h))
    case Tests(op, h) =>
      if Pointee(s, h).active then At(s.(mutex := None), t, Wants(op, h))
      else (
        match op
        case Call => At(SetActive(s, h, true).(mutex := None), t, Calls(h))
        case FreeResult => At(s, t, Frees(h))
        case Destroy => At(s, t, Destroys(h))
      )
    case Calls(h) => At(SetActive(s, h, false), t, Signals(h))
    case Frees(h) => At(s.(mutex := None), t, Signals(h))
    case Destroys(h) =>
      At(s.(items := Release(s.items, s.handles[h].fd), handles := s.handles - {h}, mutex := None), t, Idle)
    case Signals(h) => At(s, t, Idle)
  }

  // ---------- The invariant ----------

  function OnFd(handles: map<nat, Handle>, fd: int): set<nat> {
    set h | h in handles && handles[h].fd == fd
  }

  ghost predicate Mutexed(s: State) {
    forall t: nat :: s.mutex == Some(t) <==> t < |s.threads| && s.threads[t].HoldsMutex()
  }

  ghost predicate Counted(items: map<int, Item>, handles: map<nat, Handle>, next: nat) {
    && (forall h <- handles :: h < next && Pointed(items, handles[h]))
    && (forall fd <- items :: items[fd].refs == |OnFd(handles, fd)| > 0)
  }

  /**
   * What every thread has, however careless the callers: a handle, while it
   * makes it, holds the mutex for it or is in a call on it.
   */
  ghost predicate Held(s: State) {
    && (forall t | 0 <= t < |s.threads| && s.threads[t].Keeps() ::
          && s.threads[t].h in s.handles
          && s.handles[s.threads[t].h].status == if s.threads[t].Connecting? then Pending else Live)
    && (forall t | 0 <= t < |s.threads| && s.threads[t].Uses() ::
          && s.threads[t].h < s.next
          && (s.threads[t].h in s.handles ==> s.handles[s.threads[t].h].status == Live))
    && (forall t, u | 0 <= t < |s.threads| && 0 <= u < |s.threads| && t != u
                      && s.threads[t].Connecting? && s.threads[u].Connecting? ::
          s.threads[t].h != s.threads[u].h)
  }

  /**
   * What careful callers add: no handle in use is gone, and none is used while
   * it is being made or destroyed.
   */
  ghost predicate Referring(s: State) {
    && (forall t | 0 <= t < |s.threads| && s.threads[t].Uses() :: s.threads[t].h in s.handles)
    && (forall t, u | 0 <= t < |s.threads| && 0 <= u < |s.threads| && t != u
                      && s.threads[t].Owns() && s.threads[u].Refers() ::
          s.threads[t].h != s.threads[u].h)
  }

  function Fd(s: State, t: nat): int
    requires t < |s.threads| && s.threads[t].Refers() && s.threads[t].h in s.handles
  {
    s.handles[s.threads[t].h].fd
  }

  /** An item is active exactly while one thread is in a call on its descriptor. */
  ghost predicate CallOn(s: State, t: nat, fd: int) {
    && t < |s.threads| && s.threads[t].Calls? && s.threads[t].h in s.handles
    && Fd(s, t) == fd
  }

  ghost predicate Flagged(s: State) {
    forall fd <- s.items :: s.items[fd].active <==> exists t :: CallOn(s, t, fd)
  }

  ghost predicate OneCall(s: State) {
    forall t, u, fd | CallOn(s, t, fd) && CallOn(s, u, fd) :: t == u
  }

  /** No call is in progress beside an operation that keeps the mutex. */
  ghost predicate Quiet(s: State) {
    forall t | 0 <= t < |s.threads| && (s.threads[t].Frees? || s.threads[t].Destroys?)
               && s.threads[t].h in s.handles && Fd(s, t) in s.items :: !s.items[Fd(s, t)].active
  }

  /** What every run keeps. */
  ghost predicate Base(s: State) {
    Mutexed(s) && Counted(s.items, s.handles, s.next) && Held(s) && Flagged(s) && OneCall(s) && Quiet(s)
  }

  /** What runs with careful callers keep. */
  ghost predicate Inv(s: State) { Base(s) && Referring(s) }

  /**
   * What the clients' callers owe: a handle is destroyed only while no other
   * thread uses it, and not used once its destruction has begun.
   */
  ghost predicate Careful(s: State, a: Action) {
    a.Begin? ==> forall u | 0 <= u < |s.threads| && s.threads[u].Refers() && s.threads[u].h == a.h ::
                   a.op != Destroy && !s.threads[u].Owns()
  }

  lemma NoneDangles(s: State, t: nat)
    requires Inv(s)
    ensures !Dangling(s, t)
  {}

  /** At most one operation is inside a descriptor's critical section. */
  lemma Exclusion(s: State, t: nat, u: nat)
    requires Base(s) && t < |s.threads| && u < |s.threads| && t != u
    requires s.threads[t].Inside() && s.threads[u].Inside()
    ensures s.threads[t].h in s.handles && s.threads[u].h in s.handles && Fd(s, t) != Fd(s, u)
  {
    assert s.threads[t].Calls? ==> CallOn(s, t, Fd(s, t));
    assert s.threads[u].Calls? ==> CallOn(s, u, Fd(s, u));
  }

  // ---------- Every step keeps the invariant ----------

  lemma MutexedKept(s: State, t: nat, a: Action)
    requires Base(s) && Enabled(s, t, a)
    ensures Mutexed(Step(s, t, a))
  {
    hide Counted, Held, Flagged, OneCall, Quiet;
    var r := Step(s, t, a);
    forall u: nat ensures r.mutex == Some(u) <==> u < |r.threads| && r.threads[u].HoldsMutex() {
      assert s.mutex == Some(u) <==> u < |s.threads| && s.threads[u].HoldsMutex();
    }
  }

  /** How a step changes what its thread refers to. */
  lemma StepRefers(s: State, t: nat, a: Action)
    requires Base(s) && Enabled(s, t, a)
    ensures var r, was, now := Step(s, t, a), s.threads[t], Step(s, t, a).threads[t];
            && |r.threads| == |s.threads| && (forall u | 0 <= u < |s.threads| && u != t :: r.threads[u] == s.threads[u])
            && (now.Connecting? ==> was.Opening? && now.h == s.next)
            && (now.Uses() ==> if was.Idle? then a.Begin? && now.h == a.h && (now.Owns() ==> a.op == Destroy)
                               else was.Uses() && now.h == was.h && (now.Owns() ==> was.Owns()))
            && (now.Uses() ==> now.h in s.handles && s.handles[now.h].status == Live)
  {
    hide Mutexed, Flagged, OneCall, Quiet, Acquire, Release;
  }

  /** And how it changes the handles. */
  lemma StepHandles(s: State, t: nat, a: Action)
    requires Base(s) && Enabled(s, t, a)
    ensures var r, was, now := Step(s, t, a), s.threads[t], Step(s, t, a).threads[t];
            && (forall h <- s.handles :: h in r.handles || (was.Destroys? && h == was.h))
            && (forall h <- s.handles ::
                  h in r.handles ==> r.handles[h] == s.handles[h] || (was.Connecting? && h == was.h))
            && (was.Opening? ==> s.next !in s.handles && s.next in r.handles && r.handles[s.next].status == Pending)
            && s.next <= r.next && (now.Connecting? ==> s.next < r.next)
            && (forall h <- r.handles :: h in s.handles || (was.Opening? && h == s.next))
  {
    hide Mutexed, Flagged, OneCall, Quiet, Held, Acquire, Release;
  }

  /** A handle that is being destroyed is kept by no other thread. */
  lemma KeptElsewhere(s: State, t: nat, u: nat)
    requires Base(s) && t < |s.threads| && u < |s.threads| && t != u
    requires s.threads[t].Destroys? && s.threads[u].Keeps()
    ensures s.threads[u].h != s.threads[t].h
  {
    assert s.threads[u].HoldsMutex() ==> s.mutex == Some(u);
    assert s.threads[u].Calls? ==> CallOn(s, u, Fd(s, u));
    assert Pointed(s.items, s.handles[s.threads[t].h]);
  }

  lemma HeldKept(s: State, t: nat, a: Action)
    requires Base(s) && Enabled(s, t, a)
    ensures Held(Step(s, t, a))
  {
    StepRefers(s, t, a);
    StepHandles(s, t, a);
    if s.threads[t].Destroys? {
      forall u | 0 <= u < |s.threads| && u != t && s.threads[u].Keeps() ensures s.threads[u].h != s.threads[t].h {
        KeptElsewhere(s, t, u);
      }
    }
    hide Mutexed, Flagged, OneCall, Quiet, Step, Enabled;
  }

  lemma ReferringKept(s: State, t: nat, a: Action)
    requires Inv(s) && Enabled(s, t, a) && Careful(s, a)
    ensures Referring(Step(s, t, a))
  {
    StepRefers(s, t, a);
    StepHandles(s, t, a);
    hide Mutexed, Flagged, OneCall, Quiet, Step, Counted;
  }

  lemma OneMoreOnFd(handles: map<nat, Handle>, h: nat, x: Handle, fd: int)
    requires h !in handles
    ensures OnFd(handles[h := x], fd) == if x.fd == fd then OnFd(handles, fd) + {h} else OnFd(handles, fd)
  {}

  lemma AcquireCounts(items: map<int, Item>, handles: map<nat, Handle>, next: nat, fd: int)
    requires Counted(items, handles, next)
    ensures var now := Acquire(items, next, fd);
            Counted(now, handles[next := Handle(fd, now[fd].id, Pending)], next + 1)
  {
    var now := Acquire(items, next, fd);
    var x := Handle(fd, now[fd].id, Pending);
    assert forall h <- handles :: Pointed(items, handles[h]);
    assert fd !in items ==> OnFd(handles, fd) == {};
    assert next !in OnFd(handles, fd);
    forall f <- now ensures now[f].refs == |OnFd(handles[next := x], f)| > 0 {
      OneMoreOnFd(handles, next, x, f);
    }
    hide OnFd;
    var more := handles[next := x];
    forall h <- more ensures Pointed(now, more[h]) {}
  }

  lemma ReleaseCounts(items: map<int, Item>, handles: map<nat, Handle>, next: nat, h: nat)
    requires Counted(items, handles, next) && h in handles
    ensures Pointed(items, handles[h]) && Counted(Release(items, handles[h].fd), handles - {h}, next)
  {
    var fd := handles[h].fd;
    var left := OnFd(handles - {h}, fd);
    assert left == OnFd(handles, fd) - {h};
    assert |left| == items[fd].refs - 1;
    forall f <- items | f != fd ensures OnFd(handles - {h}, f) == OnFd(handles, f) {}
    forall g <- handles - {h} ensures Pointed(Release(items, fd), handles[g]) {
      assert Pointed(items, handles[g]);
      if handles[g].fd == fd {
        assert g in left;
        assert |left| > 0;
      }
    }
  }

  lemma StatusCounts(items: map<int, Item>, handles: map<nat, Handle>, next: nat, h: nat, status: Status)
    requires Counted(items, handles, next) && h in handles
    ensures Counted(items, handles[h := handles[h].(status := status)], next)
  {
    forall fd <- items ensures OnFd(handles[h := handles[h].(status := status)], fd) == OnFd(handles, fd) {}
  }

  lemma CountedKept(s: State, t: nat, a: Action)
    requires Base(s) && Enabled(s, t, a)
    ensures var r := Step(s, t, a); Counted(r.items, r.handles, r.next)
  {
    hide Mutexed, Flagged, OneCall, Quiet, Acquire, Release, OnFd;
    match s.threads[t] {
      case Opening(fd) => AcquireCounts(s.items, s.handles, s.next, fd);
      case Connecting(h) => StatusCounts(s.items, s.handles, s.next, h, if a == Go then Live else Leaked);
      case Destroys(h) => ReleaseCounts(s.items, s.handles, s.next, h);
      case _ =>
    }
  }

  /** A step changes the calls of its own thread only. */
  lemma OthersCall(s: State, t: nat, a: Action)
    requires Base(s) && Enabled(s, t, a)
    ensures var r := Step(s, t, a);
            forall u, fd | u != t :: CallOn(r, u, fd) <==> CallOn(s, u, fd)
  {
    StepRefers(s, t, a);
    StepHandles(s, t, a);
    if s.threads[t].Destroys? {
      forall u | 0 <= u < |s.threads| && u != t && s.threads[u].Keeps() ensures s.threads[u].h != s.threads[t].h {
        KeptElsewhere(s, t, u);
      }
    }
    hide Step, Mutexed, Flagged, OneCall, Quiet, Counted;
  }

  /** How a step changes the flag `active`. */
  lemma StepActive(s: State, t: nat, a: Action)
    requires Base(s) && Enabled(s, t, a)
    ensures var r, was, now := Step(s, t, a), s.threads[t], Step(s, t, a).threads[t];
            && (now.Inside() ==>
                  was.Tests? && now.h == was.h && r.handles == s.handles
                  && r.items.Keys == s.items.Keys && !s.items[s.handles[was.h].fd].active)
            && (forall fd <- r.items ::
                  if now.Calls? && fd == s.handles[was.h].fd then r.items[fd].active
                  else if was.Calls? && fd == s.handles[was.h].fd then !r.items[fd].active
                  else r.items[fd].active <==> fd in s.items && s.items[fd].active)
  {
    hide Flagged, OneCall, Quiet, Mutexed, OnFd;
  }

  lemma FlaggedKept(s: State, t: nat, a: Action)
    requires Base(s) && Enabled(s, t, a)
    ensures Flagged(Step(s, t, a))
  {
    OthersCall(s, t, a);
    StepActive(s, t, a);
    hide OnFd, Step, Mutexed, Quiet, Enabled, Referring;
    var r := Step(s, t, a);
    forall fd <- r.items ensures r.items[fd].active <==> exists u :: CallOn(r, u, fd) {
      if r.threads[t].Calls? && fd == s.handles[s.threads[t].h].fd {
        assert CallOn(r, t, fd);
      } else if s.threads[t].Calls? && fd == s.handles[s.threads[t].h].fd {
        assert CallOn(s, t, fd);
      } else {
        assert !CallOn(s, t, fd) && !CallOn(r, t, fd);
        assert forall u :: CallOn(r, u, fd) <==> CallOn(s, u, fd);
      }
    }
  }

  lemma OneCallKept(s: State, t: nat, a: Action)
    requires Base(s) && Enabled(s, t, a)
    ensures OneCall(Step(s, t, a))
  {
    OthersCall(s, t, a);
    StepActive(s, t, a);
    hide OnFd, Step, Mutexed, Quiet, Enabled, Referring;
    var r := Step(s, t, a);
    forall u: nat, fd | CallOn(s, u, fd) ensures fd in s.items && s.items[fd].active {
      assert Pointed(s.items, s.handles[s.threads[u].h]);
    }
    assert forall u, fd | CallOn(r, u, fd) && u != t :: CallOn(s, u, fd);
  }

  lemma QuietKept(s: State, t: nat, a: Action)
    requires Base(s) && Enabled(s, t, a)
    ensures Quiet(Step(s, t, a))
  {
    StepActive(s, t, a);
    StepRefers(s, t, a);
    StepHandles(s, t, a);
    hide OnFd, Flagged, OneCall, Counted;
  }

  /** Every step keeps what does not depend on the callers. */
  lemma BaseKept(s: State, t: nat, a: Action)
    requires Base(s) && Enabled(s, t, a)
    ensures Base(Step(s, t, a))
  {
    MutexedKept(s, t, a);
    CountedKept(s, t, a);
    HeldKept(s, t, a);
    FlaggedKept(s, t, a);
    OneCallKept(s, t, a);
    QuietKept(s, t, a);
    hide Step, Mutexed, Counted, Held, Flagged, OneCall, Quiet;
  }

  lemma StepKeeps(s: State, t: nat, a: Action)
    requires Inv(s) && Enabled(s, t, a) && Careful(s, a)
    ensures Inv(Step(s, t, a))
  {
    BaseKept(s, t, a);
    ReferringKept(s, t, a);
    hide Step, Base, Referring;
  }

  // ---------- Runs ----------

  datatype Event = Event(t: nat, a: Action)

  function Start(threads: nat): State { State(map[], map[], 0, None, seq(threads, _ => Idle)) }

  /** A run, of any callers or of careful ones. */
  ghost predicate IsRun(s: State, run: seq<Event>, careful: bool)
    decreases |run|
  {
    run != [] ==>
      && Enabled(s, run[0].t, run[0].a) && (careful ==> Careful(s, run[0].a))
      && IsRun(Step(s, run[0].t, run[0].a), run[1..], careful)
  }

  function Run(s: State, run: seq<Event>): State
    requires IsRun(s, run, false)
    decreases |run|
  {
    if run == [] then s else Run(Step(s, run[0].t, run[0].a), run[1..])
  }

  lemma {:induction false} RunKeeps(s: State, run: seq<Event>, careful: bool)
    requires IsRun(s, run, careful) && if careful then Inv(s) else Base(s)
    ensures IsRun(s, run, false) && if careful then Inv(Run(s, run)) else Base(Run(s, run))
    decreases |run|
  {
    if run != [] {
      var r := Step(s, run[0].t, run[0].a);
      if careful { StepKeeps(s, run[0].t, run[0].a); } else { BaseKept(s, run[0].t, run[0].a); }
      RunKeeps(r, run[1..], careful);
    }
  }

  lemma StartKeeps(threads: nat)
    ensures Inv(Start(threads))
  {}

  /**
   * Any number of threads, any callers, any interleaving: every handle's item
   * is in the list, with one reference for each handle on the descriptor, and
   * critical sections of one descriptor never overlap.
   */
  lemma {:induction false} Safe(threads: nat, run: seq<Event>)
    requires IsRun(Start(threads), run, false)
    ensures var s := Run(Start(threads), run);
            && (forall h <- s.handles :: Pointed(s.items, s.handles[h]))
            && (forall fd <- s.items :: s.items[fd].refs == |OnFd(s.handles, fd)|)
            && (forall t, u | 0 <= t < u < |s.threads| && s.threads[t].Inside() && s.threads[u].Inside() ::
                  s.threads[t].h in s.handles && s.threads[u].h in s.handles && Fd(s, t) != Fd(s, u))
  {
    StartKeeps(threads);
    RunKeeps(Start(threads), run, false);
    var s := Run(Start(threads), run);
    hide Run, IsRun;
    forall t, u | 0 <= t < u < |s.threads| && s.threads[t].Inside() && s.threads[u].Inside()
      ensures s.threads[t].h in s.handles && s.threads[u].h in s.handles && Fd(s, t) != Fd(s, u)
    {
      Exclusion(s, t, u);
    }
  }

  // ---------- Care ----------

  /**
   * From `s` on, threads that only go on with what they are doing can leave one
   * of them with a handle that is gone.
   */
  ghost predicate CanDangle(s: State) { exists run, u :: LeavesDangling(s, run, u) }

  ghost predicate LeavesDangling(s: State, run: seq<Event>, u: nat) {
    (forall e <- run :: e.a == Go) && IsRun(s, run, false) && Dangling(Run(s, run), u)
  }

  lemma DanglesNow(s: State, u: nat)
    requires Dangling(s, u)
    ensures CanDangle(s)
  {
    assert LeavesDangling(s, [], u);
  }

  lemma DanglesLater(s: State, t: nat)
    requires Enabled(s, t, Go) && CanDangle(Step(s, t, Go))
    ensures CanDangle(s)
  {
    var run, u :| LeavesDangling(Step(s, t, Go), run, u);
    var longer := [Event(t, Go)] + run;
    assert longer[1..] == run;
    assert LeavesDangling(s, longer, u);
  }

  lemma {:induction false} GoingOnIsCareful(s: State, run: seq<Event>)
    requires IsRun(s, run, false) && forall e <- run :: e.a == Go
    ensures IsRun(s, run, true)
    decreases |run|
  {
    if run != [] { GoingOnIsCareful(Step(s, run[0].t, run[0].a), run[1..]); }
  }

  /** `d` is to destroy the handle that `v` refers to. */
  ghost predicate Doomed(s: State, d: nat, v: nat, h: nat) {
    && d < |s.threads| && v < |s.threads| && d != v && h in s.handles
    && (s.threads[d] == Wants(Destroy, h) || s.threads[d] == Tests(Destroy, h) || s.threads[d] == Destroys(h))
    && s.threads[v].Uses() && s.threads[v].h == h
  }

  /** The destroyer is about to. */
  lemma DoomedAtOnce(s: State, d: nat, v: nat, h: nat)
    requires Base(s) && Doomed(s, d, v, h) && s.threads[d] == Destroys(h)
    ensures CanDangle(s)
  {
    assert Pointed(s.items, s.handles[h]);
    DanglesNow(Step(s, d, Go), v);
    DanglesLater(s, d);
  }

  /** The lock is free. */
  lemma DoomedUnlocked(s: State, d: nat, v: nat, h: nat)
    requires Base(s) && Doomed(s, d, v, h) && s.mutex == None
    requires Pointed(s.items, s.handles[h]) && !Pointee(s, h).active
    ensures CanDangle(s)
  {
    assert !s.threads[d].HoldsMutex();
    var s1 := Step(s, d, Go);
    BaseKept(s, d, Go);
    var s2 := Step(s1, d, Go);
    BaseKept(s1, d, Go);
    DoomedAtOnce(s2, d, v, h);
    DanglesLater(s1, d);
    DanglesLater(s, d);
  }

  /** Nobody holds the mutex: a call that holds the lock releases it. */
  lemma DoomedUnheld(s: State, d: nat, v: nat, h: nat)
    requires Base(s) && Doomed(s, d, v, h) && s.mutex == None
    ensures CanDangle(s)
  {
    assert Pointed(s.items, s.handles[h]);
    assert !s.threads[d].HoldsMutex();
    if Pointee(s, h).active {
      var fd := s.handles[h].fd;
      var x: nat :| CallOn(s, x, fd);
      assert Pointed(s.items, s.handles[s.threads[x].h]);
      BaseKept(s, x, Go);
      DoomedUnlocked(Step(s, x, Go), d, v, h);
      DanglesLater(s, x);
    } else {
      DoomedUnlocked(s, d, v, h);
    }
  }

  /** The mutex is held by a thread that frees results. */
  lemma DoomedFreeing(s: State, d: nat, v: nat, h: nat, w: nat)
    requires Base(s) && Doomed(s, d, v, h) && w < |s.threads| && s.threads[w].Frees?
    ensures CanDangle(s)
  {
    assert Pointed(s.items, s.handles[s.threads[w].h]);
    BaseKept(s, w, Go);
    DoomedUnheld(Step(s, w, Go), d, v, h);
    DanglesLater(s, w);
  }

  /** The mutex is held by another thread that destroys a handle. */
  lemma DoomedTearing(s: State, d: nat, v: nat, h: nat, w: nat)
    requires Base(s) && Doomed(s, d, v, h) && w < |s.threads| && w != d && s.threads[w].Destroys?
    ensures CanDangle(s)
  {
    assert Pointed(s.items, s.handles[s.threads[w].h]);
    BaseKept(s, w, Go);
    var r := Step(s, w, Go);
    if s.threads[w].h == h {
      DanglesNow(r, d);
    } else {
      DoomedUnheld(r, d, v, h);
    }
    DanglesLater(s, w);
  }

  /** A test of the lock leads to the work, or back to the wait without the mutex. */
  lemma TestGoesOn(s: State, d: nat, v: nat, h: nat, w: nat)
    requires Base(s) && Doomed(s, d, v, h) && w < |s.threads| && s.threads[w].Tests?
    ensures Enabled(s, w, Go)
    ensures var r := Step(s, w, Go);
            && Doomed(r, d, v, h) && w < |r.threads|
            && (r.threads[w].Frees? || r.threads[w].Destroys? || r.mutex == None)
            && (w == d && r.threads[w].Destroys? ==> r.threads[w] == Destroys(h))
  {
    assert Pointed(s.items, s.handles[s.threads[w].h]);
    hide Counted, Flagged, OneCall, Quiet, OnFd;
  }

  /** The mutex is held by a thread that tests the lock. */
  lemma DoomedTesting(s: State, d: nat, v: nat, h: nat, w: nat)
    requires Base(s) && Doomed(s, d, v, h) && w < |s.threads| && s.threads[w].Tests?
    ensures CanDangle(s)
  {
    TestGoesOn(s, d, v, h, w);
    BaseKept(s, w, Go);
    hide Base, CanDangle, Pointed, Step, Doomed, Enabled;
    var r := Step(s, w, Go);
    if r.threads[w].Frees? {
      DoomedFreeing(r, d, v, h, w);
    } else if r.threads[w].Destroys? {
      if w == d { DoomedAtOnce(r, d, v, h); } else { DoomedTearing(r, d, v, h, w); }
    } else {
      DoomedUnheld(r, d, v, h);
    }
    DanglesLater(s, w);
  }

  lemma DoomedDangles(s: State, d: nat, v: nat, h: nat)
    requires Base(s) && Doomed(s, d, v, h)
    ensures CanDangle(s)
  {
    if s.mutex == None {
      DoomedUnheld(s, d, v, h);
    } else {
      var w := s.mutex.value;
      assert w < |s.threads| && s.threads[w].HoldsMutex();
      match s.threads[w] {
        case Tests(_, _) => DoomedTesting(s, d, v, h, w);
        case Frees(_) => DoomedFreeing(s, d, v, h, w);
        case Destroys(_) => if w == d { DoomedAtOnce(s, d, v, h); } else { DoomedTearing(s, d, v, h, w); }
      }
    }
  }

  /** In every state of the run, and at its end, no thread can be left with a handle that is gone. */
  ghost predicate NeverDoomed(s: State, run: seq<Event>)
    requires IsRun(s, run, false)
    decreases |run|
  {
    !CanDangle(s) && (run != [] ==> NeverDoomed(Step(s, run[0].t, run[0].a), run[1..]))
  }

  /**
   * Care is exactly what is needed: a run is one of careful callers if and only
   * if none of its states lets a thread be left with a handle that is gone,
   * though nobody does more than what has begun.
   */
  lemma {:induction false} CareNeeded(threads: nat, run: seq<Event>)
    requires IsRun(Start(threads), run, false)
    ensures IsRun(Start(threads), run, true) <==> NeverDoomed(Start(threads), run)
    ensures IsRun(Start(threads), run, true) ==> forall u: nat :: !Dangling(Run(Start(threads), run), u)
  {
    StartKeeps(threads);
    CareNeededFrom(Start(threads), run);
    if IsRun(Start(threads), run, true) {
      RunKeeps(Start(threads), run, true);
      forall u: nat ensures !Dangling(Run(Start(threads), run), u) {
        NoneDangles(Run(Start(threads), run), u);
      }
    }
  }

  lemma {:induction false} CareNeededFrom(s: State, run: seq<Event>)
    requires Inv(s) && IsRun(s, run, false)
    ensures IsRun(s, run, true) <==> NeverDoomed(s, run)
    decreases |run|
  {
    hide Base, Referring, CanDangle, Careful, Step, Enabled;
    CarefulNeverDangles(s);
    if run != [] {
      var t, a := run[0].t, run[0].a;
      if Careful(s, a) {
        StepKeeps(s, t, a);
        CareNeededFrom(Step(s, t, a), run[1..]);
      } else {
        CarelessDooms(s, t, a);
      }
    }
  }

  /** In any run, a step that is not careful lets a thread be left with a handle that is gone. */
  lemma CarelessDooms(s: State, t: nat, a: Action)
    requires Base(s) && Enabled(s, t, a) && !Careful(s, a)
    ensures CanDangle(Step(s, t, a))
  {
    BaseKept(s, t, a);
    hide CanDangle, Mutexed, Counted, Flagged, OneCall, Quiet;
    var u :| 0 <= u < |s.threads| && s.threads[u].Refers() && s.threads[u].h == a.h
             && (a.op == Destroy || s.threads[u].Owns());
    assert s.threads[u].Uses();
    if a.op == Destroy {
      DoomedDangles(Step(s, t, a), t, u, a.h);
    } else {
      DoomedDangles(Step(s, t, a), u, t, a.h);
    }
  }

  lemma CarefulNeverDangles(s: State)
    requires Inv(s)
    ensures !CanDangle(s)
  {
    forall run, u ensures !LeavesDangling(s, run, u) {
      if LeavesDangling(s, run, u) {
        GoingOnIsCareful(s, run);
        RunKeeps(s, run, true);
        NoneDangles(Run(s, run), u);
      }
    }
  }

  // ---------- What becomes of a handle ----------

  /** What a thread's last actions were about: a descriptor it opened, or the handle it then made. */
  datatype Making = Nothing | Opened(fd: int) | Made(h: nat)

  /**
   * A run told by its actions alone: what each thread is making, how many handles were made, for which descriptor
   * each, and which connects went on or failed.
   */
  datatype Story = Story(making: seq<Making>, fds: seq<int>, connected: set<nat>, failed: set<nat>)

  function Tell(story: Story, e: Event): Story {
    if e.t >= |story.making| then story
    else
      match (story.making[e.t], e.a)
      case (_, Open(fd)) => story.(making := story.making[e.t := Opened(fd)])
      case (Opened(fd), Go) => story.(making := story.making[e.t := Made(|story.fds|)], fds := story.fds + [fd])
      case (Made(h), Go) => story.(making := story.making[e.t := Nothing], connected := story.connected + {h})
      case (Made(h), Fail) => story.(making := story.making[e.t := Nothing], failed := story.failed + {h})
      case (_, _) => story
  }

  function Told(threads: nat, run: seq<Event>): Story {
    if run == [] then Story(seq(threads, _ => Nothing), [], {}, {})
    else Tell(Told(threads, run[..|run| - 1]), run[|run| - 1])
  }

  /** The state tells the same story: what threads make, and the handles that were made and are not destroyed. */
  ghost predicate Fits(s: State, story: Story) {
    && |story.making| == |s.threads| && |story.fds| == s.next
    && (forall t | 0 <= t < |s.threads| :: FitsThread(s.threads[t], story.making[t]))
    && (forall h <- s.handles :: h < s.next && FitsHandle(s.handles[h], story, h))
  }

  ghost predicate FitsThread(pc: Pc, m: Making) {
    match m
    case Nothing => !pc.Opening? && !pc.Connecting?
    case Opened(fd) => pc == Opening(fd)
    case Made(h) => pc == Connecting(h)
  }

  ghost predicate FitsHandle(x: Handle, story: Story, h: nat)
    requires h < |story.fds|
  {
    && x.fd == story.fds[h]
    && (x.status == Live <==> h in story.connected)
    && (x.status == Leaked <==> h in story.failed)
  }

  /** Connects are of handles made before, and go on or fail once. */
  ghost predicate Sensible(s: State, story: Story) {
    && (forall h <- story.connected :: h < s.next && h !in story.failed)
    && (forall h <- story.failed :: h < s.next && h in s.handles)
  }

  lemma StepFits(s: State, story: Story, t: nat, a: Action)
    requires Base(s) && Enabled(s, t, a) && Fits(s, story) && Sensible(s, story)
    ensures Fits(Step(s, t, a), Tell(story, Event(t, a)))
  {
    hide Mutexed, Flagged, OneCall, Quiet, OnFd, Acquire, Release;
    assert FitsThread(s.threads[t], story.making[t]);
  }

  lemma StepSensible(s: State, story: Story, t: nat, a: Action)
    requires Base(s) && Enabled(s, t, a) && Fits(s, story) && Sensible(s, story)
    ensures Sensible(Step(s, t, a), Tell(story, Event(t, a)))
  {
    hide Mutexed, Flagged, OneCall, Quiet, OnFd, Acquire, Release;
    assert FitsThread(s.threads[t], story.making[t]);
  }

  /** No thread begins anything on a handle that did not connect, and only what was begun destroys. */
  ghost predicate Begun(s: State, story: Story, run: seq<Event>) {
    && (forall e <- run | e.a.Begin? :: e.a.h in story.connected)
    && (forall t | 0 <= t < |s.threads| && s.threads[t].Destroying() :: DestroyBegun(run, s.threads[t].h))
    && (forall h <- story.connected :: h in s.handles || DestroyBegun(run, h))
  }

  ghost predicate DestroyBegun(run: seq<Event>, h: nat) {
    exists e <- run :: e.a == Begin(Destroy, h)
  }

  lemma BegunKept(s: State, story: Story, run: seq<Event>, e: Event)
    requires Base(s) && Enabled(s, e.t, e.a) && Fits(s, story) && Begun(s, story, run)
    ensures Begun(Step(s, e.t, e.a), Tell(story, e), run + [e])
  {
    hide Mutexed, Flagged, OneCall, Quiet, Counted, OnFd, Acquire, Release;
    var r, told, more := Step(s, e.t, e.a), Tell(story, e), run + [e];
    assert FitsThread(s.threads[e.t], story.making[e.t]);
    assert forall x <- run :: x in more;
    assert e in more;
    assert forall h | DestroyBegun(run, h) :: DestroyBegun(more, h);
    forall x <- more | x.a.Begin? ensures x.a.h in told.connected {
      if x in run { assert x.a.h in story.connected; } else { assert x == e; }
    }
    forall t | 0 <= t < |r.threads| && r.threads[t].Destroying() ensures DestroyBegun(more, r.threads[t].h) {
      if t != e.t { assert r.threads[t] == s.threads[t]; }
    }
    forall h <- told.connected ensures h in r.handles || DestroyBegun(more, h) {
      if h in story.connected { assert h in s.handles || DestroyBegun(run, h); }
    }
  }

  lemma {:induction false} RunSnoc(s: State, run: seq<Event>)
    requires IsRun(s, run, false) && run != []
    ensures var k := |run| - 1;
            && IsRun(s, run[..k], false) && Enabled(Run(s, run[..k]), run[k].t, run[k].a)
            && Run(s, run) == Step(Run(s, run[..k]), run[k].t, run[k].a)
    decreases |run|
  {
    hide Enabled, Step;
    if |run| > 1 {
      assert run[1..][..|run| - 2] == run[..|run| - 1][1..];
      RunSnoc(Step(s, run[0].t, run[0].a), run[1..]);
    }
  }

  lemma StoryGoesOn(s: State, story: Story, run: seq<Event>, e: Event)
    requires Base(s) && Enabled(s, e.t, e.a) && Fits(s, story) && Sensible(s, story) && Begun(s, story, run)
    ensures var r, told := Step(s, e.t, e.a), Tell(story, e);
            Base(r) && Fits(r, told) && Sensible(r, told) && Begun(r, told, run + [e])
  {
    hide Base, Fits, Sensible, Begun, Step, Enabled, Tell;
    BaseKept(s, e.t, e.a);
    StepFits(s, story, e.t, e.a);
    StepSensible(s, story, e.t, e.a);
    BegunKept(s, story, run, e);
  }

  lemma {:induction false} StoryOfRun(threads: nat, run: seq<Event>)
    requires IsRun(Start(threads), run, false)
    ensures var s, story := Run(Start(threads), run), Told(threads, run);
            Base(s) && Fits(s, story) && Sensible(s, story) && Begun(s, story, run)
    decreases |run|
  {
    StartKeeps(threads);
    if run != [] {
      var k := |run| - 1;
      RunSnoc(Start(threads), run);
      StoryOfRun(threads, run[..k]);
      var s, story := Run(Start(threads), run[..k]), Told(threads, run[..k]);
      assert run == run[..k] + [run[k]];
      hide Base, Fits, Sensible, Begun, Step, Enabled, Run, IsRun, Tell;
      StoryGoesOn(s, story, run[..k], run[k]);
    }
  }

  /**
   * In any run, by any callers: a handle is live exactly when its connect went on and it is there; what connected is
   * there until it is destroyed; what failed to connect stays, and nothing is ever begun on it.
   */
  lemma {:induction false} HandlesOfRun(threads: nat, run: seq<Event>)
    requires IsRun(Start(threads), run, false)
    ensures var s, story := Run(Start(threads), run), Told(threads, run);
            && (forall h <- s.handles ::
                  && h < |story.fds| && s.handles[h].fd == story.fds[h]
                  && (s.handles[h].status == Live <==> h in story.connected)
                  && (s.handles[h].status == Leaked <==> h in story.failed))
            && (forall h <- story.connected :: h in s.handles || DestroyBegun(run, h))
            && (forall h <- story.failed :: h in s.handles && forall e <- run :: e.a.Begin? ==> e.a.h != h)
  {
    StoryOfRun(threads, run);
    hide Run, IsRun, Told, Base, FitsThread;
    var s, story := Run(Start(threads), run), Told(threads, run);
    assert forall h <- s.handles :: FitsHandle(s.handles[h], story, h);
  }

  // ---------- Getting in ----------

  /** What a thread is inside for. */
  function InsideFor(op: Operation, h: nat): Pc {
    match op
    case Call => Calls(h)
    case FreeResult => Frees(h)
    case Destroy => Destroys(h)
  }

  /** Threads that only go on with what they are doing can let `t` in. */
  ghost predicate GetsIn(s: State, t: nat, pc: Pc) { exists run :: LetsIn(s, run, t, pc) }

  ghost predicate LetsIn(s: State, run: seq<Event>, t: nat, pc: Pc) {
    && (forall e <- run :: e.a == Go) && IsRun(s, run, false)
    && t < |Run(s, run).threads| && Run(s, run).threads[t] == pc
  }

  lemma InNow(s: State, t: nat)
    requires t < |s.threads|
    ensures GetsIn(s, t, s.threads[t])
  {
    assert LetsIn(s, [], t, s.threads[t]);
  }

  lemma InLater(s: State, u: nat, t: nat, pc: Pc)
    requires Enabled(s, u, Go) && GetsIn(Step(s, u, Go), t, pc)
    ensures GetsIn(s, t, pc)
  {
    var run :| LetsIn(Step(s, u, Go), run, t, pc);
    var longer := [Event(u, Go)] + run;
    assert longer[1..] == run;
    assert LetsIn(s, longer, t, pc);
  }

  /** With the mutex free and no call on the descriptor, a thread that wants in is in after two steps of its own. */
  lemma TwoSteps(s: State, t: nat, op: Operation, h: nat)
    requires Base(s) && s.mutex == None && t < |s.threads| && s.threads[t] == Wants(op, h) && h in s.handles
    requires forall u: nat :: !CallOn(s, u, s.handles[h].fd)
    ensures Enabled(s, t, Go) && Enabled(Step(s, t, Go), t, Go)
    ensures Step(Step(s, t, Go), t, Go).threads[t] == InsideFor(op, h)
  {
    hide OnFd, Held, OneCall, Quiet, Mutexed;
    assert Pointed(s.items, s.handles[h]);
  }

  lemma InWhenFree(s: State, t: nat, op: Operation, h: nat)
    requires Base(s) && s.mutex == None && t < |s.threads| && s.threads[t] == Wants(op, h) && h in s.handles
    requires forall u: nat :: !CallOn(s, u, s.handles[h].fd)
    ensures GetsIn(s, t, InsideFor(op, h))
  {
    TwoSteps(s, t, op, h);
    hide Base, GetsIn, Enabled, Step, CallOn;
    InNow(Step(Step(s, t, Go), t, Go), t);
    InLater(Step(s, t, Go), t, t, InsideFor(op, h));
    InLater(s, t, t, InsideFor(op, h));
  }

  /** When a call on the descriptor ends, the lock is free for any other thread. */
  lemma CallEnds(s: State, u: nat, h: nat)
    requires Base(s) && s.mutex == None && h in s.handles && CallOn(s, u, s.handles[h].fd)
    ensures Enabled(s, u, Go)
    ensures var r := Step(s, u, Go);
            && r.mutex == None && r.handles == s.handles && |r.threads| == |s.threads|
            && (forall t | 0 <= t < |s.threads| && t != u :: r.threads[t] == s.threads[t])
            && forall t: nat :: !CallOn(r, t, s.handles[h].fd)
  {
    hide OnFd, Held, Quiet, Flagged, Mutexed;
    assert Pointed(s.items, s.handles[s.threads[u].h]);
    var r := Step(s, u, Go);
    forall t: nat ensures !CallOn(r, t, s.handles[h].fd) {
      assert t != u ==> (CallOn(r, t, s.handles[h].fd) <==> CallOn(s, t, s.handles[h].fd));
    }
  }

  /** So nobody has to hold the mutex for a waiting thread to get in. */
  lemma InWhenUnheld(s: State, t: nat, op: Operation, h: nat)
    requires Base(s) && s.mutex == None && t < |s.threads| && s.threads[t] == Wants(op, h) && h in s.handles
    ensures GetsIn(s, t, InsideFor(op, h))
  {
    if u: nat :| CallOn(s, u, s.handles[h].fd) {
      CallEnds(s, u, h);
      BaseKept(s, u, Go);
      hide Base, GetsIn, Enabled, Step;
      InWhenFree(Step(s, u, Go), t, op, h);
      InLater(s, u, t, InsideFor(op, h));
    } else {
      hide Base, GetsIn;
      InWhenFree(s, t, op, h);
    }
  }

  /** A thread that holds the mutex goes on, and at the latest after one more step does not hold it. */
  lemma HolderGoesOn(s: State, w: nat, t: nat, h: nat)
    requires Inv(s) && s.mutex == Some(w) && t < |s.threads| && s.threads[t].Wants? && s.threads[t].h == h
    ensures w < |s.threads| && w != t && Enabled(s, w, Go)
    ensures var r := Step(s, w, Go);
            && Inv(r) && t < |r.threads| && r.threads[t] == s.threads[t] && h in r.handles
            && (r.mutex == None
                || (s.threads[w].Tests? && r.mutex == Some(w) && (r.threads[w].Frees? || r.threads[w].Destroys?)))
  {
    assert s.threads[w].HoldsMutex();
    NoneDangles(s, w);
    StepKeeps(s, w, Go);
    assert Referring(Step(s, w, Go));
    hide OnFd, Flagged, OneCall, Quiet, Counted;
  }

  /**
   * Nobody is ever shut out: in every state of a careful run, a thread that wants to call, free results or destroy can
   * still get in, though nobody does more than what has begun.
   */
  lemma {:induction false} NobodyShutOut(threads: nat, run: seq<Event>, t: nat)
    requires IsRun(Start(threads), run, true) && IsRun(Start(threads), run, false)
    requires t < |Run(Start(threads), run).threads| && Run(Start(threads), run).threads[t].Wants?
    ensures var s := Run(Start(threads), run);
            GetsIn(s, t, InsideFor(s.threads[t].op, s.threads[t].h))
  {
    StartKeeps(threads);
    RunKeeps(Start(threads), run, true);
    hide IsRun, Run, Inv, GetsIn;
    WaiterGetsIn(Run(Start(threads), run), t);
  }

  /** In particular who begins an operation can get in for that operation on that handle. */
  lemma {:induction false} BeginnerGetsIn(threads: nat, run: seq<Event>, t: nat, op: Operation, h: nat)
    requires IsRun(Start(threads), run, true) && IsRun(Start(threads), run, false)
    requires run != [] && run[|run| - 1] == Event(t, Begin(op, h))
    ensures GetsIn(Run(Start(threads), run), t, InsideFor(op, h))
  {
    RunSnoc(Start(threads), run);
    hide IsRun, GetsIn, Run, Enabled;
    NobodyShutOut(threads, run, t);
  }

  lemma WaiterGetsIn(s: State, t: nat)
    requires Inv(s) && t < |s.threads| && s.threads[t].Wants?
    ensures GetsIn(s, t, InsideFor(s.threads[t].op, s.threads[t].h))
  {
    var op, h := s.threads[t].op, s.threads[t].h;
    assert h in s.handles;
    if s.mutex == None {
      hide Base, GetsIn;
      InWhenUnheld(s, t, op, h);
    } else {
      var w := s.mutex.value;
      HolderGoesOn(s, w, t, h);
      hide Base, Referring, GetsIn, Enabled, Step;
      var r := Step(s, w, Go);
      if r.mutex != None {
        HolderGoesOn(r, w, t, h);
        InWhenUnheld(Step(r, w, Go), t, op, h);
        InLater(r, w, t, InsideFor(op, h));
      } else {
        InWhenUnheld(r, t, op, h);
      }
      InLater(s, w, t, InsideFor(op, h));
    }
  }
}
