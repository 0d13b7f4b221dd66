/** Version negotiation: the client's narrowing loop against the bounds the server's dispatch reports. */
module Negotiation {
  import opened Bytes

  /** One entry of the server's list of exported services. */
  datatype Callout = Callout(prog: word, vers: word)

  /** What comes back for a call to the null procedure. */
  datatype Answer = Success | ProgVersMismatch(low: word, high: word) | ProgUnavail

  function Registered(services: seq<Callout>, prog: word): set<word> {
    set s <- services | s.prog == prog :: s.vers
  }

  /** The answer the protocol prescribes for a set of registered versions (section 9 of RFC 5531). */
  ghost predicate Prescribed(versions: set<word>, vers: word, a: Answer) {
    match a
    case Success => vers in versions
    case ProgUnavail => versions == {}
    case ProgVersMismatch(low, high) =>
      vers !in versions && low in versions && high in versions && forall v <- versions :: low <= v <= high
  }

  /** The versions that a program has an entry for. */
  lemma RegisteredIs(services: seq<Callout>, prog: word)
    ensures forall v: word :: v in Registered(services, prog) <==> Callout(prog, v) in services
    ensures Registered(services, prog) == {} <==> forall s <- services :: s.prog != prog
  {
    forall s <- services ensures s.prog == prog ==> s.vers in Registered(services, prog) {}
    forall s <- services ensures s == Callout(s.prog, s.vers) {}
  }

  lemma RegisteredSnoc(services: seq<Callout>, s: Callout, prog: word)
    ensures Registered(services + [s], prog) == Registered(services, prog) + if s.prog == prog then {s.vers} else {}
  {
    assert forall t <- services + [s] :: t in services || t == s;
    assert forall t <- services :: t in services + [s];
    assert s in services + [s];
  }

  /** The search of svc_getreq_common, for a program whose null procedure succeeds. */
  method Dispatch(services: seq<Callout>, prog: word, vers: word) returns (a: Answer)
    ensures Prescribed(Registered(services, prog), vers, a)
    ensures a.Success? <==> Callout(prog, vers) in services
    ensures a.ProgUnavail? <==> forall s <- services :: s.prog != prog
  {
    RegisteredIs(services, prog);
    var progFound := false;
    var low: word, high: word := TWO_32 - 1, 0;
    ghost var seen: set<word> := {};
    var i := 0;
    while i < |services|
      invariant 0 <= i <= |services|
      invariant seen == Registered(services[..i], prog)
      invariant vers !in seen && (progFound <==> seen != {})
      invariant forall v <- seen :: low <= v <= high
      invariant progFound ==> low in seen && high in seen
      invariant !progFound ==> low == TWO_32 - 1 && high == 0
    {
      var s := services[i];
      RegisteredSnoc(services[..i], s, prog);
      assert services[..i + 1] == services[..i] + [s];
      if s.prog == prog {
        if s.vers == vers {
          return Success;
        }
        progFound := true;
        if s.vers < low {
          low := s.vers;
        }
        if s.vers > high {
          high := s.vers;
        }
        seen := seen + {s.vers};
      }
      i := i + 1;
    }
    assert services[..i] == services;
    if progFound {
      return ProgVersMismatch(low, high);
    }
    return ProgUnavail;
  }

  /** `v` is the greatest version in [low, high], or None where there is not one. */
  ghost predicate GreatestIn(versions: set<word>, low: word, high: word, v: Option<word>) {
    match v
    case None => forall w <- versions :: !(low <= w <= high)
    case Some(x) => x in versions && low <= x <= high && forall w <- versions | w <= high :: w <= x
  }

  /**
   * clnt_create_vers_timed against that server. It settles on the greatest registered version in the
   * range, whatever gaps the registered ones leave, unless the range is empty and its upper end is
   * registered, which the first call does not notice.
   */
  method CreateVers(services: seq<Callout>, prog: word, versLow: word, versHigh: word) returns (vers: Option<word>)
    ensures vers.Some? ==> Callout(prog, vers.value) in services
    ensures GreatestIn(Registered(services, prog), versLow, versHigh, vers) <==>
            versLow <= versHigh || versHigh !in Registered(services, prog)
    ensures versHigh in Registered(services, prog) ==> vers == Some(versHigh)
    ensures vers.Some? ==> vers.value in Registered(services, prog)
  {
    ghost var versions := Registered(services, prog);
    RegisteredIs(services, prog);
    var low: word, high: word := versLow, versHigh;
    var stat := Dispatch(services, prog, high);
    if stat.Success? {
      return Some(high);
    }
    while stat.ProgVersMismatch? && high > low
      invariant high <= versHigh && versLow <= low
      invariant Prescribed(versions, high, stat) && !stat.Success?
      invariant forall w <- versions | versLow <= w <= versHigh :: low <= w <= high
      decreases high
    {
      var minvers, maxvers := stat.low, stat.high;
      if maxvers < high {
        high := maxvers;
      } else {
        high := high - 1;
      }
      if minvers > low {
        low := minvers;
      }
      if low > high {
        return None;
      }
      stat := Dispatch(services, prog, high);
      if stat.Success? {
        return Some(high);
      }
    }
    return None;
  }
}
