/**
 * One call of the datagram client (clnt_dg.c): transmission, retransmission,
 * credential refreshes and the match of a reply with the last transaction id.
 * Synchronous mode; intervals are in milliseconds.
 */
module DatagramCall {
  import opened Bytes

  /**
   * What the authenticator makes of a decoded reply; `refreshed` says whether
   * refreshing the credentials succeeds.
   */
  datatype Verdict = Settled | AuthError(refreshed: bool)

  /** What one turn of the wait brings. */
  datatype Arrival =
    | Silent                                                  // poll ran out of time
    | Interrupted                                             // poll: EINTR
    | PollFailed
    | ErrorQueued                                             // an error report for our packet
    | RecvFailed                                              // any error but EWOULDBLOCK
    | Received(packet: Option<seq<byte>>, verdict: Verdict)   // None: EWOULDBLOCK

  /**
   * The outside world's other answers: whether the i-th marshalling of the
   * call and the i-th sendto succeed.
   */
  datatype World = World(encodes: nat -> bool, sends: nat -> bool)

  datatype Timeval = Timeval(sec: nat, usec: nat)
  {
    function Millis(): nat { sec * 1000 + usec / 1000 }
  }

  /** What a call cannot change. RPCSEC_GSS clients start with no refreshes left, all others with two. */
  datatype Setting = Setting(world: World, timeout: Timeval, wait: Timeval, gss: bool)
  {
    function Refreshes(): nat { if gss then 0 else 2 }
    function Total(): nat { timeout.Millis() }
    function Interval(): nat { wait.Millis() }
  }

  lemma MillisOf(t: Timeval)
    ensures t.Millis() * 1000 <= t.sec * 1_000_000 + t.usec < (t.Millis() + 1) * 1000
  {}

  datatype Outcome =
    | TimedOut
    | CantSend
    | CantRecv
    | CantEncodeArgs
    | Decoded(length: nat, verdict: Verdict)

  /**
   * A call: waiting for a reply, or over with an outcome. `sent` holds the
   * transaction ids of all packets sent so far.
   */
  datatype Transaction = Transaction(xid: word, sent: seq<word>, left: int, refreshes: nat, inbuf: seq<byte>,
                                     outcome: Option<Outcome>)
  {
    predicate Over() { outcome.Some? }
  }

  function NextXid(xid: word): word { if xid == TWO_32 - 1 then 0 else xid + 1 }

  function Min(a: int, b: int): int { if a < b then a else b }

  /** recvfrom: the packet, cut to the size of the buffer, over its front. */
  function Overlay(inbuf: seq<byte>, packet: seq<byte>): (r: seq<byte>)
    ensures |r| == |inbuf|
    ensures forall i :: 0 <= i < |r| ==> r[i] == if i < |packet| then packet[i] else inbuf[i]
  {
    var n := Min(|packet|, |inbuf|);
    packet[..n] + inbuf[n..]
  }

  /** From `send_again`. */
  function FromSendAgain(s: Setting, c: Transaction): (r: Transaction)
    ensures r.inbuf == c.inbuf && r.refreshes == c.refreshes
  {
    if c.left <= 0 then c.(outcome := Some(TimedOut))
    else if !s.world.sends(|c.sent|) then c.(outcome := Some(CantSend))
    else c.(sent := c.sent + [c.xid])
  }

  /** From `call_again`. */
  function FromCallAgain(s: Setting, c: Transaction): (r: Transaction)
    requires c.refreshes <= s.Refreshes()
    ensures r.inbuf == c.inbuf && r.refreshes == c.refreshes
  {
    var c := c.(xid := NextXid(c.xid));
    if !s.world.encodes(s.Refreshes() - c.refreshes) then c.(outcome := Some(CantEncodeArgs))
    else if s.timeout == Timeval(0, 0) then c.(outcome := Some(TimedOut))
    else FromSendAgain(s, c)
  }

  function Begin(s: Setting, xid: word, inbuf: seq<byte>): Transaction {
    FromCallAgain(s, Transaction(xid, [], s.Total(), s.Refreshes(), inbuf, None))
  }

  /**
   * The bytes recvfrom reports. A failure with EWOULDBLOCK is -1, which the
   * length test reads as a large unsigned number and the decoder as 2^32 - 1.
   */
  function Length(packet: Option<seq<byte>>, size: nat): nat {
    if packet.None? then TWO_32 - 1 else Min(|packet.value|, size)
  }

  /** Where the source goes after a wait. Over(None) stands for a wait that is not yet over. */
  datatype Next = SendAgain(left: int) | CallAgain | Over(outcome: Option<Outcome>)

  function After(s: Setting, next: Next, c: Transaction): Transaction
    requires c.refreshes <= s.Refreshes() && (next.CallAgain? ==> c.refreshes > 0)
  {
    match next
    case SendAgain(left) => FromSendAgain(s, c.(left := left))
    case CallAgain => FromCallAgain(s, c.(refreshes := c.refreshes - 1))
    case Over(outcome) => c.(outcome := outcome)
  }

  /** At `call_again`, or over. */
  function Resumed(s: Setting, again: bool, outcome: Option<Outcome>, c: Transaction): (r: Transaction)
    requires c.refreshes <= s.Refreshes()
    ensures r.inbuf == c.inbuf && r.refreshes == c.refreshes
    ensures again ==> r == FromCallAgain(s, c)
    ensures !again ==> r == c.(outcome := outcome)
  {
    if again then FromCallAgain(s, c) else c.(outcome := outcome)
  }

  /** The turn of the wait that `a` ends. */
  function Step(s: Setting, c: Transaction, a: Arrival): (r: Transaction)
    requires !c.Over() && |c.inbuf| >= 4 && c.refreshes <= s.Refreshes()
    ensures |r.inbuf| == |c.inbuf| && r.refreshes <= c.refreshes
  {
    var later := c.(left := c.left - Min(c.left, s.Interval()));
    match a
    case Silent => FromSendAgain(s, later)
    case Interrupted => c
    case PollFailed => c.(outcome := Some(CantRecv))
    case ErrorQueued => c.(outcome := Some(CantRecv))
    case RecvFailed => c.(outcome := Some(CantRecv))
    case Received(packet, verdict) =>
      var inbuf := if packet.None? then c.inbuf else Overlay(c.inbuf, packet.value);
      var length := Length(packet, |c.inbuf|);
      if length < 4 || inbuf[..4] != Be32(c.xid) then FromSendAgain(s, later.(inbuf := inbuf))
      else if verdict.AuthError? && verdict.refreshed && c.refreshes > 0 then
        FromCallAgain(s, c.(refreshes := c.refreshes - 1, inbuf := inbuf))
      else c.(inbuf := inbuf, outcome := Some(Decoded(length, verdict)))
  }

  function Run(s: Setting, c: Transaction, arrivals: seq<Arrival>): (r: Transaction)
    requires |c.inbuf| >= 4 && c.refreshes <= s.Refreshes()
    ensures |r.inbuf| == |c.inbuf| && r.refreshes <= c.refreshes
    decreases |arrivals|
  {
    if arrivals == [] || c.Over() then c else Run(s, Step(s, c, arrivals[0]), arrivals[1..])
  }

  lemma RunStep(s: Setting, c: Transaction, arrivals: seq<Arrival>, i: nat)
    requires |c.inbuf| >= 4 && c.refreshes <= s.Refreshes() && !c.Over() && i < |arrivals|
    ensures Run(s, c, arrivals[i..]) == Run(s, Step(s, c, arrivals[i]), arrivals[i + 1..])
  {
    assert arrivals[i..][1..] == arrivals[i + 1..];
  }

  lemma RunOver(s: Setting, c: Transaction, arrivals: seq<Arrival>)
    requires |c.inbuf| >= 4 && c.refreshes <= s.Refreshes() && (c.Over() || arrivals == [])
    ensures Run(s, c, arrivals) == c
  {}

  // ---------- Pace: how many packets a call can send ----------

  /** The number of intervals begun in `total`. */
  function Ceil(total: nat, interval: nat): (n: nat)
    requires interval >= 1
    ensures (n - 1) * interval < total <= n * interval || n == total == 0
  {
    if total == 0 then 0 else if total <= interval then 1 else 1 + Ceil(total - interval, interval)
  }

  lemma CeilBound(total: nat, interval: nat, k: nat)
    requires interval >= 1 && total - k * interval > 0
    ensures k + 1 <= Ceil(total, interval)
  {
    var n := Ceil(total, interval);
    assert n <= k ==> n * interval <= k * interval;
  }

  /** The arrivals that end a turn of the wait. */
  function Turns(arrivals: seq<Arrival>): nat {
    if arrivals == [] then 0 else (if arrivals[0] == Interrupted then 0 else 1) + Turns(arrivals[1..])
  }

  /**
   * A waiting call has sent one packet, one for each refresh, and one for
   * each whole interval gone from its time.
   */
  ghost predicate Paced(s: Setting, c: Transaction)
    requires s.Interval() >= 1
  {
    && c.refreshes <= s.Refreshes()
    && |c.sent| <= Ceil(s.Total(), s.Interval()) + s.Refreshes() - c.refreshes
    && (!c.Over() ==>
          && c.left > 0
          && |c.sent| >= 1 + s.Refreshes() - c.refreshes
          && c.left == s.Total() - (|c.sent| - 1 - (s.Refreshes() - c.refreshes)) * s.Interval())
  }

  lemma BeginPaced(s: Setting, xid: word, inbuf: seq<byte>)
    requires s.Interval() >= 1
    ensures Paced(s, Begin(s, xid, inbuf))
    ensures !Begin(s, xid, inbuf).Over() ==> |Begin(s, xid, inbuf).sent| == 1
  {
    if s.Total() > 0 { CeilBound(s.Total(), s.Interval(), 0); }
  }

  lemma StepPaced(s: Setting, c: Transaction, a: Arrival)
    requires s.Interval() >= 1 && |c.inbuf| >= 4 && Paced(s, c) && !c.Over()
    ensures var r := Step(s, c, a);
            Paced(s, r) && (!r.Over() ==> |r.sent| == |c.sent| + if a == Interrupted then 0 else 1)
  {
    var w, k := s.Interval(), |c.sent| - 1 - (s.Refreshes() - c.refreshes);
    hide Overlay, Be32, Length, Ceil;
    assert (k + 1) * w == k * w + w;
    CeilBound(s.Total(), w, k);
    if c.left > w { CeilBound(s.Total(), w, k + 1); }
  }

  lemma {:induction false} RunPaced(s: Setting, c: Transaction, arrivals: seq<Arrival>)
    requires s.Interval() >= 1 && |c.inbuf| >= 4 && Paced(s, c)
    ensures var r := Run(s, c, arrivals);
            Paced(s, r) && (!r.Over() ==> |r.sent| == |c.sent| + Turns(arrivals))
    decreases |arrivals|
  {
    if arrivals != [] && !c.Over() {
      StepPaced(s, c, arrivals[0]);
      RunPaced(s, Step(s, c, arrivals[0]), arrivals[1..]);
    }
  }

  /**
   * Whatever arrives, a call sends at most one packet for each interval begun
   * and one for each refresh; a call with no time sends none.
   */
  lemma SendBound(s: Setting, xid: word, inbuf: seq<byte>, arrivals: seq<Arrival>)
    requires |inbuf| >= 4
    ensures s.Interval() >= 1 ==>
              |Run(s, Begin(s, xid, inbuf), arrivals).sent| <= Ceil(s.Total(), s.Interval()) + (if s.gss then 0 else 2)
    ensures s.Total() == 0 ==> Run(s, Begin(s, xid, inbuf), arrivals).sent == []
  {
    if s.Interval() >= 1 {
      BeginPaced(s, xid, inbuf);
      RunPaced(s, Begin(s, xid, inbuf), arrivals);
    }
  }

  /** Interrupted polls aside, a call is over after that many turns. */
  lemma Terminates(s: Setting, xid: word, inbuf: seq<byte>, arrivals: seq<Arrival>)
    requires |inbuf| >= 4 && s.Interval() >= 1
    requires Turns(arrivals) >= Ceil(s.Total(), s.Interval()) + s.Refreshes()
    ensures Run(s, Begin(s, xid, inbuf), arrivals).Over()
  {
    BeginPaced(s, xid, inbuf);
    RunPaced(s, Begin(s, xid, inbuf), arrivals);
  }

  function Silence(n: nat): seq<Arrival> { seq(n, _ => Silent) }

  /** One turn without an answer: another packet while there is time, and the end when there is none. */
  lemma SilentTurn(s: Setting, c: Transaction, n: nat)
    requires |c.inbuf| >= 4 && c.refreshes <= s.Refreshes() && c.left > 0 && !c.Over() && n > 0
    requires s.world.sends(|c.sent|)
    ensures var w := s.Interval();
            Run(s, c, Silence(n)) ==
            if c.left > w then Run(s, c.(left := c.left - w, sent := c.sent + [c.xid]), Silence(n - 1))
            else c.(left := 0, outcome := Some(TimedOut))
  {
    assert Silence(n)[1..] == Silence(n - 1);
  }

  lemma OneIntervalLess(total: nat, interval: nat, n: nat)
    requires n > 0 && total > 0
    ensures n * interval == (n - 1) * interval + interval && (n - 1) * interval >= 0
    ensures interval >= 1 ==>
              Ceil(total, interval) == if total <= interval then 1 else 1 + Ceil(total - interval, interval)
  {}

  /** With no answer at all a call resends once an interval, and gives up when its time has gone. */
  lemma {:induction false} SilentRun(s: Setting, c: Transaction, n: nat)
    requires |c.inbuf| >= 4 && c.refreshes <= s.Refreshes() && c.left > 0 && !c.Over()
    requires forall i: nat :: s.world.sends(i)
    ensures var r, left := Run(s, c, Silence(n)), c.left - n * s.Interval();
            if left > 0 then !r.Over() && r.left == left && |r.sent| == |c.sent| + n
            else r.outcome == Some(TimedOut) && |r.sent| == |c.sent| + Ceil(c.left, s.Interval()) - 1
    decreases n
  {
    if n > 0 {
      SilentTurn(s, c, n);
      OneIntervalLess(c.left, s.Interval(), n);
      hide Run, Ceil;
      if c.left > s.Interval() {
        SilentRun(s, c.(left := c.left - s.Interval(), sent := c.sent + [c.xid]), n - 1);
      }
    }
  }

  ghost predicate AtMost(s: Setting, xid: word, inbuf: seq<byte>, bound: nat)
    requires |inbuf| >= 4
  {
    forall arrivals :: |Run(s, Begin(s, xid, inbuf), arrivals).sent| <= bound
  }

  /**
   * A retry interval below one millisecond is cut to zero. The packets of a
   * call are then bounded only when it has no time or cannot send.
   */
  lemma BoundedExactly(s: Setting, xid: word, inbuf: seq<byte>)
    requires |inbuf| >= 4 && s.world.encodes(0) && forall i: nat :: s.world.sends(i)
    ensures (exists bound :: AtMost(s, xid, inbuf, bound)) <==> s.Interval() >= 1 || s.Total() == 0
  {
    if s.Interval() >= 1 || s.Total() == 0 {
      var bound := if s.Interval() == 0 then 0 else Ceil(s.Total(), s.Interval()) + s.Refreshes();
      forall arrivals ensures |Run(s, Begin(s, xid, inbuf), arrivals).sent| <= bound {
        SendBound(s, xid, inbuf, arrivals);
      }
      assert AtMost(s, xid, inbuf, bound);
    } else {
      forall bound: nat ensures !AtMost(s, xid, inbuf, bound) {
        SilentRun(s, Begin(s, xid, inbuf), bound + 1);
      }
    }
  }

  // ---------- Matching: whose reply is decoded ----------

  function Distance(from: word, to: word): nat { (to - from) % TWO_32 }

  /**
   * All packets carry the ids that follow `first`, one for each marshalling.
   * The packet decoded starts with the id of the last packet sent.
   */
  ghost predicate Matched(s: Setting, first: word, c: Transaction) {
    && c.refreshes <= s.Refreshes()
    && |c.inbuf| >= 4
    && Distance(first, c.xid) == 1 + s.Refreshes() - c.refreshes
    && (forall x <- c.sent :: 1 <= Distance(first, x) <= 1 + s.Refreshes() - c.refreshes)
    && (c.outcome == None || c.outcome.value.Decoded? ==> c.sent != [] && c.sent[|c.sent| - 1] == c.xid)
    && (c.outcome.Some? && c.outcome.value.Decoded? ==> c.inbuf[..4] == Be32(c.xid))
  }

  lemma SendAgainMatched(s: Setting, first: word, c: Transaction)
    requires Matched(s, first, c) && !c.Over()
    ensures Matched(s, first, FromSendAgain(s, c))
  {
    hide Be32, Distance;
  }

  /** Every marshalling goes one further from the first id. */
  lemma Further(first: word, xid: word)
    requires Distance(first, xid) < TWO_32 - 1
    ensures Distance(first, NextXid(xid)) == Distance(first, xid) + 1
  {}

  lemma CallAgainMatched(s: Setting, first: word, c: Transaction)
    requires Matched(s, first, c) && !c.Over() && c.refreshes > 0
    ensures Matched(s, first, FromCallAgain(s, c.(refreshes := c.refreshes - 1)))
  {
    Further(first, c.xid);
    hide Be32, Distance, NextXid;
  }

  lemma StepMatched(s: Setting, first: word, c: Transaction, a: Arrival)
    requires Matched(s, first, c) && !c.Over()
    ensures Matched(s, first, Step(s, c, a))
  {
    hide Be32, Overlay, Distance, FromSendAgain, FromCallAgain;
    match a {
      case Silent => SendAgainMatched(s, first, c.(left := c.left - Min(c.left, s.Interval())));
      case Received(packet, verdict) =>
        var inbuf := if packet.None? then c.inbuf else Overlay(c.inbuf, packet.value);
        SendAgainMatched(s, first, c.(left := c.left - Min(c.left, s.Interval()), inbuf := inbuf));
        if c.refreshes > 0 { CallAgainMatched(s, first, c.(inbuf := inbuf)); }
      case _ =>
    }
  }

  lemma {:induction false} RunMatched(s: Setting, first: word, c: Transaction, arrivals: seq<Arrival>)
    requires Matched(s, first, c)
    ensures Matched(s, first, Run(s, c, arrivals))
    decreases |arrivals|
  {
    if arrivals != [] && !c.Over() {
      StepMatched(s, first, c, arrivals[0]);
      RunMatched(s, first, Step(s, c, arrivals[0]), arrivals[1..]);
    }
  }

  lemma DecodesOwnReply(s: Setting, xid: word, inbuf: seq<byte>, arrivals: seq<Arrival>)
    requires |inbuf| >= 4
    ensures Matched(s, xid, Run(s, Begin(s, xid, inbuf), arrivals))
  {
    hide Be32;
    RunMatched(s, xid, Begin(s, xid, inbuf), arrivals);
  }

  /**
   * What is decoded is the packet just received, unless recvfrom failed with
   * EWOULDBLOCK: then it is whatever the buffer held, with a length past its end.
   */
  lemma DecodesWhatArrived(s: Setting, c: Transaction, packet: Option<seq<byte>>, verdict: Verdict)
    requires 4 <= |c.inbuf| < TWO_32 - 1 && c.refreshes <= s.Refreshes() && !c.Over()
    ensures var r := Step(s, c, Received(packet, verdict));
            r.outcome.Some? && r.outcome.value.Decoded? ==>
              var n := r.outcome.value.length;
              && (packet.Some? <==> n <= |c.inbuf|)
              && (packet.Some? ==> 4 <= n <= |packet.value| && r.inbuf[..n] == packet.value[..n])
              && (packet.None? ==> r.inbuf == c.inbuf)
  {
    hide Be32;
  }

  /** So a call can settle on bytes left in the buffer, though nothing arrived. */
  lemma StaleReplyDecoded(s: Setting, xid: word, inbuf: seq<byte>)
    requires |inbuf| >= 4 && s.world.encodes(0) && s.world.sends(0) && s.Total() > 0
    ensures Run(s, Begin(s, xid, inbuf), [Received(None, Settled)]).outcome == Some(Decoded(TWO_32 - 1, Settled))
            <==> inbuf[..4] == Be32(NextXid(xid))
  {
    var c := Begin(s, xid, inbuf);
    var a := Received(None, Settled);
    assert [a][1..] == [];
    RunOver(s, Step(s, c, a), []);
    hide Be32;
  }

  // ---------- Outcomes: what a call comes to, from the arrivals ----------

  /** The buffer after an arrival. */
  function Buffer(buf: seq<byte>, a: Arrival): (r: seq<byte>)
    ensures |r| == |buf|
  {
    if a.Received? && a.packet.Some? then Overlay(buf, a.packet.value) else buf
  }

  /** An answer to the packet with transaction id `id`: it starts with that, or the buffer does and nothing came. */
  predicate Answers(a: Arrival, buf: seq<byte>, id: word)
    requires |buf| >= 4
  {
    a.Received? &&
    match a.packet
    case None => buf[..4] == Be32(id)
    case Some(packet) => |packet| >= 4 && packet[..4] == Be32(id)
  }

  /** The length the decoder is given for it. */
  function AnswerLength(a: Arrival, size: nat): nat
    requires a.Received?
  {
    if a.packet.None? then 0xffff_ffff else if |a.packet.value| < size then |a.packet.value| else size
  }

  predicate Fails(a: Arrival) { a.PollFailed? || a.ErrorQueued? || a.RecvFailed? }

  /** Nothing among `arrivals` is an answer or a failure. */
  predicate Idle(arrivals: seq<Arrival>, buf: seq<byte>, id: word)
    requires |buf| >= 4
    decreases |arrivals|
  {
    arrivals != [] ==>
      && !Answers(arrivals[0], buf, id) && !Fails(arrivals[0])
      && Idle(arrivals[1..], Buffer(buf, arrivals[0]), id)
  }

  function BufferAfter(buf: seq<byte>, arrivals: seq<Arrival>): (r: seq<byte>)
    ensures |r| == |buf|
    decreases |arrivals|
  {
    if arrivals == [] then buf else BufferAfter(Buffer(buf, arrivals[0]), arrivals[1..])
  }

  lemma OverlayFront(buf: seq<byte>, packet: seq<byte>)
    requires |buf| >= 4 && |packet| >= 4
    ensures Overlay(buf, packet)[..4] == packet[..4]
  {}

  /** A turn without an answer or a failure: another packet while there is time, and the end when there is none. */
  lemma IdleTurn(s: Setting, c: Transaction, a: Arrival)
    requires |c.inbuf| >= 4 && c.refreshes <= s.Refreshes() && c.left > 0 && !c.Over()
    requires !Answers(a, c.inbuf, c.xid) && !Fails(a)
    ensures var left := c.left - s.Interval();
            var d := c.(inbuf := Buffer(c.inbuf, a));
            Step(s, c, a) ==
            if a == Interrupted then c
            else if left <= 0 then d.(left := 0, outcome := Some(TimedOut))
            else if s.world.sends(|c.sent|) then d.(left := left, sent := c.sent + [c.xid])
            else d.(left := left, outcome := Some(CantSend))
  {
    hide Be32, Overlay;
    if a.Received? && a.packet.Some? && |a.packet.value| >= 4 { OverlayFront(c.inbuf, a.packet.value); }
  }

  /** An answer ends the call, unless it asks for credentials that are refreshed: then the call is marshalled again. */
  lemma AnswerTurn(s: Setting, c: Transaction, a: Arrival)
    requires 4 <= |c.inbuf| && c.refreshes <= s.Refreshes() && !c.Over() && Answers(a, c.inbuf, c.xid)
    ensures var d := c.(inbuf := Buffer(c.inbuf, a));
            Step(s, c, a) ==
            if a.verdict == AuthError(true) && c.refreshes > 0 then
              var again := d.(xid := NextXid(c.xid), refreshes := c.refreshes - 1);
              if !s.world.encodes(s.Refreshes() - c.refreshes + 1) then again.(outcome := Some(CantEncodeArgs))
              else if s.timeout == Timeval(0, 0) || c.left <= 0 then again.(outcome := Some(TimedOut))
              else if !s.world.sends(|c.sent|) then again.(outcome := Some(CantSend))
              else again.(sent := c.sent + [NextXid(c.xid)])
            else d.(outcome := Some(Decoded(AnswerLength(a, |c.inbuf|), a.verdict)))
  {
    hide Be32, Overlay;
    if a.packet.Some? { OverlayFront(c.inbuf, a.packet.value); }
  }

  lemma FailureTurn(s: Setting, c: Transaction, a: Arrival)
    requires 4 <= |c.inbuf| && c.refreshes <= s.Refreshes() && !c.Over() && Fails(a)
    ensures Step(s, c, a) == c.(outcome := Some(CantRecv))
  {}

  lemma {:induction false} RunConcat(s: Setting, c: Transaction, xs: seq<Arrival>, ys: seq<Arrival>)
    requires |c.inbuf| >= 4 && c.refreshes <= s.Refreshes()
    ensures Run(s, c, xs + ys) == Run(s, Run(s, c, xs), ys)
    decreases |xs|
  {
    if xs == [] {
      assert xs + ys == ys;
    } else if !c.Over() {
      assert (xs + ys)[1..] == xs[1..] + ys;
      hide Step;
      RunConcat(s, Step(s, c, xs[0]), xs[1..], ys);
    }
  }

  /** Without an answer or a failure a call goes on, resending once an interval, until its time has gone. */
  lemma {:induction false} IdleRun(s: Setting, c: Transaction, xs: seq<Arrival>)
    requires |c.inbuf| >= 4 && c.refreshes <= s.Refreshes() && c.left > 0 && !c.Over()
    requires Idle(xs, c.inbuf, c.xid) && forall i: nat :: s.world.sends(i)
    ensures var r, left := Run(s, c, xs), c.left - Turns(xs) * s.Interval();
            && (left > 0 ==> r == Meanwhile(s, c, xs))
            && (left <= 0 ==> r.outcome == Some(TimedOut))
    decreases |xs|
  {
    if xs != [] {
      IdleTurn(s, c, xs[0]);
      OneMoreTurn(s, c, xs);
      var d := Step(s, c, xs[0]);
      if d.Over() {
        RunOver(s, d, xs[1..]);
      } else {
        hide Step, Be32, Answers, Buffer;
        IdleRun(s, d, xs[1..]);
      }
    }
  }

  /** The call after that. */
  function Meanwhile(s: Setting, c: Transaction, xs: seq<Arrival>): Transaction {
    c.(left := c.left - Turns(xs) * s.Interval(), inbuf := BufferAfter(c.inbuf, xs),
       sent := c.sent + Copies(c.xid, Turns(xs)))
  }

  function Copies(id: word, n: nat): seq<word> { seq(n, _ => id) }

  lemma OneMore(n: nat, w: nat)
    ensures n * w >= 0 && (n + 1) * w == n * w + w
  {}

  lemma OneMoreTurn(s: Setting, c: Transaction, xs: seq<Arrival>)
    requires xs != []
    ensures var w, rest := s.Interval(), Turns(xs[1..]);
            && rest * w >= 0
            && Turns(xs) * w == rest * w + (if xs[0] == Interrupted then 0 else w)
            && c.sent + Copies(c.xid, Turns(xs)) ==
               (if xs[0] == Interrupted then c.sent else c.sent + [c.xid]) + Copies(c.xid, rest)
  {
    var w, rest := s.Interval(), Turns(xs[1..]);
    OneMore(rest, w);
    assert xs[0] != Interrupted ==> Turns(xs) == rest + 1;
    assert Copies(c.xid, rest + 1) == [c.xid] + Copies(c.xid, rest);
  }

  /** The turns of a wait end before its time exactly when there are fewer than intervals begun. */
  lemma InTime(total: nat, interval: nat, turns: nat)
    requires interval >= 1
    ensures turns * interval < total <==> turns < Ceil(total, interval)
  {
    if turns * interval < total { CeilBound(total, interval, turns); }
    var n := Ceil(total, interval);
    if turns < n { Ordered(turns, n - 1, interval); }
  }

  lemma Ordered(a: nat, b: nat, w: nat)
    requires a <= b
    ensures a * w <= b * w
  {}

  /** A waiting call after idle arrivals, in time. */
  ghost predicate Waits(s: Setting, c: Transaction, xs: seq<Arrival>) {
    && |c.inbuf| >= 4 && c.refreshes <= s.Refreshes() && !c.Over() && c.left > Turns(xs) * s.Interval()
    && Idle(xs, c.inbuf, c.xid) && forall i: nat :: s.world.sends(i)
  }

  /** What a call does with the first arrival that is an answer or a failure. */
  lemma FirstAnswer(s: Setting, c: Transaction, xs: seq<Arrival>, a: Arrival, rest: seq<Arrival>)
    requires Waits(s, c, xs)
    requires Answers(a, BufferAfter(c.inbuf, xs), c.xid) || Fails(a)
    ensures Run(s, c, xs + [a] + rest) == Run(s, Step(s, Meanwhile(s, c, xs), a), rest)
  {
    OneMore(Turns(xs), s.Interval());
    IdleRun(s, c, xs);
    RunConcat(s, c, xs, [a] + rest);
    assert xs + [a] + rest == xs + ([a] + rest);
    assert ([a] + rest)[1..] == rest;
    hide Step, Be32, Answers, Idle, Fails;
  }

  /**
   * The reply to the last packet, arriving in time, ends the call with that reply, whatever came before: nothing,
   * interruptions, packets of other calls. So does an error that the credentials cannot be refreshed for.
   */
  lemma ReplyEnds(s: Setting, c: Transaction, xs: seq<Arrival>, a: Arrival, rest: seq<Arrival>)
    requires Waits(s, c, xs) && Answers(a, BufferAfter(c.inbuf, xs), c.xid)
    requires a.verdict != AuthError(true) || c.refreshes == 0
    ensures var r := Run(s, c, xs + [a] + rest);
            && r.outcome == Some(Decoded(AnswerLength(a, |c.inbuf|), a.verdict))
            && r.inbuf == Buffer(BufferAfter(c.inbuf, xs), a) && r.sent == c.sent + Copies(c.xid, Turns(xs))
  {
    hide Be32, Step, Answers, Buffer, Run;
    FirstAnswer(s, c, xs, a, rest);
    var d := Meanwhile(s, c, xs);
    AnswerTurn(s, d, a);
    RunOver(s, Step(s, d, a), rest);
  }

  /**
   * An error that the credentials are refreshed for is followed by a packet with the next id, for which the
   * call waits.
   */
  lemma RefreshGoesOn(s: Setting, c: Transaction, xs: seq<Arrival>, a: Arrival, rest: seq<Arrival>)
    requires Waits(s, c, xs) && Answers(a, BufferAfter(c.inbuf, xs), c.xid)
    requires a.verdict == AuthError(true) && c.refreshes > 0
    requires s.timeout != Timeval(0, 0) && s.world.encodes(s.Refreshes() - c.refreshes + 1)
    ensures Run(s, c, xs + [a] + rest) ==
            Run(s, Transaction(NextXid(c.xid), c.sent + Copies(c.xid, Turns(xs)) + [NextXid(c.xid)],
                               c.left - Turns(xs) * s.Interval(), c.refreshes - 1,
                               Buffer(BufferAfter(c.inbuf, xs), a), None), rest)
  {
    hide Be32, Step, Answers, Buffer, Run;
    FirstAnswer(s, c, xs, a, rest);
    var d := Meanwhile(s, c, xs);
    AnswerTurn(s, d, a);
  }

  /** A failing poll, an error report or a failing receive ends the call. */
  lemma FailureEnds(s: Setting, c: Transaction, xs: seq<Arrival>, a: Arrival, rest: seq<Arrival>)
    requires Waits(s, c, xs) && Fails(a)
    ensures Run(s, c, xs + [a] + rest).outcome == Some(CantRecv)
  {
    hide Be32, Step, Answers, Buffer, Run;
    FirstAnswer(s, c, xs, a, rest);
    var d := Meanwhile(s, c, xs);
    FailureTurn(s, d, a);
    RunOver(s, Step(s, d, a), rest);
  }

  /** A call that can be marshalled and sent waits with the next transaction id for all of its time. */
  lemma BeginWaits(s: Setting, xid: word, inbuf: seq<byte>)
    ensures Begin(s, xid, inbuf) ==
            var c := Transaction(NextXid(xid), [], s.Total(), s.Refreshes(), inbuf, None);
            if !s.world.encodes(0) then c.(outcome := Some(CantEncodeArgs))
            else if s.Total() == 0 then c.(outcome := Some(TimedOut))
            else if !s.world.sends(0) then c.(outcome := Some(CantSend))
            else c.(sent := [NextXid(xid)])
  {}

  /** From the beginning: the first answer decides, if it comes in fewer turns than there are intervals begun. */
  lemma CallAnswered(s: Setting, xid: word, inbuf: seq<byte>, xs: seq<Arrival>, packet: seq<byte>, rest: seq<Arrival>)
    requires |inbuf| >= 4 && s.Interval() >= 1 && s.world.encodes(0) && forall i: nat :: s.world.sends(i)
    requires Idle(xs, inbuf, NextXid(xid)) && Turns(xs) < Ceil(s.Total(), s.Interval())
    requires |packet| >= 4 && packet[..4] == Be32(NextXid(xid))
    ensures var r := Run(s, Begin(s, xid, inbuf), xs + [Received(Some(packet), Settled)] + rest);
            && r.outcome == Some(Decoded(if |packet| < |inbuf| then |packet| else |inbuf|, Settled))
            && r.inbuf == Overlay(BufferAfter(inbuf, xs), packet)
            && r.sent == Copies(NextXid(xid), 1 + Turns(xs))
  {
    hide Be32, Idle, Run, Begin;
    BeginWaits(s, xid, inbuf);
    InTime(s.Total(), s.Interval(), Turns(xs));
    OneMore(Turns(xs), s.Interval());
    ReplyEnds(s, Begin(s, xid, inbuf), xs, Received(Some(packet), Settled), rest);
    assert Copies(NextXid(xid), 1 + Turns(xs)) == [NextXid(xid)] + Copies(NextXid(xid), Turns(xs));
  }

  /**
   * clnt_dg_call. `arrivals` is what the wait brings until now; no outcome
   * means that the call is still waiting.
   */
  class Client {
    var xid: word             // the first word of the out buffer
    var inbuf: seq<byte>
    var sent: seq<word>       // the packets of the current call

    /** The loop around poll: EINTR changes nothing. */
    method Wait(s: Setting, arrivals: seq<Arrival>, start: nat, ghost c: Transaction) returns (i: nat)
      requires start <= |arrivals| && |c.inbuf| >= 4 && c.refreshes <= s.Refreshes() && !c.Over()
      ensures start <= i <= |arrivals|
      ensures i < |arrivals| ==> arrivals[i] != Interrupted
      ensures Run(s, c, arrivals[start..]) == Run(s, c, arrivals[i..])
    {
      i := start;
      while i < |arrivals| && arrivals[i] == Interrupted
        invariant start <= i <= |arrivals|
        invariant Run(s, c, arrivals[start..]) == Run(s, c, arrivals[i..])
      {
        RunStep(s, c, arrivals, i);
        i := i + 1;
      }
    }

    /** From recvfrom to the match of the transaction ids. */
    method Receive(packet: Option<seq<byte>>) returns (length: nat, matches: bool)
      requires |inbuf| >= 4
      modifies this`inbuf
      ensures inbuf == if packet.None? then old(inbuf) else Overlay(old(inbuf), packet.value)
      ensures length == Length(packet, |old(inbuf)|)
      ensures matches == !(length < 4 || inbuf[..4] != Be32(xid))
    {
      length := Length(packet, |inbuf|);
      if packet.Some? { inbuf := Overlay(inbuf, packet.value); }
      if length < 4 { return length, false; }
      matches := inbuf[..4] == Be32(xid);
    }

    ghost function Now(left: int, refreshes: nat): Transaction
      reads this
    {
      Transaction(xid, sent, left, refreshes, inbuf, None)
    }

    /** From the wait for a reply to the next goto. */
    method Turn(s: Setting, arrivals: seq<Arrival>, start: nat, left: int, refreshes: nat) returns (i: nat, next: Next)
      requires start <= |arrivals| && refreshes <= s.Refreshes() && |inbuf| >= 4
      modifies this`inbuf
      ensures start <= i <= |arrivals| && |inbuf| == |old(inbuf)|
      ensures next.Over? && next.outcome.None? ==> i == |arrivals|
      ensures !next.Over? ==> i > start
      ensures next.CallAgain? ==> refreshes > 0
      ensures Run(s, old(Now(left, refreshes)), arrivals[start..])
              == Run(s, After(s, next, Now(left, refreshes)), arrivals[i..])
    {
      ghost var now := Now(left, refreshes);
      hide Run, Be32, Overlay, Length;
      i := Wait(s, arrivals, start, now);
      if i == |arrivals| { return i, Over(None); }
      RunStep(s, now, arrivals, i);
      var arrival := arrivals[i];
      i := i + 1;
      match arrival {
        case Silent => return i, SendAgain(left - Min(left, s.Interval()));
        case Received(packet, verdict) =>
          var length, matches := Receive(packet);
          if !matches { return i, SendAgain(left - Min(left, s.Interval())); }
          if verdict.AuthError? && verdict.refreshed && refreshes > 0 { return i, CallAgain; }
          return i, Over(Some(Decoded(length, verdict)));
        case _ => return i, Over(Some(CantRecv));
      }
    }

    /** The loop at `send_again`. It leaves the call over, or at `call_again`. */
    method Attempt(s: Setting, arrivals: seq<Arrival>, start: nat, left0: int, refreshes: nat)
      returns (i: nat, left: int, again: bool, outcome: Option<Outcome>)
      requires start <= |arrivals| && refreshes <= s.Refreshes() && |inbuf| >= 4
      modifies this`inbuf, this`sent
      ensures start <= i <= |arrivals| && |inbuf| == |old(inbuf)|
      ensures again ==> i > start && refreshes > 0
      ensures !again && outcome == None ==> i == |arrivals|
      ensures Run(s, old(FromSendAgain(s, Now(left0, refreshes))), arrivals[start..])
              == Run(s, After(s, if again then CallAgain else Over(outcome), Now(left, refreshes)), arrivals[i..])
    {
      hide Run, FromCallAgain;
      i, left, again, outcome := start, left0, false, None;
      while true
        invariant start <= i <= |arrivals| && |inbuf| == |old(inbuf)|
        invariant Run(s, old(FromSendAgain(s, Now(left0, refreshes))), arrivals[start..])
                  == Run(s, FromSendAgain(s, Now(left, refreshes)), arrivals[i..])
        decreases |arrivals| - i
      {
        if left <= 0 { return i, left, false, Some(TimedOut); }
        if !s.world.sends(|sent|) { return i, left, false, Some(CantSend); }
        sent := sent + [xid];
        var next;
        i, next := Turn(s, arrivals, i, left, refreshes);
        match next {
          case SendAgain(remaining) => left := remaining;
          case CallAgain => return i, left, true, None;
          case Over(o) => return i, left, false, o;
        }
      }
    }

    /** From `call_again` to `send_again`. */
    method Marshal(s: Setting, ghost left: int, refreshes: nat) returns (outcome: Option<Outcome>)
      requires refreshes <= s.Refreshes()
      modifies this`xid
      ensures old(FromCallAgain(s, Now(left, refreshes)))
              == if outcome == None then FromSendAgain(s, Now(left, refreshes))
                 else Now(left, refreshes).(outcome := outcome)
    {
      xid := NextXid(xid);
      if !s.world.encodes(s.Refreshes() - refreshes) { return Some(CantEncodeArgs); }
      if s.timeout == Timeval(0, 0) { return Some(TimedOut); }
      outcome := None;
    }

    /** From `call_again` to the end of the call, or to the next time there. */
    method Round(s: Setting, arrivals: seq<Arrival>, start: nat, left0: int, refreshes: nat)
      returns (i: nat, left: int, again: bool, outcome: Option<Outcome>)
      requires start <= |arrivals| && refreshes <= s.Refreshes() && |inbuf| >= 4
      modifies this
      ensures start <= i <= |arrivals| && |inbuf| == |old(inbuf)|
      ensures again ==> i > start && refreshes > 0
      ensures !again && outcome == None ==> i == |arrivals|
      ensures Run(s, old(FromCallAgain(s, Now(left0, refreshes))), arrivals[start..])
              == Run(s, Resumed(s, again, outcome, Now(left, if again then refreshes - 1 else refreshes)),
                     arrivals[i..])
    {
      hide Run, FromSendAgain, FromCallAgain;
      i, left, again := start, left0, false;
      outcome := Marshal(s, left, refreshes);
      if outcome == None {
        i, left, again, outcome := Attempt(s, arrivals, start, left, refreshes);
      }
    }

    method Call(s: Setting, arrivals: seq<Arrival>) returns (outcome: Option<Outcome>)
      requires |inbuf| >= 4
      modifies this
      ensures |inbuf| == |old(inbuf)|
      ensures var end := Run(s, Begin(s, old(xid), old(inbuf)), arrivals);
              outcome == end.outcome && sent == end.sent && xid == end.xid && inbuf == end.inbuf
    {
      ghost var end := Run(s, Begin(s, xid, inbuf), arrivals);
      assert arrivals[0..] == arrivals;
      hide Run, FromSendAgain, FromCallAgain, Resumed;
      var left: int, refreshes: nat, i, again := s.Total(), s.Refreshes(), 0, true;
      outcome := None;
      sent := [];
      assert Now(left, refreshes) == Transaction(xid, [], s.Total(), s.Refreshes(), inbuf, None);
      while again
        invariant 0 <= i <= |arrivals| && refreshes <= s.Refreshes() && |inbuf| == |old(inbuf)|
        invariant !again && outcome == None ==> i == |arrivals|
        invariant end == Run(s, Resumed(s, again, outcome, Now(left, refreshes)), arrivals[i..])
        decreases |arrivals| - i, again
      {
        i, left, again, outcome := Round(s, arrivals, i, left, refreshes);
        if again { refreshes := refreshes - 1; }
      }
      RunOver(s, Now(left, refreshes).(outcome := outcome), arrivals[i..]);
    }
  }
}
