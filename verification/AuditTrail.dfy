/**
  Whole runs of one policy: its audit stream tells exactly what it decided, and the events that allow a
  mutation obey the rate bound of the limiter.
*/
module AuditTrail {
  import opened Common
  import opened RateLimit
  import opened PolicyGate

  datatype Op = Authorize(attempt: Attempt) | Engage | Release

  function Next(g: Gate, manifests: seq<Manifest>, op: Op): Gate {
    match op
    case Authorize(a) => AfterAttempt(g, manifests, a)
    case Engage => g.(killed := true)
    case Release => g.(killed := false)
  }

  function Run(g: Gate, manifests: seq<Manifest>, ops: seq<Op>): Gate
    decreases |ops|
  {
    if ops == [] then g else Run(Next(g, manifests, ops[0]), manifests, ops[1..])
  }

  /** What the authorize calls of a run return. */
  function Results(g: Gate, manifests: seq<Manifest>, ops: seq<Op>): seq<Result<()>>
    decreases |ops|
  {
    if ops == [] then []
    else
      (if ops[0].Authorize? then [Verdict(g, manifests, ops[0].attempt)] else [])
      + Results(Next(g, manifests, ops[0]), manifests, ops[1..])
  }

  /** The events a run adds to the audit stream. */
  function Trail(g: Gate, manifests: seq<Manifest>, ops: seq<Op>): seq<AuditEvent>
    decreases |ops|
  {
    if ops == [] then []
    else
      (if ops[0].Authorize? then [EventOf(g, manifests, ops[0].attempt)] else [])
      + Trail(Next(g, manifests, ops[0]), manifests, ops[1..])
  }

  lemma {:induction false} StreamIsTrail(g: Gate, manifests: seq<Manifest>, ops: seq<Op>)
    ensures Run(g, manifests, ops).events == g.events + Trail(g, manifests, ops)
    decreases |ops|
  {
    if ops != [] {
      StreamIsTrail(Next(g, manifests, ops[0]), manifests, ops[1..]);
      if ops[0].Authorize? {
        Associate(g.events, [EventOf(g, manifests, ops[0].attempt)], Trail(Next(g, manifests, ops[0]), manifests, ops[1..]));
      }
    }
  }

  /** One event for each call, and it denies exactly when the call fails. */
  lemma {:induction false} TrailIsFaithful(g: Gate, manifests: seq<Manifest>, ops: seq<Op>)
    ensures var events, results := Trail(g, manifests, ops), Results(g, manifests, ops);
            && |events| == |results|
            && forall i | 0 <= i < |events| :: events[i].decision == Deny <==> results[i].Failure?
    decreases |ops|
  {
    if ops != [] {
      TrailIsFaithful(Next(g, manifests, ops[0]), manifests, ops[1..]);
    }
  }

  /** The authorize calls of a run. */
  function Attempts(ops: seq<Op>): seq<Attempt> {
    if ops == [] then [] else (if ops[0].Authorize? then [ops[0].attempt] else []) + Attempts(ops[1..])
  }

  /** The event tells who asked for what, when, and whether it was a preview. */
  predicate Tells(event: AuditEvent, a: Attempt) {
    && event.requestId == a.request.requestId && event.alias == a.request.alias && event.pid == a.identity.pid
    && event.operation == a.request.valueRepr && event.capability == a.request.capability && event.timestamp == a.at.stamp
    && (event.decision == Decision.Preview ==> a.request.preview) && (event.decision == Allow ==> !a.request.preview)
  }

  /** The events are about the calls of the run, in their order. */
  lemma {:induction false} TrailTellsCalls(g: Gate, manifests: seq<Manifest>, ops: seq<Op>)
    ensures var events, calls := Trail(g, manifests, ops), Attempts(ops);
            |events| == |calls| && forall i | 0 <= i < |events| :: Tells(events[i], calls[i])
    decreases |ops|
  {
    if ops != [] {
      TrailTellsCalls(Next(g, manifests, ops[0]), manifests, ops[1..]);
    }
  }

  /** A call takes a slot of its alias's live window exactly when its event allows it; other aliases keep theirs. */
  lemma SlotIffAllow(g: Gate, manifests: seq<Manifest>, a: Attempt)
    ensures var alias, after := a.request.alias, AfterAttempt(g, manifests, a);
            var live := Rolled(WindowOf(g.windows, alias), a.at.limiter);
            && (if EventOf(g, manifests, a).decision == Allow
                then WindowOf(after.windows, alias) == live.(count := live.count + 1) && live.count < MAX_PER_MINUTE
                else WindowOf(after.windows, alias) == WindowOf(g.windows, alias) || WindowOf(after.windows, alias) == live)
            && forall other | other != alias :: WindowOf(after.windows, other) == WindowOf(g.windows, other)
  {
  }

  // ---------------------------------------------------------------- the rate of allow events

  /** A positive clock that never runs backwards, neither within a call nor between calls. */
  predicate Ticking(ops: seq<Op>, from: int)
    decreases |ops|
  {
    from > 0 &&
    (ops == [] ||
     if ops[0].Authorize? then
       var at := ops[0].attempt.at;
       from <= at.token <= at.limiter <= at.stamp && Ticking(ops[1..], at.stamp)
     else Ticking(ops[1..], from))
  }

  function AllowEvents(events: seq<AuditEvent>, alias: string, lo: int, hi: int): nat {
    if events == [] then 0
    else
      (if events[0].decision == Allow && events[0].alias == alias && lo <= events[0].timestamp <= hi then 1 else 0)
      + AllowEvents(events[1..], alias, lo, hi)
  }

  /** The calls the limiter sees. */
  function LimiterCalls(g: Gate, manifests: seq<Manifest>, ops: seq<Op>): seq<Call>
    decreases |ops|
  {
    if ops == [] then []
    else
      (if ops[0].Authorize? && AsksLimiter(g, manifests, ops[0].attempt)
       then [Call(ops[0].attempt.request.alias, ops[0].attempt.at.limiter)] else [])
      + LimiterCalls(Next(g, manifests, ops[0]), manifests, ops[1..])
  }

  /** How many calls were allowed by the limiter's own reading of the clock. */
  function Allowed(g: Gate, manifests: seq<Manifest>, ops: seq<Op>, alias: string, lo: int, hi: int): nat
    decreases |ops|
  {
    if ops == [] then 0
    else
      (if ops[0].Authorize? && DecisionOf(g, manifests, ops[0].attempt) == Allow && ops[0].attempt.request.alias == alias
          && lo <= ops[0].attempt.at.limiter <= hi then 1 else 0)
      + Allowed(Next(g, manifests, ops[0]), manifests, ops[1..], alias, lo, hi)
  }

  lemma {:induction false} AllowedIsGranted(g: Gate, manifests: seq<Manifest>, ops: seq<Op>, alias: string, lo: int, hi: int)
    ensures var calls := LimiterCalls(g, manifests, ops);
            Allowed(g, manifests, ops, alias, lo, hi) == Granted(calls, Answers(g.windows, calls, MAX_PER_MINUTE), alias, lo, hi)
    decreases |ops|
  {
    if ops != [] {
      var g' := Next(g, manifests, ops[0]);
      AllowedIsGranted(g', manifests, ops[1..], alias, lo, hi);
      if ops[0].Authorize? && AsksLimiter(g, manifests, ops[0].attempt) {
        var a, more := ops[0].attempt, LimiterCalls(g', manifests, ops[1..]);
        GrantedCons(g.windows, Call(a.request.alias, a.at.limiter), more, alias, lo, hi);
      } else {
        assert LimiterCalls(g, manifests, ops) == LimiterCalls(g', manifests, ops[1..]);
      }
    }
  }

  lemma GrantedCons(windows: Windows, c: Call, more: seq<Call>, alias: string, lo: int, hi: int)
    ensures var w := WindowOf(windows, c.alias);
            var windows' := windows[c.alias := AfterCall(w, c.now, MAX_PER_MINUTE)];
            Granted([c] + more, Answers(windows, [c] + more, MAX_PER_MINUTE), alias, lo, hi)
            == (if Admits(w, c.now, MAX_PER_MINUTE) && c.alias == alias && lo <= c.now <= hi then 1 else 0)
               + Granted(more, Answers(windows', more, MAX_PER_MINUTE), alias, lo, hi)
  {
    assert ([c] + more)[1..] == more;
    var answers := Answers(windows, [c] + more, MAX_PER_MINUTE);
    var w := WindowOf(windows, c.alias);
    assert answers[1..] == Answers(windows[c.alias := AfterCall(w, c.now, MAX_PER_MINUTE)], more, MAX_PER_MINUTE);
  }

  lemma {:induction false} LimiterIsClocked(g: Gate, manifests: seq<Manifest>, ops: seq<Op>, from: int)
    requires Ticking(ops, from)
    ensures Clocked(Times(LimiterCalls(g, manifests, ops)), from)
    decreases |ops|
  {
    if ops != [] {
      var g' := Next(g, manifests, ops[0]);
      var more := LimiterCalls(g', manifests, ops[1..]);
      LimiterIsClocked(g', manifests, ops[1..], if ops[0].Authorize? then ops[0].attempt.at.stamp else from);
      if ops[0].Authorize? && AsksLimiter(g, manifests, ops[0].attempt) {
        var c := Call(ops[0].attempt.request.alias, ops[0].attempt.at.limiter);
        assert ([c] + more)[1..] == more;
        assert Times([c] + more) == [c.now] + Times(more);
      }
    }
  }

  /** Events are stamped after the limiter was asked, so an interval holds at most one event more than limiter calls. */
  lemma {:induction false} StampsFollowLimiter(g: Gate, manifests: seq<Manifest>, ops: seq<Op>, from: int, alias: string, lo: int, hi: int)
    requires Ticking(ops, from)
    ensures AllowEvents(Trail(g, manifests, ops), alias, lo, hi)
         <= Allowed(g, manifests, ops, alias, lo, hi) + if from >= lo then 0 else 1
    decreases |ops|
  {
    if ops != [] {
      var g' := Next(g, manifests, ops[0]);
      if ops[0].Authorize? {
        StampsFollowLimiter(g', manifests, ops[1..], ops[0].attempt.at.stamp, alias, lo, hi);
        assert Trail(g, manifests, ops)[1..] == Trail(g', manifests, ops[1..]);
      } else {
        StampsFollowLimiter(g', manifests, ops[1..], from, alias, lo, hi);
        assert Trail(g, manifests, ops) == Trail(g', manifests, ops[1..]);
      }
    }
  }

  const INITIAL: Gate := Gate(false, map[], [])

  /** By the limiter's clock no interval allows more than the limiter's own exact bound. */
  lemma AllowedIsBounded(manifests: seq<Manifest>, ops: seq<Op>, alias: string, lo: int, hi: int)
    requires Ticking(ops, 1) && lo <= hi
    ensures Allowed(INITIAL, manifests, ops, alias, lo, hi) <= Bound(hi - lo, MAX_PER_MINUTE)
  {
    AllowedIsGranted(INITIAL, manifests, ops, alias, lo, hi);
    LimiterIsClocked(INITIAL, manifests, ops, 1);
    RateBound(LimiterCalls(INITIAL, manifests, ops), MAX_PER_MINUTE, alias, lo, hi);
  }

  /** In the audit stream of any run, an alias is allowed at most 120 mutations per started minute, and 120 more. */
  lemma AuditedRateIsBounded(manifests: seq<Manifest>, ops: seq<Op>, alias: string, lo: int, hi: int)
    requires Ticking(ops, 1) && lo <= hi
    ensures AllowEvents(Run(INITIAL, manifests, ops).events, alias, lo, hi) <= ((hi - lo) / MINUTE + 2) * MAX_PER_MINUTE
  {
    AllowedIsBounded(manifests, ops, alias, lo, hi);
    StampsFollowLimiter(INITIAL, manifests, ops, 1, alias, lo, hi);
    StreamIsTrail(INITIAL, manifests, ops);
    assert [] + Trail(INITIAL, manifests, ops) == Trail(INITIAL, manifests, ops);
  }

  // ---------------------------------------------------------------- the kill switch

  /** From the moment the kill switch is engaged until it is released, every call fails and every event denies. */
  lemma {:induction false} KillSwitchStopsAll(g: Gate, manifests: seq<Manifest>, ops: seq<Op>)
    requires g.killed && Release !in ops
    ensures forall r | r in Results(g, manifests, ops) :: r == Failure(PolicyDenied)
    ensures forall e | e in Trail(g, manifests, ops) :: e.decision == Deny
    ensures Run(g, manifests, ops).windows == g.windows
    decreases |ops|
  {
    if ops != [] {
      assert ops[0] in ops && forall op | op in ops[1..] :: op in ops;
      KillSwitchStopsAll(Next(g, manifests, ops[0]), manifests, ops[1..]);
    }
  }
}
