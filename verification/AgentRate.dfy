/**
  How often the agent writes: applies without the preview flag obey the policy's rate bound, over any run, in any
  interval, for any alias; applies with the flag are never counted and have no bound at all.
*/
module AgentRate {
  import opened Common
  import opened JsonCodec
  import opened RateLimit
  import opened PolicyGate
  import opened AgentApprovals
  import opened HexValues
  import AuditTrail
  import FreezeProtocol

  /** What a step asks of the policy: nothing when an apply finds no pending approval. */
  function OpsOfStep(c: Setting, s: Agent, step: Step): seq<AuditTrail.Op> {
    match step
    case Preview(params, at, _) => [AuditTrail.Authorize(PreviewAttempt(c, params, at))]
    case Apply(params, at, _) =>
      if Consumes(s, step) then [AuditTrail.Authorize(ApplyAttempt(c, s.pending[RequestId(params)], params, at))] else []
    case Switch(params) => [if GetBool(params, "engage", true) then AuditTrail.Engage else AuditTrail.Release]
    case Freezer(_) => []
  }

  ghost function OpsOf(c: Setting, s: Agent, steps: seq<Step>): seq<AuditTrail.Op> {
    if steps == [] then []
    else
      var last := |steps| - 1;
      OpsOf(c, s, steps[..last]) + OpsOfStep(c, Run(c, s, steps[..last]), steps[last])
  }

  lemma {:induction false} GateRunAppend(g: Gate, manifests: seq<Manifest>, xs: seq<AuditTrail.Op>, ys: seq<AuditTrail.Op>)
    ensures AuditTrail.Run(g, manifests, xs + ys) == AuditTrail.Run(AuditTrail.Run(g, manifests, xs), manifests, ys)
    decreases |xs|
  {
    if xs == [] {
      assert xs + ys == ys;
    } else {
      assert (xs + ys)[1..] == xs[1..] + ys;
      GateRunAppend(AuditTrail.Next(g, manifests, xs[0]), manifests, xs[1..], ys);
    }
  }

  lemma {:induction false} AllowedAppend(g: Gate, manifests: seq<Manifest>, xs: seq<AuditTrail.Op>, ys: seq<AuditTrail.Op>,
                                         alias: string, lo: int, hi: int)
    ensures AuditTrail.Allowed(g, manifests, xs + ys, alias, lo, hi)
         == AuditTrail.Allowed(g, manifests, xs, alias, lo, hi)
            + AuditTrail.Allowed(AuditTrail.Run(g, manifests, xs), manifests, ys, alias, lo, hi)
    decreases |xs|
  {
    if xs == [] {
      assert xs + ys == ys;
    } else {
      assert (xs + ys)[1..] == xs[1..] + ys;
      AllowedAppend(AuditTrail.Next(g, manifests, xs[0]), manifests, xs[1..], ys, alias, lo, hi);
    }
  }

  lemma StepMovesGate(c: Setting, s: Agent, step: Step)
    ensures Next(c, s, step).gate == AuditTrail.Run(s.gate, c.manifests, OpsOfStep(c, s, step))
  {
    var ops := OpsOfStep(c, s, step);
    if ops != [] {
      assert ops[1..] == [];
      assert AuditTrail.Run(s.gate, c.manifests, ops) == AuditTrail.Next(s.gate, c.manifests, ops[0]);
    }
  }

  /** The agent moves its policy only by these calls. */
  lemma {:induction false} GateFollowsOps(c: Setting, s: Agent, steps: seq<Step>)
    ensures Run(c, s, steps).gate == AuditTrail.Run(s.gate, c.manifests, OpsOf(c, s, steps))
  {
    if steps != [] {
      var last := |steps| - 1;
      var before := Run(c, s, steps[..last]);
      GateFollowsOps(c, s, steps[..last]);
      StepMovesGate(c, before, steps[last]);
      GateRunAppend(s.gate, c.manifests, OpsOf(c, s, steps[..last]), OpsOfStep(c, before, steps[last]));
    }
  }

  /** An apply for the alias that reaches write_bytes between lo and hi by the limiter's clock. */
  predicate Reaches(c: Setting, s: Agent, step: Step, alias: string, lo: int, hi: int) {
    Writes(c, s, step) && GetString(step.params, "target_alias", "") == alias && lo <= step.at.limiter <= hi
  }

  /** The same without the preview flag. */
  predicate CountedWrite(c: Setting, s: Agent, step: Step, alias: string, lo: int, hi: int) {
    Reaches(c, s, step, alias, lo, hi) && !Flagged(step.params)
  }

  ghost function WritesWithin(c: Setting, s: Agent, steps: seq<Step>, alias: string, lo: int, hi: int): nat {
    if steps == [] then 0
    else
      var last := |steps| - 1;
      WritesWithin(c, s, steps[..last], alias, lo, hi)
      + if CountedWrite(c, Run(c, s, steps[..last]), steps[last], alias, lo, hi) then 1 else 0
  }

  ghost function AllWritesWithin(c: Setting, s: Agent, steps: seq<Step>, alias: string, lo: int, hi: int): nat {
    if steps == [] then 0
    else
      var last := |steps| - 1;
      AllWritesWithin(c, s, steps[..last], alias, lo, hi)
      + if Reaches(c, Run(c, s, steps[..last]), steps[last], alias, lo, hi) then 1 else 0
  }

  lemma WriteIsAllowed(c: Setting, s: Agent, step: Step, alias: string, lo: int, hi: int)
    requires CountedWrite(c, s, step, alias, lo, hi)
    ensures AuditTrail.Allowed(s.gate, c.manifests, OpsOfStep(c, s, step), alias, lo, hi) == 1
  {
    var ops := OpsOfStep(c, s, step);
    assert ops[1..] == [];
    var g := AuditTrail.Next(s.gate, c.manifests, ops[0]);
    assert AuditTrail.Allowed(g, c.manifests, ops[1..], alias, lo, hi) == 0;
  }

  lemma {:induction false} WritesAreAllowed(c: Setting, s: Agent, steps: seq<Step>, alias: string, lo: int, hi: int)
    ensures WritesWithin(c, s, steps, alias, lo, hi)
         <= AuditTrail.Allowed(s.gate, c.manifests, OpsOf(c, s, steps), alias, lo, hi)
  {
    if steps != [] {
      var last := |steps| - 1;
      var before, ops := Run(c, s, steps[..last]), OpsOf(c, s, steps[..last]);
      WritesAreAllowed(c, s, steps[..last], alias, lo, hi);
      GateFollowsOps(c, s, steps[..last]);
      AllowedAppend(s.gate, c.manifests, ops, OpsOfStep(c, before, steps[last]), alias, lo, hi);
      if CountedWrite(c, before, steps[last], alias, lo, hi) {
        WriteIsAllowed(c, before, steps[last], alias, lo, hi);
      }
    }
  }

  /** Over any run from a fresh policy, with a clock that runs, the agent's approved writes obey the exact rate bound. */
  lemma AgentWritesAreBounded(c: Setting, s: Agent, steps: seq<Step>, alias: string, lo: int, hi: int)
    requires s.gate == AuditTrail.INITIAL && AuditTrail.Ticking(OpsOf(c, s, steps), 1) && lo <= hi
    ensures WritesWithin(c, s, steps, alias, lo, hi) <= Bound(hi - lo, MAX_PER_MINUTE)
  {
    WritesAreAllowed(c, s, steps, alias, lo, hi);
    AuditTrail.AllowedIsBounded(c.manifests, OpsOf(c, s, steps), alias, lo, hi);
  }

  predicate Unflagged(steps: seq<Step>) {
    forall step | step in steps :: step.Apply? ==> !Flagged(step.params)
  }

  lemma {:induction false} UnflaggedAreCounted(c: Setting, s: Agent, steps: seq<Step>, alias: string, lo: int, hi: int)
    requires Unflagged(steps)
    ensures AllWritesWithin(c, s, steps, alias, lo, hi) == WritesWithin(c, s, steps, alias, lo, hi)
  {
    if steps != [] {
      assert steps[|steps| - 1] in steps && forall step | step in steps[..|steps| - 1] :: step in steps;
      UnflaggedAreCounted(c, s, steps[..|steps| - 1], alias, lo, hi);
    }
  }

  /** So all writes obey the bound in a run whose applies do not carry the preview flag. */
  lemma UnflaggedWritesAreBounded(c: Setting, s: Agent, steps: seq<Step>, alias: string, lo: int, hi: int)
    requires s.gate == AuditTrail.INITIAL && AuditTrail.Ticking(OpsOf(c, s, steps), 1) && lo <= hi
    requires Unflagged(steps)
    ensures AllWritesWithin(c, s, steps, alias, lo, hi) <= Bound(hi - lo, MAX_PER_MINUTE)
  {
    UnflaggedAreCounted(c, s, steps, alias, lo, hi);
    AgentWritesAreBounded(c, s, steps, alias, lo, hi);
  }

  // ---------------------------------------------------------------- with the preview flag

  /** A request that carries the flag, has bytes to write and would pass the policy as a preview. */
  predicate Bypasses(c: Setting, params: Json) {
    Flagged(params) && ValueIn(params).Bytes? && Sound(false, c.manifests, c.identity, MakeRequest(params, "apply", c.truncate))
  }

  lemma PreviewMints(c: Setting, s: Agent, params: Json, at: Readings, issued: int)
    requires !s.gate.killed && Bypasses(c, params)
    ensures Mints(c, s, Step.Preview(params, at, issued))
  {
    AcceptedIff(s.gate, c.manifests, PreviewAttempt(c, params, at));
  }

  /** Once previewed, such an apply writes, approved or not, at any later time and however often the alias has written. */
  lemma FlaggedApplyWrites(c: Setting, s: Agent, params: Json, at: Readings, issued: int, late: Readings,
                           written: FreezeProtocol.Outcome)
    requires !s.gate.killed && Bypasses(c, params)
    ensures var m := Next(c, s, Step.Preview(params, at, issued));
            Writes(c, m, Apply(params, late, written)) && !Next(c, m, Apply(params, late, written)).gate.killed
  {
    PreviewMints(c, s, params, at, issued);
    WritesIff(c, Next(c, s, Step.Preview(params, at, issued)), Apply(params, late, written));
  }

  predicate AllAt(ops: seq<AuditTrail.Op>, at: Readings) {
    forall op | op in ops :: op.Authorize? && op.attempt.at == at
  }

  lemma {:induction false} ConstantClockTicks(ops: seq<AuditTrail.Op>, now: int, from: int)
    requires AllAt(ops, Readings(now, now, now)) && 0 < from <= now
    ensures AuditTrail.Ticking(ops, from)
    decreases |ops|
  {
    if ops != [] {
      assert ops[0] in ops && forall op | op in ops[1..] :: op in ops;
      ConstantClockTicks(ops[1..], now, now);
    }
  }

  /** Two steps, the second of which writes; both ask the policy at one instant. */
  ghost predicate WritesOnce(c: Setting, m: Agent, x: Step, y: Step, alias: string, at: Readings) {
    var t := Next(c, m, x);
    && !Next(c, t, y).gate.killed && AllAt(OpsOfStep(c, m, x), at) && AllAt(OpsOfStep(c, t, y), at)
    && !Reaches(c, m, x, alias, at.limiter, at.limiter) && Reaches(c, t, y, alias, at.limiter, at.limiter)
  }

  lemma PairWrites(c: Setting, m: Agent, params: Json, at: Readings, written: FreezeProtocol.Outcome)
    requires !m.gate.killed && Bypasses(c, params)
    ensures WritesOnce(c, m, Step.Preview(params, at, at.limiter), Apply(params, at, written),
                       GetString(params, "target_alias", ""), at)
  {
    FlaggedApplyWrites(c, m, params, at, at.limiter, at, written);
  }

  lemma RunTwo(c: Setting, s: Agent, steps: seq<Step>, x: Step, y: Step, alias: string, at: Readings)
    requires var m := Run(c, s, steps); WritesOnce(c, m, x, y, alias, at)
    ensures var longer := steps + [x] + [y];
            && !Run(c, s, longer).gate.killed
            && (AllAt(OpsOf(c, s, steps), at) ==> AllAt(OpsOf(c, s, longer), at))
            && AllWritesWithin(c, s, longer, alias, at.limiter, at.limiter)
               == AllWritesWithin(c, s, steps, alias, at.limiter, at.limiter) + 1
  {
    assert (steps + [x])[..|steps|] == steps;
    assert (steps + [x] + [y])[..|steps| + 1] == steps + [x];
  }

  /** After n pairs: the switch is not engaged, every call was made at this instant, and n writes were. */
  ghost predicate Written(c: Setting, s: Agent, steps: seq<Step>, n: nat, alias: string, at: Readings) {
    && !Run(c, s, steps).gate.killed && AllAt(OpsOf(c, s, steps), at)
    && AllWritesWithin(c, s, steps, alias, at.limiter, at.limiter) == n
  }

  lemma OnePairMore(c: Setting, s: Agent, steps: seq<Step>, params: Json, n: nat, at: Readings) returns (longer: seq<Step>)
    requires Written(c, s, steps, n, GetString(params, "target_alias", ""), at) && Bypasses(c, params)
    ensures Written(c, s, longer, n + 1, GetString(params, "target_alias", ""), at)
  {
    var x, y := Step.Preview(params, at, at.limiter), Apply(params, at, FreezeProtocol.Failed);
    PairWrites(c, Run(c, s, steps), params, at, FreezeProtocol.Failed);
    RunTwo(c, s, steps, x, y, GetString(params, "target_alias", ""), at);
    longer := steps + [x] + [y];
  }

  lemma {:induction false} PairsWrite(c: Setting, s: Agent, params: Json, n: nat, at: Readings) returns (steps: seq<Step>)
    requires !s.gate.killed && Bypasses(c, params)
    ensures Written(c, s, steps, n, GetString(params, "target_alias", ""), at)
  {
    steps := [];
    if n > 0 {
      steps := PairsWrite(c, s, params, n - 1, at);
      steps := OnePairMore(c, s, steps, params, n - 1, at);
    }
  }

  /**
    So there is no bound on all writes: with a request that carries the flag, from a fresh policy and with a
    running clock, any number of writes for one alias happens at one instant.
  */
  lemma FlaggedWritesAreUnbounded(c: Setting, s: Agent, params: Json, now: int, n: nat) returns (steps: seq<Step>)
    requires s.gate == AuditTrail.INITIAL && now > 0 && Bypasses(c, params)
    ensures AuditTrail.Ticking(OpsOf(c, s, steps), 1)
    ensures AllWritesWithin(c, s, steps, GetString(params, "target_alias", ""), now, now) == n + Bound(0, MAX_PER_MINUTE)
  {
    var count, at := n + Bound(0, MAX_PER_MINUTE), Readings(now, now, now);
    steps := PairsWrite(c, s, params, count, at);
    ConstantClockTicks(OpsOf(c, s, steps), now, 1);
  }
}
