/**
  What happens to the target's memory over whole runs of the agent: who changes a byte, and what an engaged
  kill switch does and does not prevent. Freeze and restore requests never reach the policy.
*/
module AgentMemory {
  import opened Common
  import opened ByteMemory
  import opened JsonCodec
  import opened HexValues
  import opened AgentApprovals
  import opened FreezeRollback
  import opened FreezeWrites
  import FreezeProtocol

  // ---------------------------------------------------------------- the manager inside the agent

  lemma StepKeepsStructure(c: Setting, s: Agent, step: Step)
    requires Structure(s.freezer)
    ensures Structure(Next(c, s, step).freezer)
    ensures Grows(s.freezer, Next(c, s, step).freezer)
  {
    if step.Freezer? {
      if FreezeProtocol.Next(s.freezer, step.move).Some? {
        StepGrows(s.freezer, step.move);
        match step.move
        case Caller(op) => CallerKeepsStructure(s.freezer, op);
        case Worker(i, act) => WorkerKeepsStructure(s.freezer, i, act);
      }
    } else {
      var t := Next(c, s, step);
      MemoryIsFree(s.freezer, t.freezer.mem);
      assert t.freezer == s.freezer.(mem := t.freezer.mem);
    }
  }

  lemma MemoryIsFree(s: FreezeProtocol.State, mem: Memory)
    requires Structure(s)
    ensures Structure(s.(mem := mem))
  {
    forall i | 0 <= i < |s.entries| ensures EntryOk(s.(mem := mem), i) {
      assert EntryOk(s, i);
    }
  }

  /** Whatever requests come, the manager's bookkeeping stays consistent and no freeze is forgotten. */
  lemma {:induction false} RunKeepsManager(c: Setting, s: Agent, steps: seq<Step>)
    requires Structure(s.freezer)
    ensures Structure(Run(c, s, steps).freezer)
    ensures Grows(s.freezer, Run(c, s, steps).freezer)
  {
    if steps != [] {
      var before := Run(c, s, steps[..|steps| - 1]);
      RunKeepsManager(c, s, steps[..|steps| - 1]);
      StepKeepsStructure(c, before, steps[|steps| - 1]);
      GrowsOn(s.freezer, before.freezer, Next(c, before, steps[|steps| - 1]).freezer);
    }
  }

  lemma GrowsOn(s: FreezeProtocol.State, m: FreezeProtocol.State, t: FreezeProtocol.State)
    requires Grows(s, m) && Grows(m, t)
    ensures Grows(s, t)
  {
    forall i | 0 <= i < |s.entries| ensures Evolves(s.entries[i], t.entries[i]) {
      assert Evolves(s.entries[i], m.entries[i]) && Evolves(m.entries[i], t.entries[i]);
    }
  }

  /** Steps of the manager alone, as steps of the agent. */
  function Lifted(moves: seq<FreezeProtocol.Label>): (r: seq<Step>)
    ensures |r| == |moves| && forall k | 0 <= k < |r| :: r[k] == Freezer(moves[k])
  {
    seq(|moves|, k requires 0 <= k < |moves| => Freezer(moves[k]))
  }

  lemma {:induction false} LiftRun(c: Setting, s: Agent, moves: seq<FreezeProtocol.Label>)
    requires FreezeProtocol.Run(s.freezer, moves).Some?
    ensures Run(c, s, Lifted(moves)) == s.(freezer := FreezeProtocol.Run(s.freezer, moves).value)
    decreases |moves|
  {
    if moves != [] {
      var m := s.(freezer := FreezeProtocol.Next(s.freezer, moves[0]).value);
      LiftRun(c, m, moves[1..]);
      RunAppend(c, s, [Freezer(moves[0])], Lifted(moves[1..]));
      assert Lifted(moves) == [Freezer(moves[0])] + Lifted(moves[1..]);
      OneStep(c, s, Freezer(moves[0]));
    }
  }

  lemma OneStep(c: Setting, s: Agent, step: Step)
    ensures Run(c, s, [step]) == Next(c, s, step)
  {
    assert [step][..0] == [];
  }

  // ---------------------------------------------------------------- who changes a byte

  predicate InWindow(a: Address, address: Address, size: nat) {
    address <= a < address + size
  }

  /** The step may write the byte: as an apply, as a worker whose freeze covers it, or as a restore of such a freeze. */
  ghost predicate MayWrite(c: Setting, s: Agent, step: Step, a: Address) {
    match step
    case Apply(params, _, _) =>
      Writes(c, s, step) && InWindow(a, MakeRequest(params, "apply", c.truncate).address, |ValueIn(params).bytes|)
    case Freezer(Worker(i, act)) =>
      && act.Rewrite? && i < |s.freezer.entries|
      && s.freezer.entries[i].Covers(a) && s.freezer.entries[i].pc == FreezeProtocol.Writing
    case Freezer(Caller(op)) =>
      && op.RestoreWrite? && s.freezer.client.Rewriting?
      && s.freezer.client.i < |s.freezer.entries| && s.freezer.entries[s.freezer.client.i].Covers(a)
    case _ => false
  }

  lemma StepChangeHasCause(c: Setting, s: Agent, step: Step, a: Address)
    requires Structure(s.freezer) && !SameAt(Next(c, s, step).Memory(), s.Memory(), a)
    ensures MayWrite(c, s, step, a)
  {
    if step.Freezer? {
      OnlyOwnersWrite(s.freezer, step.move, a);
      assert step.move.Worker? ==> step.move.act.Rewrite?;
    } else if Writes(c, s, step) {
      var address := MakeRequest(step.params, "apply", c.truncate).address;
      WriteBytesEffect(s.Memory(), address, ValueIn(step.params).bytes, step.written);
    }
  }

  /** Over any run of the agent, a byte that is not what it was has been changed by a step of these three kinds. */
  lemma {:induction false} ChangeHasCause(c: Setting, s: Agent, steps: seq<Step>, a: Address) returns (k: nat)
    requires Structure(s.freezer) && !SameAt(Run(c, s, steps).Memory(), s.Memory(), a)
    ensures k < |steps| && MayWrite(c, Before(c, s, steps, k), steps[k], a)
  {
    var last := |steps| - 1;
    var front := steps[..last];
    if SameAt(Run(c, s, front).Memory(), s.Memory(), a) {
      k := last;
      RunKeepsManager(c, s, front);
      StepChangeHasCause(c, Run(c, s, front), steps[last], a);
    } else {
      k := ChangeHasCause(c, s, front, a);
      assert front[..k] == steps[..k];
    }
  }

  lemma OnlyAppliesOutside(c: Setting, s: Agent, step: Step, a: Address)
    requires MayWrite(c, s, step, a) && !Covered(s.freezer, a)
    ensures step.Apply?
  {
  }

  /** So a byte that no freeze covers in the end changes only by an apply that answers a preview and writes it. */
  lemma OutsideFreezesOnlyAppliesWrite(c: Setting, s: Agent, steps: seq<Step>, a: Address) returns (k: nat)
    requires Structure(s.freezer) && !SameAt(Run(c, s, steps).Memory(), s.Memory(), a)
    requires !Covered(Run(c, s, steps).freezer, a)
    ensures k < |steps| && steps[k].Apply? && MayWrite(c, Before(c, s, steps, k), steps[k], a)
  {
    k := ChangeHasCause(c, s, steps, a);
    NotCoveredBefore(c, s, steps, k, a);
    OnlyAppliesOutside(c, Before(c, s, steps, k), steps[k], a);
  }

  lemma GrowsToTheEnd(c: Setting, s: Agent, steps: seq<Step>, k: nat)
    requires Structure(s.freezer) && k <= |steps|
    ensures Grows(Before(c, s, steps, k).freezer, Run(c, s, steps).freezer)
  {
    assert steps == steps[..k] + steps[k..];
    RunAppend(c, s, steps[..k], steps[k..]);
    RunKeepsManager(c, s, steps[..k]);
    RunKeepsManager(c, Run(c, s, steps[..k]), steps[k..]);
  }

  lemma NotCoveredBefore(c: Setting, s: Agent, steps: seq<Step>, k: nat, a: Address)
    requires Structure(s.freezer) && k <= |steps| && !Covered(Run(c, s, steps).freezer, a)
    ensures !Covered(Before(c, s, steps, k).freezer, a)
  {
    GrowsToTheEnd(c, s, steps, k);
    GrowthKeepsCover(Before(c, s, steps, k).freezer, Run(c, s, steps).freezer, a);
  }

  // ---------------------------------------------------------------- under an engaged kill switch

  /** No step of the run begins a freeze or a restore. */
  predicate AllQuiet(steps: seq<Step>) {
    forall step | step in steps :: step.Freezer? ==> Quiet(step.move)
  }

  lemma KilledStepStaysSettled(c: Setting, s: Agent, step: Step)
    requires s.gate.killed && Settled(s.freezer) && NoWriteUnderWay(s.freezer.client)
    requires step.Freezer? ==> Quiet(step.move)
    ensures var t := Next(c, s, step);
            t.Memory() == s.Memory() && Settled(t.freezer) && NoWriteUnderWay(t.freezer.client)
  {
    KilledStepAddsNothing(c, s, step);
    if step.Freezer? && FreezeProtocol.Next(s.freezer, step.move).Some? {
      StepStaysSettled(s.freezer, step.move);
    }
  }

  lemma {:induction false} KilledRunStaysSettled(c: Setting, s: Agent, steps: seq<Step>)
    requires s.gate.killed && Settled(s.freezer) && NoWriteUnderWay(s.freezer.client)
    requires NeverReleases(steps) && AllQuiet(steps)
    ensures var t := Run(c, s, steps);
            t.gate.killed && t.Memory() == s.Memory() && Settled(t.freezer) && NoWriteUnderWay(t.freezer.client)
  {
    if steps != [] {
      var last := |steps| - 1;
      var before := Run(c, s, steps[..last]);
      NeverReleasesFront(steps);
      assert steps[last] in steps && forall step | step in steps[..last] :: step in steps;
      KilledRunStaysSettled(c, s, steps[..last]);
      KilledStepStaysSettled(c, before, steps[last]);
      KilledStepAddsNothing(c, before, steps[last]);
    }
  }

  /**
    With the kill switch engaged, and neither a freeze nor a restore under way: all the runs that never release
    it and begin no freeze or restore leave memory alone if and only if no worker can still write anything new.
  */
  lemma KilledRunsKeepMemoryIff(c: Setting, s: Agent)
    requires s.gate.killed && Structure(s.freezer) && NoWriteUnderWay(s.freezer.client)
    ensures (forall steps | NeverReleases(steps) && AllQuiet(steps) :: Run(c, s, steps).Memory() == s.Memory())
       <==> Settled(s.freezer)
  {
    if Settled(s.freezer) {
      forall steps | NeverReleases(steps) && AllQuiet(steps) ensures Run(c, s, steps).Memory() == s.Memory() {
        KilledRunStaysSettled(c, s, steps);
      }
    } else {
      var f := s.freezer;
      var i :| 0 <= i < |f.entries| && CanStillWrite(f.entries[i]) && !Shows(f.mem, f.entries[i]);
      var steps := UnsettledRunWrites(c, s, i);
    }
  }

  /** A live worker with something new to write does so whatever the policy says. */
  lemma UnsettledRunWrites(c: Setting, s: Agent, i: nat) returns (steps: seq<Step>)
    requires Structure(s.freezer) && i < |s.freezer.entries|
    requires CanStillWrite(s.freezer.entries[i]) && !Shows(s.freezer.mem, s.freezer.entries[i])
    ensures NeverReleases(steps) && AllQuiet(steps)
    ensures Run(c, s, steps).Memory() != s.Memory() && Run(c, s, steps).gate == s.gate
  {
    assert EntryOk(s.freezer, i);
    var moves, t := CanChangeMemory(s.freezer, i);
    LiftRun(c, s, moves);
    steps := Lifted(moves);
    LiftedIsQuiet(moves);
  }

  lemma LiftedIsQuiet(moves: seq<FreezeProtocol.Label>)
    requires forall move | move in moves :: Quiet(move)
    ensures AllQuiet(Lifted(moves)) && NeverReleases(Lifted(moves))
  {
    forall step | step in Lifted(moves) ensures step.Freezer? && Quiet(step.move) {
      var k :| 0 <= k < |moves| && Lifted(moves)[k] == step;
      assert moves[k] in moves;
    }
  }

  /** In the steps of the run the client does only these of the manager's. */
  predicate OnlyOps(steps: seq<Step>, ops: set<FreezeProtocol.Op>) {
    forall step | step in steps :: step.Freezer? && (step.move.Worker? || step.move.op in ops)
  }

  lemma LiftedWithin(moves: seq<FreezeProtocol.Label>, ops: set<FreezeProtocol.Op>)
    requires FreezeProtocol.Within(moves, ops)
    ensures OnlyOps(Lifted(moves), ops)
  {
    forall step | step in Lifted(moves) ensures step.Freezer? && (step.move.Worker? || step.move.op in ops) {
      var k :| 0 <= k < |moves| && Lifted(moves)[k] == step;
      assert moves[k] in moves;
    }
  }

  /**
    A restore of a stopped freeze writes the saved bytes, engaged or not: such a run leaves memory as it was if
    and only if the saved bytes are there already.
  */
  lemma KilledRestoreWrites(c: Setting, s: Agent, i: nat) returns (steps: seq<Step>)
    requires s.gate.killed && Structure(s.freezer) && s.freezer.client == FreezeProtocol.Idle
    requires i < |s.freezer.entries| && !s.freezer.entries[i].Joinable()
    ensures var e := s.freezer.entries[i];
            var t := Run(c, s, steps);
            && OnlyOps(steps, FreezeProtocol.RestoreOps(e.request.id, FreezeProtocol.Wrote(|e.original|)))
            && t.gate.killed && t.freezer.client == FreezeProtocol.Idle && SavedIsThere(t.Memory(), e)
            && (t.Memory() == s.Memory() <==> SavedIsThere(s.Memory(), e))
  {
    var e := s.freezer.entries[i];
    assert EntryOk(s.freezer, i);
    var moves := RestoreRun(s.freezer, i);
    steps := Lifted(moves);
    LiftRun(c, s, moves);
    LiftedWithin(moves, FreezeProtocol.RestoreOps(e.request.id, FreezeProtocol.Wrote(|e.original|)));
    WrittenIsSameIff(s.Memory(), e);
  }

  /** A freeze that is accepted starts a worker, engaged or not, and if its value is new the worker can write it. */
  lemma KilledFreezeWrites(c: Setting, s: Agent, request: FreezeProtocol.FreezeRequest) returns (steps: seq<Step>)
    requires s.gate.killed && Structure(s.freezer) && s.freezer.client == FreezeProtocol.Idle
    requires FreezeProtocol.Snapshot(s.freezer, request).Success?
    requires !Shows(s.Memory(), FreezeProtocol.Snapshot(s.freezer, request).value)
    ensures OnlyOps(steps, FreezeProtocol.FreezeOps(request))
    ensures Run(c, s, steps).gate.killed && Run(c, s, steps).Memory() != s.Memory()
  {
    var moves, t := AcceptedFreezeWrites(s.freezer, request);
    LiftRun(c, s, moves);
    LiftedWithin(moves, FreezeProtocol.FreezeOps(request));
    steps := Lifted(moves);
  }
}
