/** What a worker does with a live and with a dead target, over whole runs and whatever the other threads do. */
module FreezeLife {
  import opened Common
  import opened ByteMemory
  import opened FreezeProtocol
  import opened FreezeRollback
  import opened FreezeCancel

  /** What a step of another thread leaves of a running worker. */
  predicate LeftAlone(e: Entry, f: Entry) {
    f.pc == e.pc && f.okCount == e.okCount && f.failCount == e.failCount && (f.active ==> e.active)
  }

  lemma CallerLeavesAlone(s: State, op: Op, i: nat)
    requires i < |s.entries| && s.entries[i].pc != NotStarted && CallerStep(s, op).Some?
    ensures var t := CallerStep(s, op).value; i < |t.entries| && LeftAlone(s.entries[i], t.entries[i])
  {
  }

  lemma OthersLeaveAlone(s: State, step: Label, i: nat)
    requires i < |s.entries| && s.entries[i].pc != NotStarted && Next(s, step).Some? && !IsStepOf(step, i)
    ensures var t := Next(s, step).value; i < |t.entries| && LeftAlone(s.entries[i], t.entries[i])
  {
    match step
    case Worker(k, act) => WorkerIsLocal(s, k, act);
    case Caller(op) => CallerLeavesAlone(s, op, i);
  }

  // ---------------------------------------------------------------- a dead target ends the loop

  /** A worker that has found its target dead: what it has left to do, and what it has done of it. */
  predicate Dying(e: Entry, left: nat, fails: nat) {
    match left
    case 2 => e.pc == MarkDead && e.failCount == fails
    case 1 => e.pc == CountDead && !e.active && e.failCount == fails
    case 0 => e.pc == Exited && !e.active && e.failCount == fails + 1
    case _ => false
  }

  lemma DyingWorkerStep(e: Entry, act: Action, left: nat, fails: nat)
    requires Dying(e, left, fails) && WorkerStep(e, act).Some?
    ensures left > 0 && !act.Rewrite?
    ensures var f := WorkerStep(e, act).value; f.okCount == e.okCount && Dying(f, left - 1, fails)
  {
  }

  lemma DyingStep(s: State, step: Label, i: nat, left: nat, fails: nat)
    requires i < |s.entries| && Dying(s.entries[i], left, fails) && Next(s, step).Some?
    ensures IsStepOf(step, i) ==> left > 0 && !step.act.Rewrite?
    ensures var t := Next(s, step).value;
            && i < |t.entries| && t.entries[i].okCount == s.entries[i].okCount
            && Dying(t.entries[i], if IsStepOf(step, i) then left - 1 else left, fails)
  {
    if IsStepOf(step, i) {
      WorkerIsLocal(s, i, step.act);
      DyingWorkerStep(s.entries[i], step.act, left, fails);
    } else {
      OthersLeaveAlone(s, step, i);
    }
  }

  lemma {:induction false} DyingRun(s: State, run: seq<Label>, i: nat, left: nat, fails: nat)
    requires i < |s.entries| && Dying(s.entries[i], left, fails) && Run(s, run).Some?
    ensures CountWrites(run, i) == 0 && CountSteps(run, i) <= left
    ensures var t := Run(s, run).value;
            && i < |t.entries| && t.entries[i].okCount == s.entries[i].okCount
            && Dying(t.entries[i], left - CountSteps(run, i), fails)
    decreases |run|
  {
    if run != [] {
      DyingStep(s, run[0], i, left, fails);
      DyingRun(Next(s, run[0]).value, run[1..], i, if IsStepOf(run[0], i) then left - 1 else left, fails);
    }
  }

  /**
    From the moment a worker is told that its target is dead it never writes again, in any run. It takes at most
    two more steps; when they are taken it has exited, its entry is inactive and one more failure is counted.
  */
  lemma DeadTargetStops(s: State, t: State, run: seq<Label>, i: nat)
    requires Next(s, Worker(i, AskAlive(false))) == Some(t) && Run(t, run).Some?
    ensures CountWrites(run, i) == 0 && CountSteps(run, i) <= 2
    ensures i < |s.entries| && i < |Run(t, run).value.entries|
    ensures var e, f := s.entries[i], Run(t, run).value.entries[i];
            && f.okCount == e.okCount && e.failCount <= f.failCount
            && (CountSteps(run, i) == 2 <==> f.pc == Exited)
            && (CountSteps(run, i) == 2 ==> !f.active && f.failCount == e.failCount + 1)
  {
    WorkerIsLocal(s, i, AskAlive(false));
    DyingRun(t, run, i, 2, s.entries[i].failCount);
  }

  // ---------------------------------------------------------------- and only a live one is written

  /** At time t the last step of worker i is the one at m, and it was told that its target is alive. */
  predicate LastAsked(run: seq<Label>, m: nat, t: nat, i: nat) {
    && m < t <= |run| && run[m] == Worker(i, AskAlive(true))
    && forall j | m < j < t :: !IsStepOf(run[j], i)
  }

  lemma OnlyLifeReachesWriting(e: Entry, act: Action)
    requires WorkerStep(e, act).Some? && WorkerStep(e, act).value.pc == Writing
    ensures act == AskAlive(true)
  {
  }

  lemma CallerReachesNoWriting(s: State, op: Op, i: nat)
    requires CallerStep(s, op).Some? && i < |CallerStep(s, op).value.entries| && CallerStep(s, op).value.entries[i].pc == Writing
    ensures i < |s.entries| && s.entries[i].pc == Writing
  {
  }

  lemma ReachingWriting(s: State, step: Label, i: nat)
    requires Next(s, step).Some?
    requires i < |Next(s, step).value.entries| && Next(s, step).value.entries[i].pc == Writing
    ensures IsStepOf(step, i) ==> step == Worker(i, AskAlive(true))
    ensures !IsStepOf(step, i) ==> i < |s.entries| && s.entries[i].pc == Writing
  {
    match step
    case Worker(k, act) =>
      WorkerIsLocal(s, k, act);
      if k == i {
        OnlyLifeReachesWriting(s.entries[i], act);
      }
    case Caller(op) => CallerReachesNoWriting(s, op, i);
  }

  lemma {:induction false} WritingWasAsked(before: Memory, run: seq<Label>, t: nat, i: nat) returns (m: nat)
    requires Feasible(before, run) && t <= |run|
    requires i < |StateAt(before, run, t).entries| && StateAt(before, run, t).entries[i].pc == Writing
    ensures LastAsked(run, m, t, i)
    decreases t
  {
    StateAtStep(before, run, t - 1);
    ReachingWriting(StateAt(before, run, t - 1), run[t - 1], i);
    if IsStepOf(run[t - 1], i) {
      m := t - 1;
    } else {
      m := WritingWasAsked(before, run, t - 1, i);
    }
  }

  /** In any run, the step a worker takes right before each of its writes is one that found its target alive. */
  lemma WriteWasAsked(before: Memory, run: seq<Label>, k: nat, i: nat) returns (m: nat)
    requires Feasible(before, run) && k < |run| && IsWriteOf(run[k], i)
    ensures LastAsked(run, m, k, i)
  {
    StateAtStep(before, run, k);
    m := WritingWasAsked(before, run, k, i);
  }

  /** So between two writes of a worker lies a step of it that found the target alive. */
  lemma LifeBetweenWrites(before: Memory, run: seq<Label>, j: nat, k: nat, i: nat) returns (m: nat)
    requires Feasible(before, run) && j < k < |run| && IsWriteOf(run[j], i) && IsWriteOf(run[k], i)
    ensures j < m < k && run[m] == Worker(i, AskAlive(true))
  {
    m := WriteWasAsked(before, run, k, i);
  }

  /** And a live target is written next: the first step of the worker after that is a write. */
  lemma {:induction false} LifeIsFollowedByWrite(s: State, t: State, run: seq<Label>, i: nat)
    requires Next(s, Worker(i, AskAlive(true))) == Some(t) && Run(t, run).Some?
    ensures forall k | 0 <= k < |run| && IsStepOf(run[k], i) && (forall j | 0 <= j < k :: !IsStepOf(run[j], i)) :: IsWriteOf(run[k], i)
  {
    WorkerIsLocal(s, i, AskAlive(true));
    FirstStepWrites(t, run, i);
  }

  lemma {:induction false} FirstStepWrites(s: State, run: seq<Label>, i: nat)
    requires i < |s.entries| && s.entries[i].pc == Writing && Run(s, run).Some?
    ensures forall k | 0 <= k < |run| && IsStepOf(run[k], i) && (forall j | 0 <= j < k :: !IsStepOf(run[j], i)) :: IsWriteOf(run[k], i)
    decreases |run|
  {
    if run != [] && !IsStepOf(run[0], i) {
      var t := Next(s, run[0]).value;
      OthersLeaveAlone(s, run[0], i);
      FirstStepWrites(t, run[1..], i);
      forall k | 0 <= k < |run| && IsStepOf(run[k], i) && (forall j | 0 <= j < k :: !IsStepOf(run[j], i))
        ensures IsWriteOf(run[k], i)
      {
        assert run[1..][k - 1] == run[k];
        assert forall j | 0 <= j < k - 1 :: run[1..][j] == run[j + 1];
      }
    }
  }
}
