/**
  Progress and bookkeeping of the freeze workers: cancellation is final and bounded, a stopped
  worker never runs again, and the counters say what the worker did.
*/
module FreezeCancel {
  import opened Common
  import opened ByteMemory
  import opened FreezeProtocol
  import opened FreezeRollback

  // ---------------------------------------------------------------- cancellation is bounded

  /** How many steps a worker whose cancel flag is set has left. */
  function StepsLeft(pc: Pc): nat {
    match pc
    case NotStarted => 2
    case LoopActive => 6
    case CheckAlive => 5
    case Writing => 4
    case Counting(_) => 3
    case NapActive(_) => 4
    case Napping(_) => 3
    case NapCancel(_) => 2
    case MarkDead => 2
    case CountDead => 1
    case LoopCancel => 1
    case Exited => 0
  }

  /** Whether that worker may still write once. */
  function WritesLeft(pc: Pc): nat {
    if pc == LoopActive || pc == CheckAlive || pc == Writing then 1 else 0
  }

  predicate IsStepOf(step: Label, i: nat) {
    step.Worker? && step.i == i
  }

  predicate IsWriteOf(step: Label, i: nat) {
    IsStepOf(step, i) && step.act.Rewrite?
  }

  function CountSteps(run: seq<Label>, i: nat): nat {
    if run == [] then 0 else (if IsStepOf(run[0], i) then 1 else 0) + CountSteps(run[1..], i)
  }

  function CountWrites(run: seq<Label>, i: nat): nat {
    if run == [] then 0 else (if IsWriteOf(run[0], i) then 1 else 0) + CountWrites(run[1..], i)
  }

  /** A running worker can always take its next step: no lock or flag blocks it. */
  lemma WorkerNeverBlocks(s: State, i: nat)
    requires i < |s.entries| && s.entries[i].pc != NotStarted && s.entries[i].pc != Exited
    ensures exists act :: Next(s, Worker(i, act)).Some?
  {
    var act := NextAction(s.entries[i], true, Failed);
    assert WorkerStep(s.entries[i], act).Some?;
    assert Next(s, Worker(i, act)).Some?;
  }

  lemma CancelledStep(s: State, step: Label, i: nat)
    requires i < |s.entries| && s.entries[i].cancel && s.entries[i].pc != NotStarted && Next(s, step).Some?
    ensures var t := Next(s, step).value;
            && i < |t.entries| && t.entries[i].cancel && t.entries[i].pc != NotStarted
            && StepsLeft(t.entries[i].pc) + (if IsStepOf(step, i) then 1 else 0) <= StepsLeft(s.entries[i].pc)
            && WritesLeft(t.entries[i].pc) + (if IsWriteOf(step, i) then 1 else 0) <= WritesLeft(s.entries[i].pc)
  {
    match step
    case Worker(k, act) => WorkerIsLocal(s, k, act);
    case Caller(op) => CancelledCallerStep(s, op, i);
  }

  lemma CancelledCallerStep(s: State, op: Op, i: nat)
    requires i < |s.entries| && s.entries[i].pc != NotStarted && CallerStep(s, op).Some?
    ensures var t := CallerStep(s, op).value;
            && i < |t.entries| && t.entries[i].pc == s.entries[i].pc && (s.entries[i].cancel ==> t.entries[i].cancel)
  {
    CallerGrows(s, op);
  }

  /**
    Whatever the other threads do, a cancelled worker takes at most six more steps and writes to the
    target at most once more; when it has used its steps up it has left its loop.
  */
  lemma CancelIsBounded(s: State, run: seq<Label>, i: nat)
    requires i < |s.entries| && s.entries[i].cancel && s.entries[i].pc != NotStarted && Run(s, run).Some?
    ensures CountSteps(run, i) <= StepsLeft(s.entries[i].pc) <= 6
    ensures CountWrites(run, i) <= WritesLeft(s.entries[i].pc) <= 1
    ensures i < |Run(s, run).value.entries|
    ensures CountSteps(run, i) == StepsLeft(s.entries[i].pc) ==> Run(s, run).value.entries[i].pc == Exited
  {
    CancelledRun(s, run, i);
  }

  lemma {:induction false} CancelledRun(s: State, run: seq<Label>, i: nat)
    requires i < |s.entries| && s.entries[i].cancel && s.entries[i].pc != NotStarted && Run(s, run).Some?
    ensures var t := Run(s, run).value;
            && i < |t.entries| && t.entries[i].pc != NotStarted
            && StepsLeft(t.entries[i].pc) + CountSteps(run, i) <= StepsLeft(s.entries[i].pc)
            && WritesLeft(t.entries[i].pc) + CountWrites(run, i) <= WritesLeft(s.entries[i].pc)
    decreases |run|
  {
    if run != [] {
      CancelledStep(s, run[0], i);
      CancelledRun(Next(s, run[0]).value, run[1..], i);
    }
  }

  // ---------------------------------------------------------------- stopping is final

  /** The step with which a call that stops entry i returns to its caller. */
  ghost predicate Returns(s: State, step: Label, i: nat) {
    && step.Caller? && i < |s.entries|
    && match step.op
       case Close => s.client == Closing(i)
       case ClearFlag => s.client == Clearing(i)
       case RestoreWrite(outcome) => s.client == Rewriting(i)
       case JoinOne(k) => s.client == JoiningAll({k})
       case _ => false
  }

  lemma ReturnMeansStopped(s: State, step: Label, i: nat)
    requires Structure(s) && Returns(s, step, i) && Next(s, step).Some?
    ensures var t := Next(s, step).value;
            && i < |t.entries| && t.entries[i].pc == Exited && t.entries[i].joined
            && (!step.op.RestoreWrite? ==> !t.entries[i].active && t.client == Idle)
  {
    assert EntryOk(s, i);
    if step.op.JoinOne? {
      assert EntryOk(s, step.op.i);
    }
  }

  /**
    Once unfreeze, restore (even one whose write fails) or cancel_all has returned, the worker of a stopped
    entry takes no step and so writes nothing in the rest of any run, and the entry stays inactive.
  */
  lemma StopIsFinal(before: Memory, run: seq<Label>, t: nat, i: nat, u: nat)
    requires Feasible(before, run) && t < u <= |run|
    requires Returns(StateAt(before, run, t), run[t], i)
    ensures u < |run| ==> !IsStepOf(run[u], i)
    ensures i < |StateAt(before, run, u).entries|
    ensures !run[t].op.RestoreWrite? ==> !StateAt(before, run, u).entries[i].active
  {
    StateAtIsSafe(before, run, t);
    StateAtStep(before, run, t);
    ReturnMeansStopped(StateAt(before, run, t), run[t], i);
    StatesGrow(before, run, t + 1, u);
    var m, s := StateAt(before, run, t + 1), StateAt(before, run, u);
    assert Evolves(m.entries[i], s.entries[i]);
    if u < |run| && IsStepOf(run[u], i) {
      StateAtStep(before, run, u);
    }
  }

  function ActiveCount(entries: seq<Entry>): nat {
    if entries == [] then 0
    else
      var last := |entries| - 1;
      ActiveCount(entries[..last]) + if entries[last].active then 1 else 0
  }

  lemma {:induction false} ActiveCountIsCardinality(entries: seq<Entry>, active: set<nat>)
    requires forall k: nat :: k in active <==> k < |entries| && entries[k].active
    ensures |active| == ActiveCount(entries)
  {
    if entries == [] {
      assert active == {};
    } else {
      var last := |entries| - 1;
      ActiveCountIsCardinality(entries[..last], active - {last});
    }
  }

  lemma {:induction false} NoneActive(entries: seq<Entry>)
    requires forall i | 0 <= i < |entries| :: !entries[i].active
    ensures ActiveCount(entries) == 0
  {
    if entries != [] {
      NoneActive(entries[..|entries| - 1]);
    }
  }

  /** When cancel_all returns, every worker has been joined and active_count is zero. */
  lemma CancelAllStopsEveryone(before: Memory, run: seq<Label>, t: nat)
    requires Feasible(before, run) && t < |run|
    requires var s := StateAt(before, run, t); run[t].Caller? && run[t].op.JoinOne? && s.client == JoiningAll({run[t].op.i})
    ensures var s := StateAt(before, run, t + 1);
            && s.client == Idle && ActiveCount(s.entries) == 0
            && forall i | 0 <= i < |s.entries| :: s.entries[i].pc == Exited && s.entries[i].joined
  {
    var s, s' := StateAt(before, run, t), StateAt(before, run, t + 1);
    StateAtIsSafe(before, run, t);
    StateAtStep(before, run, t);
    forall i | 0 <= i < |s'.entries|
      ensures s'.entries[i].pc == Exited && s'.entries[i].joined && !s'.entries[i].active
    {
      ReturnMeansStopped(s, run[t], i);
    }
    NoneActive(s'.entries);
  }

  // ---------------------------------------------------------------- accounting

  /** What worker i did in a run: loop iterations begun, writes that went through in full, 1 ms naps. */
  datatype Tally = Tally(iterations: nat, fullWrites: nat, naps: nat)

  function Add(y: Tally, act: Action, size: nat): Tally {
    match act
    case AskAlive(_) => y.(iterations := y.iterations + 1)
    case Rewrite(outcome) => if Full(outcome, size) then y.(fullWrites := y.fullWrites + 1) else y
    case Sleep => y.(naps := y.naps + 1)
    case _ => y
  }

  function TallyOf(run: seq<Label>, i: nat, size: nat): Tally {
    if run == [] then Tally(0, 0, 0)
    else
      var y := TallyOf(run[..|run| - 1], i, size);
      var last := run[|run| - 1];
      if IsStepOf(last, i) then Add(y, last.act, size) else y
  }

  /** The worker is inside the body of its loop, before it has counted the outcome of this iteration. */
  predicate Uncounted(pc: Pc) {
    pc == Writing || pc.Counting? || pc == MarkDead || pc == CountDead
  }

  /** due: the naps owed for the iterations begun, w for each; all but the last must have been taken. */
  ghost predicate Paced(e: Entry, w: nat, due: int, naps: nat) {
    && due <= naps + w
    && match e.pc
       case NotStarted => due == 0
       case LoopCancel => due <= naps || e.cancel || !e.active
       case LoopActive => due <= naps || !e.active
       case CheckAlive => due <= naps
       case NapCancel(slept) => due + slept <= naps + w && slept < w
       case NapActive(slept) => due + slept <= naps + w && slept < w
       case Napping(slept) => due + slept <= naps + w && slept < w
       case _ => true
  }

  ghost predicate Counted(e: Entry, y: Tally) {
    && e.okCount + (if e.pc.Counting? && Full(e.pc.outcome, e.request.size) then 1 else 0) == y.fullWrites
    && e.okCount + e.failCount + (if Uncounted(e.pc) then 1 else 0) == y.iterations
  }

  ghost predicate Booked(e: Entry, y: Tally) {
    Counted(e, y) && Paced(e, Interval(e), y.iterations * Interval(e), y.naps)
  }

  lemma WorkerStepCounts(e: Entry, act: Action, y: Tally)
    requires Counted(e, y) && WorkerStep(e, act).Some?
    ensures Counted(WorkerStep(e, act).value, Add(y, act, e.request.size))
  {
  }

  lemma WorkerStepPaces(e: Entry, act: Action, due: int, naps: nat)
    requires Paced(e, Interval(e), due, naps) && WorkerStep(e, act).Some?
    ensures var f := WorkerStep(e, act).value;
            Paced(f, Interval(e), if act.AskAlive? then due + Interval(e) else due, if act.Sleep? then naps + 1 else naps)
  {
  }

  lemma IterationsPace(e: Entry, act: Action, y: Tally)
    ensures var w, z := Interval(e), Add(y, act, e.request.size);
            z.iterations * w == if act.AskAlive? then y.iterations * w + w else y.iterations * w
  {
    assert (y.iterations + 1) * Interval(e) == y.iterations * Interval(e) + Interval(e);
  }

  lemma WorkerStepBooks(e: Entry, act: Action, y: Tally)
    requires Booked(e, y) && WorkerStep(e, act).Some?
    ensures Booked(WorkerStep(e, act).value, Add(y, act, e.request.size))
  {
    WorkerStepCounts(e, act, y);
    WorkerStepPaces(e, act, y.iterations * Interval(e), y.naps);
    WorkerEvolves(e, act);
    IterationsPace(e, act, y);
  }

  lemma CallerStepBooks(s: State, op: Op, i: nat, y: Tally)
    requires i < |s.entries| && Booked(s.entries[i], y) && CallerStep(s, op).Some?
    ensures i < |CallerStep(s, op).value.entries| && Booked(CallerStep(s, op).value.entries[i], y)
  {
  }

  lemma {:induction false} RunBooks(before: Memory, run: seq<Label>, t: nat, i: nat, size: nat)
    requires Feasible(before, run) && t <= |run|
    ensures var s := StateAt(before, run, t);
            if i < |s.entries|
            then s.entries[i].request.size == size ==> Booked(s.entries[i], TallyOf(run[..t], i, size))
            else TallyOf(run[..t], i, size) == Tally(0, 0, 0)
    decreases t
  {
    if t > 0 {
      RunBooks(before, run, t - 1, i, size);
      assert run[..t][..t - 1] == run[..t - 1];
      StateAtStep(before, run, t - 1);
      var s, step := StateAt(before, run, t - 1), run[t - 1];
      StepGrows(s, step);
      if i < |s.entries| && s.entries[i].request.size == size {
        StepBooks(s, step, i, TallyOf(run[..t - 1], i, size));
      }
    }
  }

  lemma StepBooks(s: State, step: Label, i: nat, y: Tally)
    requires i < |s.entries| && Booked(s.entries[i], y) && Next(s, step).Some?
    ensures var t := Next(s, step).value;
            && i < |t.entries|
            && Booked(t.entries[i], if IsStepOf(step, i) then Add(y, step.act, s.entries[i].request.size) else y)
  {
    match step
    case Caller(op) => CallerStepBooks(s, op, i, y);
    case Worker(k, act) =>
      WorkerIsLocal(s, k, act);
      if k == i {
        WorkerStepBooks(s.entries[i], act, y);
      }
  }

  /**
    Between iterations the two counters add up to the iterations begun and ok counts exactly the full
    writes; and after n iterations the worker has slept at least n - 1 whole intervals.
  */
  lemma WorkerAccounting(before: Memory, run: seq<Label>, i: nat)
    requires Feasible(before, run) && i < |Final(before, run).entries|
    ensures var e := Final(before, run).entries[i];
            var y := TallyOf(run, i, e.request.size);
            && (!Uncounted(e.pc) ==> e.okCount + e.failCount == y.iterations && e.okCount == y.fullWrites)
            && e.okCount <= y.fullWrites <= e.okCount + 1
            && (y.iterations - 1) * Interval(e) <= y.naps
  {
    var e := Final(before, run).entries[i];
    var y := TallyOf(run, i, e.request.size);
    RunBooks(before, run, |run|, i, e.request.size);
    assert run[..|run|] == run;
    assert (y.iterations - 1) * Interval(e) == y.iterations * Interval(e) - Interval(e);
  }
}
