/** Which states of the freeze manager can still change memory, once nobody asks for a freeze or a restore. */
module FreezeWrites {
  import opened Common
  import opened ByteMemory
  import opened FreezeProtocol
  import opened FreezeRollback
  import opened FreezeRuns

  /** A worker that may reach its write without help of the client. */
  predicate CanStillWrite(e: Entry) {
    match e.pc
    case Writing => true
    case CheckAlive => true
    case LoopActive => e.active
    case LoopCancel => e.active && !e.cancel
    case Counting(_) => e.active && !e.cancel
    case NapCancel(_) => e.active && !e.cancel
    case NapActive(_) => e.active && !e.cancel
    case Napping(_) => e.active && !e.cancel
    case _ => false
  }

  /** The bytes its worker writes are what memory holds there. */
  ghost predicate Shows(mem: Memory, e: Entry) {
    var r := e.request;
    Mapped(mem, r.address, r.size) && Window(mem, r.address, r.size) == ToBytes(r.value, r.size)
  }

  /** Every worker that can still write would write what is there. */
  ghost predicate Settled(s: State) {
    forall i | 0 <= i < |s.entries| && CanStillWrite(s.entries[i]) :: Shows(s.mem, s.entries[i])
  }

  /** The client is not inside a freeze, nor inside a restore that has not written yet. */
  predicate NoWriteUnderWay(client: Client) {
    match client
    case Spawning(_) => false
    case Cancelling(_, goal) => goal == ToUnfreeze
    case Joining(_, goal) => goal == ToUnfreeze
    case Rewriting(_) => false
    case _ => true
  }

  /** No step that begins a freeze or a restore. */
  predicate Quiet(step: Label) {
    step.Caller? ==> !step.op.Freeze? && !(step.op.Begin? && step.op.goal == ToRestore)
  }

  // ---------------------------------------------------------------- settled states stay as they are

  lemma WriteOfSame(mem: Memory, address: Address, bytes: seq<Byte>)
    requires address + |bytes| <= ADDRESS_SPACE
    requires forall i | 0 <= i < |bytes| :: address + i in mem && mem[address + i] == bytes[i]
    ensures Written(mem, address, bytes) == mem
  {
    var after := Written(mem, address, bytes);
    forall a: Address | a in after ensures a in mem && after[a] == mem[a] {
      if address <= a < address + |bytes| {
        assert address + (a - address) in mem && mem[address + (a - address)] == bytes[a - address];
      }
    }
  }

  lemma RewriteOfSame(mem: Memory, e: Entry, outcome: Outcome)
    requires Shows(mem, e) && Possible(outcome, e.request.size)
    ensures Put(mem, e.request.address, ToBytes(e.request.value, e.request.size), outcome) == mem
  {
    var r := e.request;
    if outcome.Wrote? {
      var bytes := ToBytes(r.value, r.size);
      forall i | 0 <= i < outcome.count ensures r.address + i in mem && mem[r.address + i] == bytes[..outcome.count][i] {
        assert Window(mem, r.address, r.size)[i] == bytes[i];
      }
      WriteOfSame(mem, r.address, bytes[..outcome.count]);
    }
  }

  lemma WorkerStaysSettled(s: State, i: nat, act: Action)
    requires Settled(s) && Next(s, Worker(i, act)).Some?
    ensures var t := Next(s, Worker(i, act)).value; t.mem == s.mem && t.client == s.client && Settled(t)
  {
    var e := s.entries[i];
    var f := FreezeProtocol.WorkerStep(e, act).value;
    assert CanStillWrite(f) ==> CanStillWrite(e);
    if act.Rewrite? {
      assert e.pc == Writing;
      RewriteOfSame(s.mem, e, act.outcome);
    }
  }

  lemma CallerStaysSettled(s: State, op: Op)
    requires Settled(s) && NoWriteUnderWay(s.client) && Quiet(Caller(op)) && CallerStep(s, op).Some?
    ensures var t := CallerStep(s, op).value; t.mem == s.mem && NoWriteUnderWay(t.client) && Settled(t)
  {
    var t := CallerStep(s, op).value;
    forall i | 0 <= i < |t.entries| && CanStillWrite(t.entries[i]) ensures Shows(t.mem, t.entries[i]) {
      assert CanStillWrite(s.entries[i]);
    }
  }

  lemma StepStaysSettled(s: State, step: Label)
    requires Settled(s) && NoWriteUnderWay(s.client) && Quiet(step) && Next(s, step).Some?
    ensures var t := Next(s, step).value; t.mem == s.mem && NoWriteUnderWay(t.client) && Settled(t)
  {
    match step
    case Worker(i, act) => WorkerStaysSettled(s, i, act);
    case Caller(op) => CallerStaysSettled(s, op);
  }

  // ---------------------------------------------------------------- and the others do not

  /** Steps to the next write, at most. */
  function Distance(e: Entry): nat {
    match e.pc
    case CheckAlive => 1
    case LoopActive => 2
    case LoopCancel => 3
    case Napping(slept) => 4 + 3 * SlicesAfter(e, slept)
    case NapActive(slept) => 5 + 3 * SlicesAfter(e, slept)
    case NapCancel(slept) => 6 + 3 * SlicesAfter(e, slept)
    case Counting(_) => 7 + 3 * SlicesAfter(e, 0)
    case _ => 0
  }

  function SlicesAfter(e: Entry, slept: nat): nat {
    if slept + 1 < Interval(e) then Interval(e) - slept - 1 else 0
  }

  lemma Onward(e: Entry)
    requires CanStillWrite(e) && e.pc != Writing
    ensures var act := NextAction(e, true, Failed);
            && !act.Rewrite? && WorkerStep(e, act).Some?
            && var f := WorkerStep(e, act).value;
               CanStillWrite(f) && f.request == e.request && Distance(f) < Distance(e)
  {
  }

  /** Left alone with a live target, such a worker comes to its write. */
  lemma {:induction false} ReachesWriting(s: State, i: nat) returns (run: seq<Label>, t: State)
    requires i < |s.entries| && CanStillWrite(s.entries[i])
    ensures Run(s, run) == Some(t) && forall step | step in run :: step.Worker?
    ensures t.mem == s.mem && t.client == s.client && i < |t.entries|
    ensures t.entries[i].pc == Writing && t.entries[i].request == s.entries[i].request
    decreases Distance(s.entries[i])
  {
    if s.entries[i].pc == Writing {
      run, t := [], s;
    } else {
      var e := s.entries[i];
      var act := NextAction(e, true, Failed);
      Onward(e);
      var m := s.(entries := s.entries[i := WorkerStep(e, act).value]);
      var rest;
      rest, t := ReachesWriting(m, i);
      run := [Worker(i, act)] + rest;
      assert run[1..] == rest;
    }
  }

  lemma CanChangeMemory(s: State, i: nat) returns (run: seq<Label>, t: State)
    requires i < |s.entries| && CanStillWrite(s.entries[i]) && !Shows(s.mem, s.entries[i])
    requires s.entries[i].request.address + s.entries[i].request.size <= ADDRESS_SPACE
    ensures Run(s, run) == Some(t) && t.mem != s.mem && t.client == s.client && forall step | step in run :: step.Worker?
  {
    var m;
    run, m := ReachesWriting(s, i);
    var r := m.entries[i].request;
    var last := Worker(i, Rewrite(Wrote(r.size)));
    var bytes := ToBytes(r.value, r.size);
    assert bytes[..r.size] == bytes;
    t := Next(m, last).value;
    assert Shows(t.mem, s.entries[i]) by {
      assert Window(t.mem, r.address, r.size) == bytes;
    }
    RunConcat(s, run, [last]);
    assert [last][1..] == [];
    run := run + [last];
  }

  /** All the runs in which nobody begins a freeze or a restore leave memory alone exactly when the state is settled. */
  lemma QuietRunsKeepMemoryIff(s: State)
    requires Structure(s) && NoWriteUnderWay(s.client)
    ensures (forall run | (forall step | step in run :: Quiet(step)) && Run(s, run).Some? :: Run(s, run).value.mem == s.mem)
       <==> Settled(s)
  {
    if Settled(s) {
      forall run | (forall step | step in run :: Quiet(step)) && Run(s, run).Some? ensures Run(s, run).value.mem == s.mem {
        RunStaysSettled(s, run);
      }
    } else {
      var i :| 0 <= i < |s.entries| && CanStillWrite(s.entries[i]) && !Shows(s.mem, s.entries[i]);
      assert EntryOk(s, i);
      var run, t := CanChangeMemory(s, i);
      assert forall step | step in run :: Quiet(step);
    }
  }

  lemma {:induction false} RunStaysSettled(s: State, run: seq<Label>)
    requires Settled(s) && NoWriteUnderWay(s.client) && (forall step | step in run :: Quiet(step)) && Run(s, run).Some?
    ensures Run(s, run).value.mem == s.mem
    decreases |run|
  {
    if run != [] {
      assert run[0] in run && forall step | step in run[1..] :: step in run;
      StepStaysSettled(s, run[0]);
      RunStaysSettled(Next(s, run[0]).value, run[1..]);
    }
  }

  // ---------------------------------------------------------------- restores and freezes write

  /** A restore of a stopped freeze whose write succeeds. */
  lemma RestoreRun(s: State, i: nat) returns (run: seq<Label>)
    requires Structure(s) && s.client == Idle && i < |s.entries| && !s.entries[i].Joinable()
    requires s.entries[i].request.address + |s.entries[i].original| <= ADDRESS_SPACE
    ensures var e := s.entries[i];
            && Within(run, RestoreOps(e.request.id, Wrote(|e.original|)))
            && Run(s, run) == Some(State(Written(s.mem, e.request.address, e.original),
                                         s.entries[i := e.(restored := true, active := false)], Idle))
  {
    var e := s.entries[i];
    FindFinds(s.entries, i);
    run := BeginRun(s, e.request.id, ToRestore, i);
    var m := s.(client := Rewriting(i));
    var rest := PutBackRun(m, i, Wrote(|e.original|));
    assert e.original[..|e.original|] == e.original;
    run := Join2(s, run, m, rest, Run(m, rest).value, {Begin(e.request.id, ToRestore)},
                 {RestoreWrite(Wrote(|e.original|)), MarkRestored, ClearFlag});
  }

  /** Memory holds the bytes the freeze saved. */
  ghost predicate SavedIsThere(mem: Memory, e: Entry) {
    Mapped(mem, e.request.address, |e.original|) && Window(mem, e.request.address, |e.original|) == e.original
  }

  lemma WrittenIsSameIff(mem: Memory, e: Entry)
    requires e.request.address + |e.original| <= ADDRESS_SPACE
    ensures SavedIsThere(Written(mem, e.request.address, e.original), e)
    ensures Written(mem, e.request.address, e.original) == mem <==> SavedIsThere(mem, e)
  {
    var r, n := e.request, |e.original|;
    if SavedIsThere(mem, e) {
      forall i | 0 <= i < n ensures r.address + i in mem && mem[r.address + i] == e.original[i] {
        assert Window(mem, r.address, n)[i] == e.original[i];
      }
      WriteOfSame(mem, r.address, e.original);
    }
    assert Window(Written(mem, r.address, e.original), r.address, n) == e.original;
  }

  /** A freeze that is accepted starts a worker; left alone, it writes its value. */
  lemma AcceptedFreezeWrites(s: State, request: FreezeRequest) returns (run: seq<Label>, t: State)
    requires Structure(s) && s.client == Idle && Snapshot(s, request).Success?
    requires !Shows(s.mem, Snapshot(s, request).value)
    ensures Run(s, run) == Some(t) && t.mem != s.mem
    ensures Within(run, FreezeOps(request))
  {
    var e, n := Snapshot(s, request).value, |s.entries|;
    var u := s.(entries := s.entries + [e.(pc := LoopCancel)]);
    run := FreezeRun(s, request);
    var rest;
    rest, t := CanChangeMemory(u, n);
    RunConcat(s, run, rest);
    run := run + rest;
  }
}
