/**
  Safety of the freeze protocol: what every interleaving keeps, and when restoring
  brings back the memory from before the first freeze.
*/
module FreezeRollback {
  import opened Common
  import opened ByteMemory
  import opened FreezeProtocol

  // ---------------------------------------------------------------- what one step keeps of each entry

  /** Identity and snapshot are fixed; cancel and Exited are final; active never comes back. */
  ghost predicate Evolves(e: Entry, f: Entry) {
    && e.request == f.request
    && e.original == f.original
    && (e.cancel ==> f.cancel)
    && (f.active ==> e.active)
    && (e.restored ==> f.restored)
    && (e.pc == Exited ==> f.pc == Exited)
    && (e.joined ==> f.joined)
    && e.okCount <= f.okCount
    && e.failCount <= f.failCount
  }

  /** Entries are never removed, and each of them only evolves. */
  ghost predicate Grows(s: State, t: State) {
    && |s.entries| <= |t.entries|
    && forall i | 0 <= i < |s.entries| :: Evolves(s.entries[i], t.entries[i])
  }

  lemma WorkerEvolves(e: Entry, act: Action)
    requires WorkerStep(e, act).Some?
    ensures Evolves(e, WorkerStep(e, act).value)
  {
  }

  lemma CallerGrows(s: State, op: Op)
    requires CallerStep(s, op).Some?
    ensures Grows(s, CallerStep(s, op).value)
  {
    var t := CallerStep(s, op).value;
    forall i | 0 <= i < |s.entries| ensures Evolves(s.entries[i], t.entries[i]) {
    }
  }

  lemma StepGrows(s: State, step: Label)
    requires Next(s, step).Some?
    ensures Grows(s, Next(s, step).value)
  {
    match step
    case Caller(op) => CallerGrows(s, op);
    case Worker(i, act) => WorkerEvolves(s.entries[i], act);
  }

  /** Both flags are monotone and no entry is ever erased, over any run whatsoever. */
  lemma {:induction false} RunGrows(s: State, run: seq<Label>)
    requires Run(s, run).Some?
    ensures Grows(s, Run(s, run).value)
    decreases |run|
  {
    if run != [] {
      StepGrows(s, run[0]);
      RunGrows(Next(s, run[0]).value, run[1..]);
    }
  }

  // ---------------------------------------------------------------- reachable states

  ghost predicate EntryOk(s: State, i: nat)
    requires i < |s.entries|
  {
    var e := s.entries[i];
    && 1 <= e.request.size <= 8
    && |e.original| == e.request.size
    && e.request.address + e.request.size < ADDRESS_SPACE
    && (e.joined ==> e.pc == Exited)
    && (e.pc == NotStarted ==> s.client == Spawning(i) && !e.cancel)
  }

  ghost predicate IdsDistinct(s: State) {
    forall i, j | 0 <= i < j < |s.entries| :: s.entries[i].request.id != s.entries[j].request.id
  }

  ghost predicate ClientOk(s: State) {
    var n := |s.entries|;
    match s.client
    case Idle => true
    case Spawning(i) => i < n && s.entries[i].pc == NotStarted
    case Cancelling(i, _) => i < n && s.entries[i].Joinable()
    case Joining(i, _) => i < n && s.entries[i].Joinable() && s.entries[i].cancel
    case Closing(i) => i < n && s.entries[i].pc == Exited && s.entries[i].joined
    case Rewriting(i) => i < n && s.entries[i].pc == Exited && s.entries[i].joined
    case Marking(i) => i < n && s.entries[i].pc == Exited && s.entries[i].joined
    case Clearing(i) => i < n && s.entries[i].pc == Exited && s.entries[i].joined
    case StoppingAll(todo) =>
      (forall i | i in todo :: i < n)
      && forall i | 0 <= i < n && i !in todo :: s.entries[i].cancel && !s.entries[i].active
    case StoppingOne(j, todo) =>
      j < n && s.entries[j].cancel && (forall i | i in todo :: i < n)
      && forall i | 0 <= i < n && i !in todo && i != j :: s.entries[i].cancel && !s.entries[i].active
    case JoiningAll(todo) =>
      (forall i | i in todo :: i < n)
      && (forall i | 0 <= i < n :: s.entries[i].cancel && !s.entries[i].active)
      && forall i | 0 <= i < n && i !in todo :: s.entries[i].joined
  }

  ghost predicate Structure(s: State) {
    && (forall i | 0 <= i < |s.entries| :: EntryOk(s, i))
    && IdsDistinct(s)
    && ClientOk(s)
  }

  /** A worker touches only its own entry, and there neither cancel nor joined. */
  lemma WorkerIsLocal(s: State, i: nat, act: Action)
    requires Next(s, Worker(i, act)).Some?
    ensures i < |s.entries| && WorkerStep(s.entries[i], act).Some?
    ensures
      var t, e, f := Next(s, Worker(i, act)).value, s.entries[i], WorkerStep(s.entries[i], act).value;
      && t.client == s.client && t.entries == s.entries[i := f]
      && Evolves(e, f) && f.joined == e.joined && f.cancel == e.cancel && f.restored == e.restored
      && e.pc != NotStarted && e.pc != Exited && f.pc != NotStarted
  {
    WorkerEvolves(s.entries[i], act);
  }

  lemma WorkerKeepsStructure(s: State, i: nat, act: Action)
    requires Structure(s) && Next(s, Worker(i, act)).Some?
    ensures Structure(Next(s, Worker(i, act)).value)
  {
    WorkerIsLocal(s, i, act);
    var f := WorkerStep(s.entries[i], act).value;
    OwnEntryKeepsStructure(s, i, f, Next(s, Worker(i, act)).value);
  }

  lemma OwnEntryKeepsStructure(s: State, i: nat, f: Entry, t: State)
    requires Structure(s) && i < |s.entries|
    requires Evolves(s.entries[i], f) && f.joined == s.entries[i].joined && f.cancel == s.entries[i].cancel
    requires s.entries[i].pc != NotStarted && s.entries[i].pc != Exited && f.pc != NotStarted
    requires t.client == s.client && t.entries == s.entries[i := f]
    ensures Structure(t)
  {
    forall k | 0 <= k < |t.entries| ensures EntryOk(t, k) {
      assert EntryOk(s, k);
    }
  }

  lemma CallerKeepsEntries(s: State, op: Op)
    requires Structure(s) && CallerStep(s, op).Some?
    ensures var t := CallerStep(s, op).value; forall k | 0 <= k < |t.entries| :: EntryOk(t, k)
  {
    var t := CallerStep(s, op).value;
    forall k | 0 <= k < |t.entries| ensures EntryOk(t, k) {
      if k < |s.entries| {
        assert EntryOk(s, k);
      }
    }
  }

  lemma CallerKeepsClient(s: State, op: Op)
    requires Structure(s) && CallerStep(s, op).Some?
    ensures ClientOk(CallerStep(s, op).value)
  {
    if op.Begin? {
      var i := Find(s.entries, op.id);
      if i < |s.entries| {
        assert EntryOk(s, i);
      }
    } else if op.JoinOne? {
      assert EntryOk(s, op.i);
      JoinOneKeepsClient(s, op.i);
    } else if op.StopOne? || op.ClearOne? {
      StopAllKeepsClient(s, op);
    }
  }

  lemma JoinOneKeepsClient(s: State, i: nat)
    requires ClientOk(s) && CallerStep(s, JoinOne(i)).Some? && EntryOk(s, i)
    ensures ClientOk(CallerStep(s, JoinOne(i)).value)
  {
  }

  lemma StopAllKeepsClient(s: State, op: Op)
    requires ClientOk(s) && CallerStep(s, op).Some? && (op.StopOne? || op.ClearOne?)
    ensures ClientOk(CallerStep(s, op).value)
  {
  }

  lemma CallerKeepsStructure(s: State, op: Op)
    requires Structure(s) && CallerStep(s, op).Some?
    ensures Structure(CallerStep(s, op).value)
  {
    CallerKeepsEntries(s, op);
    CallerKeepsClient(s, op);
    CallerGrows(s, op);
  }

  /** Every run keeps the bookkeeping of entries, threads and the client consistent. */
  lemma {:induction false} RunKeepsStructure(s: State, run: seq<Label>)
    requires Structure(s) && Run(s, run).Some?
    ensures Structure(Run(s, run).value)
    decreases |run|
  {
    if run != [] {
      match run[0] {
        case Caller(op) => CallerKeepsStructure(s, op);
        case Worker(i, act) => WorkerKeepsStructure(s, i, act);
      }
      RunKeepsStructure(Next(s, run[0]).value, run[1..]);
    }
  }

  // ---------------------------------------------------------------- memory and snapshots

  ghost predicate Covered(s: State, a: int) {
    exists i :: 0 <= i < |s.entries| && s.entries[i].Covers(a)
  }

  /** j is the earliest freeze whose range contains a. */
  ghost predicate FirstCover(s: State, j: nat, a: int) {
    && j < |s.entries| && s.entries[j].Covers(a)
    && forall k | 0 <= k < j :: !s.entries[k].Covers(a)
  }

  /** What entry e saved for address a. */
  ghost function SavedByte(e: Entry, a: int): Byte
    requires e.Covers(a) && |e.original| == e.request.size
  {
    e.original[a - e.request.address]
  }

  ghost predicate SameAt(m: Memory, n: Memory, a: Address) {
    (a in m <==> a in n) && (a in m ==> m[a] == n[a])
  }

  /** Only frozen bytes ever change, and the earliest freeze of a byte saved its first value. */
  ghost predicate SnapshotsOk(s: State, before: Memory) {
    && (forall a: Address | !Covered(s, a) :: SameAt(s.mem, before, a))
    && forall j: nat, a: Address | FirstCover(s, j, a) && |s.entries[j].original| == s.entries[j].request.size ::
         a in before && SavedByte(s.entries[j], a) == before[a]
  }

  lemma SameEverywhere(m: Memory, n: Memory)
    requires forall a: Address :: SameAt(m, n, a)
    ensures m == n
  {
    assert m.Keys == n.Keys by {
      forall a: Address ensures a in m.Keys <==> a in n.Keys {
        assert SameAt(m, n, a);
      }
    }
    forall a: Address | a in n ensures m[a] == n[a] {
      assert SameAt(m, n, a);
    }
  }

  /** A backend write reaches only the bytes asked for; a full one sets each of them. */
  lemma PutEffect(mem: Memory, address: Address, bytes: seq<Byte>, outcome: Outcome, a: Address)
    requires Possible(outcome, |bytes|) && address + |bytes| <= ADDRESS_SPACE
    ensures var m := Put(mem, address, bytes, outcome);
            && (!(address <= a < address + |bytes|) ==> SameAt(m, mem, a))
            && (address <= a < address + |bytes| ==> SameAt(m, mem, a) || (a in m && m[a] == bytes[a - address]))
            && (address <= a < address + |bytes| && Full(outcome, |bytes|) ==> a in m && m[a] == bytes[a - address])
  {
  }

  /**
    A byte changes only when a live worker whose range contains it writes, or when a restore
    of an entry whose range contains it puts the saved byte back.
  */
  lemma OnlyOwnersWrite(s: State, step: Label, a: Address)
    requires Structure(s) && Next(s, step).Some?
    ensures var m := Next(s, step).value.mem;
            || SameAt(m, s.mem, a)
            || (step.Worker? && s.entries[step.i].Covers(a) && s.entries[step.i].pc == Writing)
            || (&& step.Caller? && step.op.RestoreWrite? && s.client.Rewriting? && s.entries[s.client.i].Covers(a)
                && |s.entries[s.client.i].original| == s.entries[s.client.i].request.size
                && a in m && m[a] == SavedByte(s.entries[s.client.i], a))
  {
    match step
    case Worker(i, act) => OnlyWorkersWrite(s, i, act, a);
    case Caller(op) => OnlyRestoresWrite(s, op, a);
  }

  lemma OnlyWorkersWrite(s: State, i: nat, act: Action, a: Address)
    requires Structure(s) && Next(s, Worker(i, act)).Some?
    ensures SameAt(Next(s, Worker(i, act)).value.mem, s.mem, a)
            || (act.Rewrite? && s.entries[i].Covers(a) && s.entries[i].pc == Writing)
  {
    var r := s.entries[i].request;
    assert EntryOk(s, i);
    if act.Rewrite? {
      PutEffect(s.mem, r.address, ToBytes(r.value, r.size), act.outcome, a);
    }
  }

  lemma OnlyRestoresWrite(s: State, op: Op, a: Address)
    requires Structure(s) && CallerStep(s, op).Some?
    ensures var m := CallerStep(s, op).value.mem;
            || SameAt(m, s.mem, a)
            || (&& op.RestoreWrite? && s.client.Rewriting? && s.entries[s.client.i].Covers(a)
                && |s.entries[s.client.i].original| == s.entries[s.client.i].request.size
                && a in m && m[a] == SavedByte(s.entries[s.client.i], a))
  {
    if op.RestoreWrite? {
      var e := s.entries[s.client.i];
      assert EntryOk(s, s.client.i);
      PutEffect(s.mem, e.request.address, e.original, op.outcome, a);
    }
  }

  lemma GrowthKeepsCover(s: State, t: State, a: int)
    requires Grows(s, t)
    ensures Covered(s, a) ==> Covered(t, a)
    ensures forall j: nat | j < |s.entries| :: FirstCover(t, j, a) <==> FirstCover(s, j, a)
  {
    forall i | 0 <= i < |s.entries| ensures s.entries[i].Covers(a) <==> t.entries[i].Covers(a) {
      assert Evolves(s.entries[i], t.entries[i]);
    }
    if Covered(s, a) {
      var i :| 0 <= i < |s.entries| && s.entries[i].Covers(a);
      assert t.entries[i].Covers(a);
    }
  }

  lemma StepKeepsUncovered(s: State, step: Label, before: Memory, a: Address)
    requires Structure(s) && SnapshotsOk(s, before) && Next(s, step).Some? && !Covered(Next(s, step).value, a)
    ensures SameAt(Next(s, step).value.mem, before, a)
  {
    StepGrows(s, step);
    GrowthKeepsCover(s, Next(s, step).value, a);
    OnlyOwnersWrite(s, step, a);
    assert SameAt(s.mem, before, a);
  }

  /** An entry that was there before saved what it saved. */
  lemma OldSnapshotStays(s: State, t: State, before: Memory, j: nat, a: Address)
    requires SnapshotsOk(s, before) && Grows(s, t) && j < |s.entries|
    requires FirstCover(t, j, a) && |t.entries[j].original| == t.entries[j].request.size
    ensures a in before && SavedByte(t.entries[j], a) == before[a]
  {
    GrowthKeepsCover(s, t, a);
    assert Evolves(s.entries[j], t.entries[j]);
    assert FirstCover(s, j, a);
  }

  /** A new entry that is the first on a byte finds the byte as it was before all freezes. */
  lemma NewCoverFindsFirst(s: State, t: State, before: Memory, a: Address)
    requires SnapshotsOk(s, before) && Grows(s, t) && FirstCover(t, |s.entries|, a)
    ensures SameAt(s.mem, before, a)
  {
    assert !Covered(s, a) by {
      forall i | 0 <= i < |s.entries| ensures !s.entries[i].Covers(a) {
        assert Evolves(s.entries[i], t.entries[i]) && !t.entries[i].Covers(a);
      }
    }
  }

  lemma StepKeepsFirstSaved(s: State, step: Label, t: State, before: Memory, j: nat, a: Address)
    requires Structure(s) && SnapshotsOk(s, before) && Next(s, step) == Some(t)
    requires FirstCover(t, j, a) && |t.entries[j].original| == t.entries[j].request.size
    ensures a in before && SavedByte(t.entries[j], a) == before[a]
  {
    StepGrows(s, step);
    if j < |s.entries| {
      OldSnapshotStays(s, t, before, j, a);
    } else {
      NewSnapshotIsCurrent(s, step, a);
      NewCoverFindsFirst(s, t, before, a);
    }
  }

  lemma StepKeepsSnapshots(s: State, step: Label, before: Memory)
    requires Structure(s) && SnapshotsOk(s, before) && Next(s, step).Some?
    ensures SnapshotsOk(Next(s, step).value, before)
  {
    var t := Next(s, step).value;
    forall a: Address | !Covered(t, a) ensures SameAt(t.mem, before, a) {
      StepKeepsUncovered(s, step, before, a);
    }
    forall j: nat, a: Address | FirstCover(t, j, a) && |t.entries[j].original| == t.entries[j].request.size
      ensures a in before && SavedByte(t.entries[j], a) == before[a]
    {
      StepKeepsFirstSaved(s, step, t, before, j, a);
    }
  }

  /** A freeze saves the bytes that are in memory when it is published. */
  lemma NewSnapshotIsCurrent(s: State, step: Label, a: Address)
    requires Structure(s) && Next(s, step).Some?
    requires |s.entries| < |Next(s, step).value.entries|
    ensures var n, t := |s.entries|, Next(s, step).value;
            && |t.entries| == n + 1
            && |t.entries[n].original| == t.entries[n].request.size
            && (t.entries[n].Covers(a) ==> a in s.mem && SavedByte(t.entries[n], a) == s.mem[a])
  {
    assert step.Caller? && step.op.Freeze?;
    var e := Snapshot(s, step.op.request).value;
    var r := e.request;
    assert e.original == Window(s.mem, r.address, r.size);
    if e.Covers(a) {
      assert a in s.mem;
      assert s.mem[r.address + (a - r.address)] == e.original[a - r.address];
    }
  }

  /** A state some run from memory before leads to. */
  ghost predicate Reaches(before: Memory, run: seq<Label>, s: State) {
    Run(Init(before), run) == Some(s)
  }

  lemma {:induction false} RunKeepsSnapshots(s: State, run: seq<Label>, before: Memory)
    requires Structure(s) && SnapshotsOk(s, before) && Run(s, run).Some?
    ensures SnapshotsOk(Run(s, run).value, before)
    decreases |run|
  {
    if run != [] {
      StepKeepsSnapshots(s, run[0], before);
      RunKeepsStructure(s, [run[0]]);
      assert Run(s, [run[0]]) == Some(Next(s, run[0]).value) by {
        assert [run[0]][1..] == [];
      }
      RunKeepsSnapshots(Next(s, run[0]).value, run[1..], before);
    }
  }

  /** The invariant of every reachable state. */
  lemma ReachableIsSafe(before: Memory, run: seq<Label>, s: State)
    requires Reaches(before, run, s)
    ensures Structure(s) && SnapshotsOk(s, before)
  {
    RunKeepsStructure(Init(before), run);
    RunKeepsSnapshots(Init(before), run, before);
  }

  // ---------------------------------------------------------------- states along a run

  ghost predicate Feasible(before: Memory, run: seq<Label>) {
    Run(Init(before), run).Some?
  }

  lemma PrefixIsFeasible(before: Memory, run: seq<Label>, t: nat)
    requires Feasible(before, run) && t <= |run|
    ensures Feasible(before, run[..t])
  {
    assert run == run[..t] + run[t..];
    RunConcat(Init(before), run[..t], run[t..]);
  }

  /** The state after the first t steps. */
  ghost function StateAt(before: Memory, run: seq<Label>, t: nat): State
    requires Feasible(before, run) && t <= |run|
  {
    PrefixIsFeasible(before, run, t);
    Run(Init(before), run[..t]).value
  }

  ghost function Final(before: Memory, run: seq<Label>): State
    requires Feasible(before, run)
  {
    StateAt(before, run, |run|)
  }

  lemma StateAtStep(before: Memory, run: seq<Label>, t: nat)
    requires Feasible(before, run) && t < |run|
    ensures Next(StateAt(before, run, t), run[t]) == Some(StateAt(before, run, t + 1))
  {
    PrefixIsFeasible(before, run, t);
    PrefixIsFeasible(before, run, t + 1);
    assert run[..t + 1] == run[..t] + [run[t]];
    RunConcat(Init(before), run[..t], [run[t]]);
    var s := StateAt(before, run, t);
    assert Run(s, [run[t]]) == match Next(s, run[t]) case None => None case Some(m) => Run(m, []);
  }

  lemma StateAtIsSafe(before: Memory, run: seq<Label>, t: nat)
    requires Feasible(before, run) && t <= |run|
    ensures Structure(StateAt(before, run, t)) && SnapshotsOk(StateAt(before, run, t), before)
  {
    PrefixIsFeasible(before, run, t);
    ReachableIsSafe(before, run[..t], StateAt(before, run, t));
  }

  lemma {:induction false} StatesGrow(before: Memory, run: seq<Label>, t: nat, u: nat)
    requires Feasible(before, run) && t <= u <= |run|
    ensures Grows(StateAt(before, run, t), StateAt(before, run, u))
    decreases u
  {
    if t < u {
      StatesGrow(before, run, t, u - 1);
      StateAtStep(before, run, u - 1);
      StepGrows(StateAt(before, run, u - 1), run[u - 1]);
      var s, m, f := StateAt(before, run, t), StateAt(before, run, u - 1), StateAt(before, run, u);
      forall i | 0 <= i < |s.entries| ensures Evolves(s.entries[i], f.entries[i]) {
        assert Evolves(s.entries[i], m.entries[i]) && Evolves(m.entries[i], f.entries[i]);
      }
    }
  }

  // ---------------------------------------------------------------- rollback

  /** At time t the client is inside restore and writes back the bytes entry i saved. */
  ghost predicate RewritesAt(before: Memory, run: seq<Label>, t: nat, i: nat)
    requires Feasible(before, run)
  {
    t < |run| && StateAt(before, run, t).client == Rewriting(i) && run[t].Caller? && run[t].op.RestoreWrite?
  }

  /** At time t that write succeeds in full. */
  ghost predicate RestoredAt(before: Memory, run: seq<Label>, t: nat, i: nat)
    requires Feasible(before, run)
  {
    && RewritesAt(before, run, t, i)
    && i < |StateAt(before, run, t).entries|
    && Full(run[t].op.outcome, |StateAt(before, run, t).entries[i].original|)
  }

  /** Every worker whose range contains a has exited, and a holds what entry j saved for it. */
  ghost predicate Calm(s: State, j: nat, a: Address) {
    && j < |s.entries| && s.entries[j].Covers(a) && |s.entries[j].original| == s.entries[j].request.size
    && (forall k | 0 <= k < |s.entries| && s.entries[k].Covers(a) :: s.entries[k].pc == Exited)
    && a in s.mem && s.mem[a] == SavedByte(s.entries[j], a)
  }

  lemma CalmStep(s: State, step: Label, j: nat, a: Address)
    requires Structure(s) && Next(s, step).Some? && Calm(s, j, a)
    requires step.Caller? && step.op.RestoreWrite? && s.client.Rewriting? && s.client.i != j && s.client.i < |s.entries|
             ==> !s.entries[s.client.i].Covers(a)
    requires var t := Next(s, step).value; forall k | |s.entries| <= k < |t.entries| :: !t.entries[k].Covers(a)
    ensures Calm(Next(s, step).value, j, a)
  {
    var t := Next(s, step).value;
    StepGrows(s, step);
    OnlyOwnersWrite(s, step, a);
    forall k | 0 <= k < |t.entries| && t.entries[k].Covers(a) ensures t.entries[k].pc == Exited {
      assert Evolves(s.entries[k], t.entries[k]);
    }
    assert Evolves(s.entries[j], t.entries[j]);
  }

  /** Nobody else writes a after the restore of j at time t: no live worker, no other restore, no later freeze. */
  ghost predicate LastWordOn(before: Memory, run: seq<Label>, t: nat, j: nat, a: Address)
    requires Feasible(before, run)
  {
    var f := Final(before, run);
    && RestoredAt(before, run, t, j)
    && j < |f.entries| && f.entries[j].Covers(a)
    && (forall k | 0 <= k < |f.entries| && k != j && f.entries[k].Covers(a) ::
          k < |StateAt(before, run, t).entries| && StateAt(before, run, t).entries[k].pc == Exited)
    && forall u: nat, k: nat | t < u && RewritesAt(before, run, u, k) && k != j && k < |f.entries| :: !f.entries[k].Covers(a)
  }

  lemma RestoreMakesCalm(before: Memory, run: seq<Label>, t: nat, j: nat, a: Address)
    requires Feasible(before, run) && LastWordOn(before, run, t, j, a)
    ensures Calm(StateAt(before, run, t + 1), j, a)
  {
    var s, s', f := StateAt(before, run, t), StateAt(before, run, t + 1), Final(before, run);
    StateAtIsSafe(before, run, t);
    StateAtStep(before, run, t);
    StatesGrow(before, run, t, |run|);
    assert EntryOk(s, j) && Evolves(s.entries[j], f.entries[j]);
    PutEffect(s.mem, s.entries[j].request.address, s.entries[j].original, run[t].op.outcome, a);
    forall k | 0 <= k < |s'.entries| && s'.entries[k].Covers(a) ensures s'.entries[k].pc == Exited {
      assert Evolves(s.entries[k], f.entries[k]);
    }
  }

  lemma NoLaterCover(before: Memory, run: seq<Label>, t: nat, u: nat, j: nat, a: Address)
    requires Feasible(before, run) && LastWordOn(before, run, t, j, a) && t < u < |run|
    ensures var s, s' := StateAt(before, run, u), StateAt(before, run, u + 1);
            forall k | |s.entries| <= k < |s'.entries| :: !s'.entries[k].Covers(a)
  {
    var s, s', f := StateAt(before, run, u), StateAt(before, run, u + 1), Final(before, run);
    StatesGrow(before, run, t, u);
    StatesGrow(before, run, u + 1, |run|);
    forall k | |s.entries| <= k < |s'.entries| ensures !s'.entries[k].Covers(a) {
      assert Evolves(s'.entries[k], f.entries[k]);
    }
  }

  lemma NoForeignRestore(before: Memory, run: seq<Label>, t: nat, u: nat, j: nat, a: Address)
    requires Feasible(before, run) && LastWordOn(before, run, t, j, a) && t < u < |run|
    requires run[u].Caller? && run[u].op.RestoreWrite? && StateAt(before, run, u).client.Rewriting?
    ensures var s := StateAt(before, run, u);
            s.client.i != j && s.client.i < |s.entries| ==> !s.entries[s.client.i].Covers(a)
  {
    var s, f := StateAt(before, run, u), Final(before, run);
    var k := s.client.i;
    StatesGrow(before, run, u, |run|);
    assert RewritesAt(before, run, u, k);
    if k < |s.entries| {
      assert Evolves(s.entries[k], f.entries[k]);
    }
  }

  lemma {:induction false} CalmPersists(before: Memory, run: seq<Label>, t: nat, u: nat, j: nat, a: Address)
    requires Feasible(before, run) && LastWordOn(before, run, t, j, a) && t < u <= |run|
    ensures Calm(StateAt(before, run, u), j, a)
    decreases u
  {
    if u == t + 1 {
      RestoreMakesCalm(before, run, t, j, a);
    } else {
      CalmPersists(before, run, t, u - 1, j, a);
      CalmAcross(before, run, t, u - 1, j, a);
    }
  }

  lemma CalmAcross(before: Memory, run: seq<Label>, t: nat, u: nat, j: nat, a: Address)
    requires Feasible(before, run) && LastWordOn(before, run, t, j, a) && t < u < |run|
    requires Calm(StateAt(before, run, u), j, a)
    ensures Calm(StateAt(before, run, u + 1), j, a)
  {
    var s := StateAt(before, run, u);
    StateAtIsSafe(before, run, u);
    StateAtStep(before, run, u);
    NoLaterCover(before, run, t, u, j, a);
    if run[u].Caller? && run[u].op.RestoreWrite? && s.client.Rewriting? {
      NoForeignRestore(before, run, t, u, j, a);
    }
    CalmStep(s, run[u], j, a);
  }

  /** The last restore of a quiet byte decides its final value, whichever freeze it belongs to. */
  lemma LastRestoreWins(before: Memory, run: seq<Label>, t: nat, j: nat, a: Address)
    requires Feasible(before, run) && LastWordOn(before, run, t, j, a)
    ensures var f := Final(before, run);
            && |f.entries[j].original| == f.entries[j].request.size
            && a in f.mem && f.mem[a] == SavedByte(f.entries[j], a)
  {
    CalmPersists(before, run, t, |run|, j, a);
  }

  /** When that freeze is the earliest one on the byte, the byte is back to its value before any freeze. */
  lemma RollbackTheorem(before: Memory, run: seq<Label>, t: nat, j: nat, a: Address)
    requires Feasible(before, run) && LastWordOn(before, run, t, j, a)
    requires FirstCover(Final(before, run), j, a)
    ensures a in before && a in Final(before, run).mem && Final(before, run).mem[a] == before[a]
  {
    LastRestoreWins(before, run, t, j, a);
    StateAtIsSafe(before, run, |run|);
  }

  /** Each frozen byte had its earliest freeze restored after the others were done with it. */
  ghost predicate CleanlyRestored(before: Memory, run: seq<Label>)
    requires Feasible(before, run)
  {
    forall a: Address | Covered(Final(before, run), a) ::
      exists j: nat, t: nat :: FirstCover(Final(before, run), j, a) && LastWordOn(before, run, t, j, a)
  }

  /** Then the whole memory, mapped addresses included, is what it was before the first freeze. */
  lemma CleanRestoreUndoesEverything(before: Memory, run: seq<Label>)
    requires Feasible(before, run) && CleanlyRestored(before, run)
    ensures Final(before, run).mem == before
  {
    var f := Final(before, run);
    StateAtIsSafe(before, run, |run|);
    forall a: Address ensures SameAt(f.mem, before, a) {
      if Covered(f, a) {
        var j: nat, t: nat :| FirstCover(f, j, a) && LastWordOn(before, run, t, j, a);
        RollbackTheorem(before, run, t, j, a);
      }
    }
    SameEverywhere(f.mem, before);
  }

  /** times[i] is the last restore of entry i, it succeeds, and later freezes are restored earlier. */
  ghost predicate RestoredInReverse(before: Memory, run: seq<Label>, times: seq<nat>)
    requires Feasible(before, run)
  {
    && |times| == |Final(before, run).entries|
    && (forall i | 0 <= i < |times| :: RestoredAt(before, run, times[i], i))
    && (forall i, k | 0 <= i < k < |times| :: times[k] < times[i])
    && forall i: nat, u: nat | i < |times| && times[i] < u :: !RewritesAt(before, run, u, i)
  }

  lemma ReverseOrderIsClean(before: Memory, run: seq<Label>, times: seq<nat>)
    requires Feasible(before, run) && RestoredInReverse(before, run, times)
    ensures CleanlyRestored(before, run)
  {
    var f := Final(before, run);
    forall a: Address | Covered(f, a)
      ensures exists j: nat, t: nat :: FirstCover(f, j, a) && LastWordOn(before, run, t, j, a)
    {
      var j := Earliest(f, a);
      var t := times[j];
      assert RestoredAt(before, run, t, j);
      assert forall k | j < k < |times| :: times[k] < t;
      forall k | 0 <= k < |f.entries| && k != j && f.entries[k].Covers(a)
        ensures k < |StateAt(before, run, t).entries| && StateAt(before, run, t).entries[k].pc == Exited
      {
        assert j < k && RestoredAt(before, run, times[k], k);
        StateAtIsSafe(before, run, times[k]);
        StatesGrow(before, run, times[k], t);
        assert Evolves(StateAt(before, run, times[k]).entries[k], StateAt(before, run, t).entries[k]);
      }
      forall u: nat, k: nat | t < u && RewritesAt(before, run, u, k) && k != j && k < |f.entries|
        ensures !f.entries[k].Covers(a)
      {
      }
      assert FirstCover(f, j, a) && LastWordOn(before, run, t, j, a);
    }
  }

  lemma Earliest(s: State, a: int) returns (j: nat)
    requires Covered(s, a)
    ensures FirstCover(s, j, a)
  {
    j := 0;
    while !s.entries[j].Covers(a)
      invariant j < |s.entries|
      invariant forall k | 0 <= k < j :: !s.entries[k].Covers(a)
      decreases |s.entries| - j
    {
      assert exists i :: 0 <= i < |s.entries| && s.entries[i].Covers(a);
      j := j + 1;
    }
  }

  /** Restoring every freeze in the reverse of the order of freezing undoes all of them. */
  lemma ReverseRestoreUndoesEverything(before: Memory, run: seq<Label>, times: seq<nat>)
    requires Feasible(before, run) && RestoredInReverse(before, run, times)
    ensures Final(before, run).mem == before
  {
    ReverseOrderIsClean(before, run, times);
    CleanRestoreUndoesEverything(before, run);
  }
}
