/**
  Why the order of restores matters: exactly when restores in any order bring the first memory back, and a
  concrete run in which every restore succeeds and memory is still wrong.
*/
module FreezeOrder {
  import opened Common
  import opened ByteMemory
  import opened FreezeProtocol
  import opened FreezeRollback

  // ---------------------------------------------------------------- the exact condition

  /** A byte whose last restore is that of entry j is back exactly when j saved what the earliest freeze i saved. */
  lemma LastRestoreDecides(before: Memory, run: seq<Label>, t: nat, i: nat, j: nat, a: Address)
    requires Feasible(before, run) && LastWordOn(before, run, t, j, a)
    requires FirstCover(Final(before, run), i, a)
    ensures var f := Final(before, run);
            && |f.entries[i].original| == f.entries[i].request.size && |f.entries[j].original| == f.entries[j].request.size
            && a in before && a in f.mem
            && (f.mem[a] == before[a] <==> SavedByte(f.entries[j], a) == SavedByte(f.entries[i], a))
  {
    LastRestoreWins(before, run, t, j, a);
    StateAtIsSafe(before, run, |run|);
    assert EntryOk(Final(before, run), i);
  }

  /** times[i] is the last restore of entry i, and it succeeds; the times may come in any order. */
  ghost predicate AllRestored(before: Memory, run: seq<Label>, times: seq<nat>)
    requires Feasible(before, run)
  {
    && |times| == |Final(before, run).entries|
    && (forall i | 0 <= i < |times| :: RestoredAt(before, run, times[i], i))
    && forall i: nat, u: nat | i < |times| && times[i] < u :: !RewritesAt(before, run, u, i)
  }

  /** Of the entries whose range contains a, j is restored last. */
  ghost predicate LastCover(s: State, times: seq<nat>, j: nat, a: int)
    requires |times| == |s.entries|
  {
    && j < |s.entries| && s.entries[j].Covers(a)
    && forall k | 0 <= k < |times| && s.entries[k].Covers(a) :: times[k] <= times[j]
  }

  lemma Latest(s: State, times: seq<nat>, a: int) returns (j: nat)
    requires |times| == |s.entries| && Covered(s, a)
    ensures LastCover(s, times, j, a)
  {
    j := Earliest(s, a);
    for k := j + 1 to |times|
      invariant j < k && s.entries[j].Covers(a)
      invariant forall i | 0 <= i < k && s.entries[i].Covers(a) :: times[i] <= times[j]
    {
      if s.entries[k].Covers(a) && times[j] < times[k] {
        j := k;
      }
    }
  }

  /** Two entries are never restored at the same time. */
  lemma TimesDiffer(before: Memory, run: seq<Label>, times: seq<nat>, i: nat, k: nat)
    requires Feasible(before, run) && AllRestored(before, run, times) && i < |times| && k < |times| && i != k
    ensures times[i] != times[k]
  {
    assert RestoredAt(before, run, times[i], i) && RestoredAt(before, run, times[k], k);
  }

  lemma LastCoverHasLastWord(before: Memory, run: seq<Label>, times: seq<nat>, j: nat, a: Address)
    requires Feasible(before, run) && AllRestored(before, run, times)
    requires LastCover(Final(before, run), times, j, a)
    ensures LastWordOn(before, run, times[j], j, a)
  {
    var f, t := Final(before, run), times[j];
    assert RestoredAt(before, run, t, j);
    forall k | 0 <= k < |f.entries| && k != j && f.entries[k].Covers(a)
      ensures k < |StateAt(before, run, t).entries| && StateAt(before, run, t).entries[k].pc == Exited
    {
      TimesDiffer(before, run, times, j, k);
      assert RestoredAt(before, run, times[k], k);
      StateAtIsSafe(before, run, times[k]);
      StatesGrow(before, run, times[k], t);
      assert Evolves(StateAt(before, run, times[k]).entries[k], StateAt(before, run, t).entries[k]);
    }
  }

  /** Entries i and j both saved the byte at a, and the same value. */
  ghost predicate SavedSame(s: State, i: nat, j: nat, a: Address) {
    && i < |s.entries| && s.entries[i].Covers(a) && |s.entries[i].original| == s.entries[i].request.size
    && j < |s.entries| && s.entries[j].Covers(a) && |s.entries[j].original| == s.entries[j].request.size
    && SavedByte(s.entries[j], a) == SavedByte(s.entries[i], a)
  }

  /** On every frozen byte, the entry restored last saved what the earliest freeze saved. */
  ghost predicate SavedAlike(s: State, times: seq<nat>)
    requires |times| == |s.entries|
  {
    forall i: nat, j: nat, a: Address | FirstCover(s, i, a) && LastCover(s, times, j, a) :: SavedSame(s, i, j, a)
  }

  /**
    When every freeze has been restored, in whatever order, the whole memory is what it was before the first
    freeze if and only if on every frozen byte the entry restored last saved what the earliest one saved.
  */
  lemma AnyOrderRestoresIff(before: Memory, run: seq<Label>, times: seq<nat>)
    requires Feasible(before, run) && AllRestored(before, run, times)
    ensures Final(before, run).mem == before <==> SavedAlike(Final(before, run), times)
  {
    var f := Final(before, run);
    forall i: nat, j: nat, a: Address | FirstCover(f, i, a) && LastCover(f, times, j, a)
      ensures f.mem == before ==> SavedSame(f, i, j, a)
    {
      LastCoverHasLastWord(before, run, times, j, a);
      LastRestoreDecides(before, run, times[j], i, j, a);
    }
    if SavedAlike(f, times) {
      AlikeIsEnough(before, run, times);
    }
  }

  lemma AlikeIsEnough(before: Memory, run: seq<Label>, times: seq<nat>)
    requires Feasible(before, run) && AllRestored(before, run, times) && SavedAlike(Final(before, run), times)
    ensures Final(before, run).mem == before
  {
    var f := Final(before, run);
    StateAtIsSafe(before, run, |run|);
    forall a: Address ensures SameAt(f.mem, before, a) {
      if Covered(f, a) {
        var i := Earliest(f, a);
        var j := Latest(f, times, a);
        LastCoverHasLastWord(before, run, times, j, a);
        LastRestoreDecides(before, run, times[j], i, j, a);
        assert SavedSame(f, i, j, a);
      }
    }
    SameEverywhere(f.mem, before);
  }

  /** What status shows of an entry determines the byte it saved for an address. */
  lemma StatusShowsSavedByte(e: Entry, a: int)
    requires e.Covers(a) && |e.original| == e.request.size
    ensures ToBytes(StatusOf(e).original, StatusOf(e).size)[a - StatusOf(e).address] == SavedByte(e, a)
  {
    BytesOfValueOfBytes(e.original);
  }

  // ---------------------------------------------------------------- a run that fails it

  const BEFORE: Memory := map[16 := 1]
  const FIRST := FreezeRequest("a", 16, "uint8", 7, 50, 1)
  const SECOND := FreezeRequest("b", 16, "uint8", 9, 50, 1)

  /** A run and the state it leads to. */
  ghost predicate Leads(run: seq<Label>, s: State) {
    Run(Init(BEFORE), run) == Some(s)
  }

  lemma Then(run: seq<Label>, s: State, step: Label, t: State)
    requires Leads(run, s) && Next(s, step) == Some(t)
    ensures Leads(run + [step], t)
  {
    RunConcat(Init(BEFORE), run, [step]);
    assert [step][1..] == [];
  }

  lemma ThenTwo(run: seq<Label>, s: State, x: Label, m: State, y: Label, t: State)
    requires Leads(run, s) && Next(s, x) == Some(m) && Next(m, y) == Some(t)
    ensures Leads(run + [x] + [y], t)
  {
    Then(run, s, x, m);
    Then(run + [x], m, y, t);
  }

  /** A worker step that does not write. */
  lemma Works(run: seq<Label>, s: State, i: nat, act: Action) returns (longer: seq<Label>, t: State)
    requires Leads(run, s) && i < |s.entries| && !act.Rewrite? && WorkerStep(s.entries[i], act).Some?
    ensures Leads(longer, t) && t == s.(entries := s.entries[i := WorkerStep(s.entries[i], act).value])
    ensures run <= longer
  {
    longer, t := run + [Worker(i, act)], s.(entries := s.entries[i := WorkerStep(s.entries[i], act).value]);
    Then(run, s, Worker(i, act), t);
  }

  /** freeze of a request that Snapshot accepts, up to the start of its thread. */
  lemma FreezeCall(run: seq<Label>, s: State, request: FreezeRequest, e: Entry)
    requires Leads(run, s) && s.client == Idle && Snapshot(s, request) == Success(e) && e.pc == NotStarted
    ensures Leads(run + [Caller(Freeze(request))] + [Caller(Spawn)], s.(entries := s.entries + [e.(pc := LoopCancel)]))
  {
    var m := s.(entries := s.entries + [e], client := Spawning(|s.entries|));
    assert m.entries[|s.entries| := e.(pc := LoopCancel)] == s.entries + [e.(pc := LoopCancel)];
    ThenTwo(run, s, Caller(Freeze(request)), m, Caller(Spawn), s.(entries := s.entries + [e.(pc := LoopCancel)]));
  }

  /** The first half of restore: the cancel flag is set and the client waits. */
  lemma RestoreBegins(run: seq<Label>, s: State, i: nat)
    requires Leads(run, s) && s.client == Idle && i < |s.entries|
    requires Find(s.entries, s.entries[i].request.id) == i && s.entries[i].Joinable()
    ensures Leads(run + [Caller(Begin(s.entries[i].request.id, ToRestore))] + [Caller(SetCancel)],
                  s.(entries := s.entries[i := s.entries[i].(cancel := true)], client := Joining(i, ToRestore)))
  {
    ThenTwo(run, s, Caller(Begin(s.entries[i].request.id, ToRestore)), s.(client := Cancelling(i, ToRestore)), Caller(SetCancel),
            s.(entries := s.entries[i := s.entries[i].(cancel := true)], client := Joining(i, ToRestore)));
  }

  /** The second half: the worker is joined and the saved bytes are written in full. */
  lemma RestoreEnds(run: seq<Label>, s: State, i: nat) returns (longer: seq<Label>, t: State)
    requires Leads(run, s) && s.client == Joining(i, ToRestore) && i < |s.entries| && s.entries[i].pc == Exited
    requires s.entries[i].request.address + |s.entries[i].original| <= ADDRESS_SPACE
    ensures Leads(longer, t) && t.client == Idle && run <= longer
    ensures t.entries == s.entries[i := s.entries[i].(joined := true, restored := true, active := false)]
    ensures t.mem == Written(s.mem, s.entries[i].request.address, s.entries[i].original)
  {
    var e := s.entries[i];
    var n := |e.original|;
    var a := s.(entries := s.entries[i := e.(joined := true)], client := Rewriting(i));
    var b := a.(mem := Written(s.mem, e.request.address, e.original), client := Marking(i));
    var c := b.(entries := b.entries[i := e.(joined := true, restored := true)], client := Clearing(i));
    t := c.(entries := c.entries[i := e.(joined := true, restored := true, active := false)], client := Idle);
    assert e.original[..n] == e.original;
    ThenTwo(run, s, Caller(Join), a, Caller(RestoreWrite(Wrote(n))), b);
    longer := run + [Caller(Join)] + [Caller(RestoreWrite(Wrote(n)))];
    ThenTwo(longer, b, Caller(MarkRestored), c, Caller(ClearFlag), t);
    longer := longer + [Caller(MarkRestored)] + [Caller(ClearFlag)];
  }

  lemma SnapshotOfByte(s: State, request: FreezeRequest)
    requires request == FIRST || request == SECOND
    requires Find(s.entries, request.id) == |s.entries| && s.mem.Keys == {16}
    ensures Snapshot(s, request) == Success(Entry(request, [s.mem[16]], false, true, false, 0, 0, NotStarted, false))
  {
    assert Normalize(request) == Success(request);
    assert Window(s.mem, 16, 1) == [s.mem[16]];
  }

  const E0 := Entry(FIRST, [1], false, true, false, 0, 0, Counting(Wrote(1)), false)
  const E1 := Entry(SECOND, [7], false, true, false, 0, 0, LoopCancel, false)

  lemma FirstIsAboutToWrite() returns (run: seq<Label>)
    ensures Leads(run, State(BEFORE, [E0.(pc := Writing)], Idle))
  {
    var s := Init(BEFORE);
    SnapshotOfByte(s, FIRST);
    FreezeCall([], s, FIRST, E0.(pc := NotStarted));
    run := [] + [Caller(Freeze(FIRST))] + [Caller(Spawn)];
    s := s.(entries := s.entries + [E0.(pc := LoopCancel)]);
    run, s := Works(run, s, 0, LoadCancel);
    run, s := Works(run, s, 0, LoadActive);
    run, s := Works(run, s, 0, AskAlive(true));
    assert s.entries == [E0.(pc := Writing)];
  }

  /** The worker of the first freeze writes 7. */
  lemma FreezeOnce() returns (run: seq<Label>)
    ensures Leads(run, State(map[16 := 7], [E0], Idle))
  {
    run := FirstIsAboutToWrite();
    var s := State(BEFORE, [E0.(pc := Writing)], Idle);
    assert ToBytes(7, 1) == [7] && [7][..1] == [7] && Written(BEFORE, 16, [7]) == map[16 := 7];
    assert s.entries[0 := E0] == [E0];
    Then(run, s, Worker(0, Rewrite(Wrote(1))), State(map[16 := 7], [E0], Idle));
    run := run + [Worker(0, Rewrite(Wrote(1)))];
  }

  /** The second freeze of the same byte then saves that 7. */
  lemma FreezeTwice() returns (run: seq<Label>)
    ensures Leads(run, State(map[16 := 7], [E0, E1], Idle))
  {
    run := FreezeOnce();
    var w := State(map[16 := 7], [E0], Idle);
    assert Find(w.entries, "b") == 1;
    SnapshotOfByte(w, SECOND);
    FreezeCall(run, w, SECOND, E1.(pc := NotStarted));
    run := run + [Caller(Freeze(SECOND))] + [Caller(Spawn)];
    assert w.entries + [E1] == [E0, E1];
  }

  lemma RestoreFirst() returns (run: seq<Label>, t: State)
    ensures Leads(run, t) && t.client == Idle && |t.entries| == 2
    ensures t.entries[0].restored && t.entries[0].request.id == "a" && t.entries[1] == E1
    ensures t.mem == Written(map[16 := 7], 16, [1])
  {
    run := FreezeTwice();
    var s := State(map[16 := 7], [E0, E1], Idle);
    RestoreBegins(run, s, 0);
    run := run + [Caller(Begin("a", ToRestore))] + [Caller(SetCancel)];
    s := s.(entries := s.entries[0 := E0.(cancel := true)], client := Joining(0, ToRestore));
    run, s := Works(run, s, 0, Count);
    run, s := Works(run, s, 0, LoadCancel);
    run, s := Works(run, s, 0, LoadCancel);
    run, t := RestoreEnds(run, s, 0);
  }

  /** Restoring in the order of freezing: all entries end up restored, yet the byte is 7 and was 1. */
  lemma ForwardRestoreLosesTheOriginal() returns (run: seq<Label>, t: State)
    ensures Leads(run, t) && t.client == Idle && |t.entries| == 2
    ensures t.entries[0].restored && t.entries[1].restored
    ensures 16 in t.mem && t.mem[16] == 7 && BEFORE[16] == 1
  {
    var s;
    run, s := RestoreFirst();
    assert Find(s.entries[1..], "b") == 0 && Find(s.entries, "b") == 1;
    RestoreBegins(run, s, 1);
    run := run + [Caller(Begin("b", ToRestore))] + [Caller(SetCancel)];
    s := s.(entries := s.entries[1 := E1.(cancel := true)], client := Joining(1, ToRestore));
    run, s := Works(run, s, 1, LoadCancel);
    run, t := RestoreEnds(run, s, 1);
  }

  /** One freeze and its restore: the byte goes from 1 to 7 and back to 1. */
  lemma FreezeAndRestore() returns (frozen: seq<Label>, restored: seq<Label>, s: State, t: State)
    ensures Leads(frozen, s) && 16 in s.mem && s.mem[16] == 7
    ensures frozen <= restored && Leads(restored, t) && 16 in t.mem && t.mem[16] == 1
  {
    frozen := FreezeOnce();
    s := State(map[16 := 7], [E0], Idle);
    RestoreBegins(frozen, s, 0);
    restored := frozen + [Caller(Begin("a", ToRestore))] + [Caller(SetCancel)];
    t := s.(entries := s.entries[0 := E0.(cancel := true)], client := Joining(0, ToRestore));
    restored, t := Works(restored, t, 0, Count);
    restored, t := Works(restored, t, 0, LoadCancel);
    restored, t := Works(restored, t, 0, LoadCancel);
    restored, t := RestoreEnds(restored, t, 0);
  }
}
