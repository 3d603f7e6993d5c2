/**
  FreezeManager with its fields updated in place. Every method is proved to perform steps of the
  protocol: it returns, as a ghost result, the run that leads from the old state to the new one.
  What the backend answers is a parameter; a join runs the worker until it has left its loop.
*/
module FreezeManagement {
  import opened Common
  import opened ByteMemory
  import opened FreezeProtocol
  import opened FreezeRollback
  import opened FreezeCancel
  import opened FreezeRuns

  class FreezeEntry {
    const request: FreezeRequest
    const original: seq<Byte>
    var cancel: bool
    var active: bool
    var restored: bool
    var okCount: nat
    var failCount: nat
    var pc: Pc
    var joined: bool

    constructor (request: FreezeRequest, original: seq<Byte>)
      ensures View() == Entry(request, original, false, true, false, 0, 0, NotStarted, false)
    {
      this.request, this.original := request, original;
      cancel, active, restored := false, true, false;
      okCount, failCount, pc, joined := 0, 0, NotStarted, false;
    }

    function View(): Entry
      reads this
    {
      Entry(request, original, cancel, active, restored, okCount, failCount, pc, joined)
    }

    /** One step of the worker's loop. */
    method Step(act: Action)
      requires WorkerStep(View(), act).Some?
      modifies this
      ensures WorkerStep(old(View()), act) == Some(View())
    {
      match pc {
        case LoopCancel => pc := if cancel then Exited else LoopActive;
        case LoopActive => pc := if active then CheckAlive else Exited;
        case CheckAlive => pc := if act.alive then Writing else MarkDead;
        case Writing => pc := Counting(act.outcome);
        case Counting(outcome) =>
          if outcome == Wrote(request.size) {
            okCount := okCount + 1;
          } else {
            failCount := failCount + 1;
          }
          pc := NapCancel(0);
        case NapCancel(slept) => pc := if cancel then LoopCancel else NapActive(slept);
        case NapActive(slept) => pc := if active then Napping(slept) else LoopCancel;
        case Napping(slept) => pc := if slept + 1 < Interval(View()) then NapCancel(slept + 1) else LoopCancel;
        case MarkDead => active, pc := false, CountDead;
        case CountDead => failCount, pc := failCount + 1, Exited;
      }
    }
  }

  /** The values of a list of entries. */
  ghost function Views(order: seq<FreezeEntry>): (r: seq<Entry>)
    reads order
    ensures |r| == |order|
    ensures forall k | 0 <= k < |order| :: r[k] == order[k].View()
  {
    seq(|order|, k requires 0 <= k < |order| reads order => order[k].View())
  }

  /** The saved bytes of e are in memory. */
  ghost predicate Holds(memory: Memory, e: FreezeEntry) {
    e.request.address + |e.original| <= ADDRESS_SPACE ==>
      Mapped(memory, e.request.address, |e.original|) && Window(memory, e.request.address, |e.original|) == e.original
  }

  lemma PutHolds(before: Memory, e: FreezeEntry)
    ensures Holds(Put(before, e.request.address, e.original, Wrote(|e.original|)), e)
  {
    assert e.original[..|e.original|] == e.original;
  }

  /** The entries still to visit, as objects and as positions in the order of freezing. */
  ghost predicate Pending(order: seq<FreezeEntry>, todo: set<FreezeEntry>, positions: set<nat>) {
    && (forall e | e in todo :: e in order)
    && (forall k: nat :: k in positions <==> k < |order| && order[k] in todo)
  }

  lemma PendingNext(order: seq<FreezeEntry>, todo: set<FreezeEntry>, positions: set<nat>, e: FreezeEntry, k: nat)
    requires Pending(order, todo, positions) && e in todo && k < |order| && order[k] == e
    requires forall i | 0 <= i < |order| && i != k :: order[i] != e
    ensures k in positions && Pending(order, todo - {e}, positions - {k})
    ensures todo == {e} <==> positions - {k} == {}
  {
    if todo != {e} {
      var f :| f in todo && f != e;
      assert f in order;
    }
  }

  class FreezeManager {
    var memory: Memory
    var entries: map<string, FreezeEntry>
    ghost var order: seq<FreezeEntry>
    ghost var index: map<string, nat>
    ghost var client: Client

    ghost function View(): State
      reads this, order
    {
      State(memory, Views(order), client)
    }

    /** entries_ and the freeze order list the same entry objects, each once and under its own id. */
    ghost predicate Valid()
      reads this`entries, this`order, this`index
    {
      && index.Keys == entries.Keys
      && (forall id | id in entries :: index[id] < |order| && order[index[id]] == entries[id] && entries[id].request.id == id)
      && (forall k | 0 <= k < |order| :: order[k].request.id in index && index[order[k].request.id] == k)
    }

    constructor (memory: Memory)
      ensures Valid() && View() == Init(memory)
    {
      this.memory, entries, order, index, client := memory, map[], [], map[], Idle;
    }

    /** The position of a registered entry. */
    lemma Position(id: string) returns (k: nat)
      requires Valid() && id in entries
      ensures k < |order| && order[k] == entries[id] && Find(View().entries, id) == k
    {
      k := index[id];
      FindFinds(View().entries, k);
    }

    lemma Unregistered(id: string)
      requires Valid() && id !in entries
      ensures Find(View().entries, id) == |View().entries|
    {
      assert forall k | 0 <= k < |order| :: View().entries[k].request.id == order[k].request.id;
    }

    /** After changes to entry k alone, only that element of the view differs. */
    twostate lemma OneChanged(k: nat)
      requires k < |order| && old(Valid()) && order == old(order) && old(allocated(order[k]))
      requires forall i | 0 <= i < |order| && i != k :: unchanged(order[i])
      ensures Views(order) == old(Views(order))[k := order[k].View()]
    {
    }

    /** A new entry at the end of the order comes at the end of the view. */
    twostate lemma Appended(new e: FreezeEntry)
      requires order == old(order) + [e]
      requires forall i | 0 <= i < |old(order)| :: old(allocated(order[i])) && unchanged(old(order[i]))
      ensures Views(order) == old(Views(order)) + [e.View()]
    {
    }

    /** Any worker's next step, with the memory effect of its backend write. */
    method WorkerStep(id: string, act: Action) returns (ghost k: nat)
      requires Valid() && id in entries && FreezeProtocol.WorkerStep(entries[id].View(), act).Some?
      modifies this`memory, entries[id]
      ensures Valid()
      ensures k < |order| && order[k] == entries[id]
      ensures Next(old(View()), Worker(k, act)) == Some(View())
      ensures FreezeProtocol.WorkerStep(old(entries[id].View()), act) == Some(entries[id].View())
    {
      k := Position(id);
      WorkInPlace(entries[id], k, act);
    }

    method WorkInPlace(e: FreezeEntry, ghost k: nat, act: Action)
      requires Valid() && k < |order| && order[k] == e && FreezeProtocol.WorkerStep(e.View(), act).Some?
      modifies this`memory, e
      ensures Valid()
      ensures Next(old(View()), Worker(k, act)) == Some(View())
      ensures FreezeProtocol.WorkerStep(old(e.View()), act) == Some(e.View())
    {
      NextOfWorker(View(), k, act);
      Move(e, k, act);
    }

    /** The two things a step touches: memory and the entry. */
    method Move(e: FreezeEntry, ghost k: nat, act: Action)
      requires Valid() && k < |order| && order[k] == e && FreezeProtocol.WorkerStep(e.View(), act).Some?
      requires act.Rewrite? ==> Possible(act.outcome, e.request.size)
      modifies this`memory, e
      ensures Valid()
      ensures FreezeProtocol.WorkerStep(old(e.View()), act) == Some(e.View())
      ensures View() == State(
        if act.Rewrite? then Put(old(memory), e.request.address, ToBytes(e.request.value, e.request.size), act.outcome) else old(memory),
        old(View()).entries[k := e.View()], client)
    {
      if act.Rewrite? {
        WriteOut(e, act.outcome);
      }
      e.Step(act);
      OneChanged(k);
    }

    method WriteOut(e: FreezeEntry, outcome: Outcome)
      requires Possible(outcome, e.request.size)
      modifies this`memory
      ensures memory == Put(old(memory), e.request.address, ToBytes(e.request.value, e.request.size), outcome)
    {
      memory := Put(memory, e.request.address, ToBytes(e.request.value, e.request.size), outcome);
    }

    method TowardsExit(e: FreezeEntry, ghost k: nat, alive: bool, outcome: Outcome) returns (ghost act: Action)
      requires Valid() && k < |order| && order[k] == e
      requires e.cancel && e.pc != NotStarted && e.pc != Exited
      modifies this`memory, e
      ensures Valid()
      ensures Next(old(View()), Worker(k, act)) == Some(View())
      ensures e.cancel && e.pc != NotStarted && e.joined == old(e.joined) && (e.active ==> old(e.active))
      ensures StepsLeft(e.pc) < StepsLeft(old(e.pc))
    {
      CancelledNext(e.View(), alive, outcome);
      act := NextAction(e.View(), alive, outcome);
      WorkInPlace(e, k, NextAction(e.View(), alive, outcome));
    }

    /**
      join: the worker runs until it has left its loop. Its cancel flag is set, so the bound on its
      remaining steps is the reason the wait ends.
    */
    method AwaitExit(e: FreezeEntry, ghost k: nat, alive: bool, outcome: Outcome) returns (ghost run: seq<Label>)
      requires Valid() && k < |order| && order[k] == e
      requires e.cancel && e.pc != NotStarted
      modifies this`memory, e
      ensures Valid()
      ensures e.pc == Exited && e.cancel && e.joined == old(e.joined) && (e.active ==> old(e.active))
      ensures Run(old(View()), run) == Some(View())
      ensures forall step | step in run :: IsStepOf(step, k)
    {
      run := [];
      while e.pc != Exited
        invariant e.cancel && e.pc != NotStarted && e.joined == old(e.joined) && (e.active ==> old(e.active))
        invariant Run(old(View()), run) == Some(View())
        invariant forall step | step in run :: IsStepOf(step, k)
        decreases StepsLeft(e.pc)
      {
        ghost var s := View();
        ghost var act := TowardsExit(e, k, alive, outcome);
        RunExtends(old(View()), run, s, Worker(k, act));
        run := run + [Worker(k, act)];
      }
    }

    // -------------------------------------------------------------- the client's calls

    method StoreCancel(e: FreezeEntry, ghost k: nat, ghost next: Client)
      requires Valid() && k < |order| && order[k] == e
      modifies this`client, e`cancel
      ensures Valid()
      ensures var s := old(View()); View() == s.(entries := s.entries[k := s.entries[k].(cancel := true)], client := next)
    {
      e.cancel := true;
      client := next;
      OneChanged(k);
    }

    method StoreJoined(e: FreezeEntry, ghost k: nat, ghost next: Client)
      requires Valid() && k < |order| && order[k] == e
      modifies this`client, e`joined
      ensures Valid()
      ensures var s := old(View()); View() == s.(entries := s.entries[k := s.entries[k].(joined := true)], client := next)
    {
      e.joined := true;
      client := next;
      OneChanged(k);
    }

    method StoreInactive(e: FreezeEntry, ghost k: nat, ghost next: Client)
      requires Valid() && k < |order| && order[k] == e
      modifies this`client, e`active
      ensures Valid()
      ensures var s := old(View()); View() == s.(entries := s.entries[k := s.entries[k].(active := false)], client := next)
    {
      e.active := false;
      client := next;
      OneChanged(k);
    }

    /** cancel.store(true), then join. */
    method CancelAndJoin(e: FreezeEntry, ghost k: nat, ghost goal: Goal, alive: bool, outcome: Outcome)
      returns (ghost run: seq<Label>)
      requires Valid() && k < |order| && order[k] == e && client == Cancelling(k, goal)
      requires e.pc != NotStarted
      modifies this`client, this`memory, e
      ensures Valid()
      ensures e.View().joined && client == AfterJoin(k, goal)
      ensures Run(old(View()), run) == Some(View()) && Within(run, {SetCancel, Join})
    {
      StoreCancel(e, k, Joining(k, goal));
      ghost var c := View();
      ghost var waited := AwaitExit(e, k, alive, outcome);
      ghost var t := View();
      StoreJoined(e, k, AfterJoin(k, goal));
      run := CancelJoinRun(old(View()), k, goal, c, waited, t, View());
    }

    /** if (worker.joinable()) { cancel; join; } */
    method StopIfRunning(e: FreezeEntry, ghost k: nat, ghost goal: Goal, alive: bool, outcome: Outcome)
      returns (ghost run: seq<Label>)
      requires Valid() && k < |order| && order[k] == e
      requires client == if e.View().Joinable() then Cancelling(k, goal) else AfterJoin(k, goal)
      modifies this`client, this`memory, e
      ensures Valid()
      ensures !e.View().Joinable() && client == AfterJoin(k, goal)
      ensures Run(old(View()), run) == Some(View()) && Within(run, {SetCancel, Join})
    {
      run := [];
      if e.pc != NotStarted && !e.joined {
        run := CancelAndJoin(e, k, goal, alive, outcome);
      }
    }

    /** The lookup at the start of unfreeze and restore. */
    method Lookup(e: FreezeEntry, ghost k: nat, ghost goal: Goal) returns (ghost run: seq<Label>)
      requires Valid() && e.request.id in entries && entries[e.request.id] == e && k == index[e.request.id] && client == Idle
      modifies this`client
      ensures Valid()
      ensures client == if e.View().Joinable() then Cancelling(k, goal) else AfterJoin(k, goal)
      ensures Run(old(View()), run) == Some(View()) && Within(run, {Begin(e.request.id, goal)})
    {
      ghost var i := Position(e.request.id);
      ghost var start := View();
      run := BeginRun(start, e.request.id, goal, k);
      client := if e.View().Joinable() then Cancelling(k, goal) else AfterJoin(k, goal);
      assert View() == start.(client := client);
    }

    /** The part unfreeze and restore share: find the entry, and stop and join its worker if there is one. */
    method StopWorker(e: FreezeEntry, ghost k: nat, ghost goal: Goal, alive: bool, outcome: Outcome)
      returns (ghost run: seq<Label>)
      requires Valid() && e.request.id in entries && entries[e.request.id] == e && k == index[e.request.id] && client == Idle
      modifies this`client, this`memory, e
      ensures Valid()
      ensures !e.View().Joinable() && client == AfterJoin(k, goal)
      ensures Run(old(View()), run) == Some(View()) && Within(run, StopOps(e.request.id, goal))
    {
      ghost var begun := Lookup(e, k, goal);
      ghost var m := View();
      ghost var rest := StopIfRunning(e, k, goal, alive, outcome);
      run := Join2(old(View()), begun, m, rest, View(), {Begin(e.request.id, goal)}, {SetCancel, Join});
      StopSteps(e.request.id, goal);
    }

    /** unfreeze: the worker is stopped and joined, and the entry is no longer active. */
    method Unfreeze(id: string, alive: bool, outcome: Outcome) returns (r: Result<()>, ghost run: seq<Label>)
      requires Valid() && client == Idle
      modifies this`client, this`memory, if id in entries then {entries[id]} else {}
      ensures Valid()
      ensures client == Idle
      ensures Run(old(View()), run) == Some(View())
      ensures r == UnfreezeResult(old(View()).entries, id) && (r.Success? <==> id in entries)
      ensures Within(run, UnfreezeOps(id))
      ensures r.Success? ==> !entries[id].active && !entries[id].View().Joinable()
    {
      run := [];
      if id !in entries {
        Unregistered(id);
        return Failure(SnapshotMissing), [];
      }
      ghost var start := View();
      ghost var k := Position(id);
      run := StopWorker(entries[id], k, ToUnfreeze, alive, outcome);
      run := CloseRun(start, run, View(), k, id);
      StoreInactive(entries[id], k, Idle);
      return Success(()), run;
    }

    /** restored.store(true), active.store(false). */
    method StoreRestored(e: FreezeEntry, ghost k: nat)
      requires Valid() && k < |order| && order[k] == e
      modifies e`restored, e`active
      ensures Valid()
      ensures var s := old(View());
              View() == s.(entries := s.entries[k := s.entries[k].(restored := true, active := false)])
    {
      e.restored := true;
      e.active := false;
      OneChanged(k);
    }

    /** The write of restore and the flag updates after a full one. */
    method PutBack(e: FreezeEntry, ghost k: nat, written: Outcome) returns (ghost run: seq<Label>)
      requires Valid() && k < |order| && order[k] == e && client == Rewriting(k) && Possible(written, |e.original|)
      modifies this`client, this`memory, e`restored, e`active
      ensures Valid()
      ensures client == Idle
      ensures Full(written, |e.original|) ==> e.restored && !e.active && Holds(memory, e)
      ensures Run(old(View()), run) == Some(View()) && Within(run, {RestoreWrite(written), MarkRestored, ClearFlag})
    {
      ghost var start := View();
      memory := Put(memory, e.request.address, e.original, written);
      client := Idle;
      assert View() == start.(mem := memory, client := Idle);
      run := PutBackRun(start, k, written);
      if written == Wrote(|e.original|) {
        StoreRestored(e, k);
        PutHolds(start.mem, e);
      }
    }

    method StopAndPutBack(e: FreezeEntry, ghost k: nat, alive: bool, outcome: Outcome, written: Outcome)
      returns (ghost run: seq<Label>)
      requires Valid() && e.request.id in entries && entries[e.request.id] == e && k == index[e.request.id] && client == Idle
      requires Possible(written, |e.original|)
      modifies this`client, this`memory, e
      ensures Valid()
      ensures client == Idle && !e.View().Joinable()
      ensures Full(written, |e.original|) ==> e.restored && !e.active && Holds(memory, e)
      ensures Run(old(View()), run) == Some(View()) && Within(run, RestoreOps(e.request.id, written))
    {
      ghost var stopped := StopWorker(e, k, ToRestore, alive, outcome);
      ghost var m := View();
      ghost var rest := PutBack(e, k, written);
      run := Join2(old(View()), stopped, m, rest, View(), StopOps(e.request.id, ToRestore),
                   {RestoreWrite(written), MarkRestored, ClearFlag});
    }

    /**
      restore: the worker is stopped and joined first. Only a full write marks the entry restored and
      inactive; after a failed or short one the call can be repeated.
    */
    method Restore(id: string, alive: bool, outcome: Outcome, written: Outcome) returns (r: Result<()>, ghost run: seq<Label>)
      requires Valid() && client == Idle
      modifies this`client, this`memory, if id in entries then {entries[id]} else {}
      ensures Valid()
      ensures client == Idle
      ensures Run(old(View()), run) == Some(View())
      ensures Within(run, RestoreOps(id, AnsweredTo(old(View()).entries, id, written)))
      ensures r == RestoreResult(old(View()).entries, id, written)
      ensures id in entries ==> !entries[id].View().Joinable()
      ensures r.Success? ==> entries[id].restored && !entries[id].active && Holds(memory, entries[id])
    {
      run := [];
      if id !in entries {
        Unregistered(id);
        return Failure(SnapshotMissing), [];
      }
      ghost var k := Position(id);
      var e := entries[id];
      var answer := Clip(written, |e.original|);
      run := StopAndPutBack(e, index[id], alive, outcome, answer);
      if answer == Failed {
        return Failure(WriteFailed), run;
      }
      if answer.count != |e.original| {
        return Failure(PartialWrite), run;
      }
      return Success(()), run;
    }

    /** entries_.emplace with the new entry, which the client is about to give its thread. */
    method Publish(request: FreezeRequest, original: seq<Byte>) returns (e: FreezeEntry)
      requires Valid() && request.id !in entries
      modifies this`entries, this`order, this`index
      ensures Valid() && fresh(e) && order == old(order) + [e]
      ensures Views(order) == old(Views(order)) + [Entry(request, original, false, true, false, 0, 0, NotStarted, false)]
    {
      e := new FreezeEntry(request, original);
      entries := entries[request.id := e];
      index := index[request.id := |order|];
      order := order + [e];
      Appended(e);
    }

    /** The worker thread of the newest entry is started. */
    method Start(e: FreezeEntry)
      requires Valid() && order != [] && order[|order| - 1] == e
      modifies e`pc
      ensures Valid()
      ensures var s := old(View()); View() == s.(entries := s.entries[|order| - 1 := s.entries[|order| - 1].(pc := LoopCancel)])
    {
      e.pc := LoopCancel;
      OneChanged(|order| - 1);
    }

    /** The new entry is registered and its worker started; other workers may run in between, which is not shown here. */
    method Register(entry: Entry)
      requires Valid() && entry.request.id !in entries
      requires entry == Entry(entry.request, entry.original, false, true, false, 0, 0, NotStarted, false)
      modifies this`entries, this`order, this`index
      ensures Valid()
      ensures View() == old(View()).(entries := old(View()).entries + [entry.(pc := LoopCancel)])
    {
      ghost var before := View().entries;
      var e := Publish(entry.request, entry.original);
      Start(e);
      assert View().entries == before + [entry.(pc := LoopCancel)];
    }

    /** The checks of freeze and the read that takes the snapshot. */
    method Admit(request: FreezeRequest) returns (r: Result<Entry>)
      requires Valid()
      ensures r == Snapshot(View(), request)
      ensures r.Success? ==> r.value.request.id !in entries
    {
      var normal := Normalize(request);
      if normal.Failure? {
        return Failure(normal.error);
      }
      if normal.value.id in entries {
        ghost var k := Position(normal.value.id);
        return Failure(InvalidEntryId);
      }
      Unregistered(normal.value.id);
      var original := Load(memory, normal.value.address, normal.value.size);
      if original.Failure? {
        return Failure(original.error);
      }
      return Success(Entry(normal.value, original.value, false, true, false, 0, 0, NotStarted, false));
    }

    /** freeze: refused without any change, or a snapshot of current memory is registered and its worker started. */
    method Freeze(request: FreezeRequest) returns (r: Result<()>, ghost run: seq<Label>)
      requires Valid() && client == Idle
      modifies this
      ensures Valid() && client == Idle
      ensures Run(old(View()), run) == Some(View()) && Within(run, FreezeOps(request))
      ensures match Snapshot(old(View()), request)
              case Failure(error) => r == Failure(error) && View() == old(View())
              case Success(e) => r == Success(()) && View() == old(View()).(entries := old(View()).entries + [e.(pc := LoopCancel)])
    {
      ghost var start := View();
      run := [];
      var admitted := Admit(request);
      if admitted.Failure? {
        return Failure(admitted.error), [];
      }
      run := FreezeRun(start, request);
      Register(admitted.value);
      return Success(()), run;
    }

    // -------------------------------------------------------------- cancel_all

    /** The first loop: both flags of every entry, in any order. */
    method StoreFlags()
      modifies entries.Values`cancel, entries.Values`active
      ensures forall e | e in entries.Values :: e.View() == old(e.View()).(cancel := true, active := false)
    {
      var todo := entries.Values;
      while todo != {}
        invariant todo <= entries.Values
        invariant forall e | e in entries.Values && e !in todo :: e.cancel && !e.active
      {
        var e :| e in todo;
        e.cancel := true;
        e.active := false;
        todo := todo - {e};
      }
    }

    method FlagEntries()
      requires Valid()
      modifies entries.Values`cancel, entries.Values`active
      ensures Valid()
      ensures Views(order) == AllFlagged(old(Views(order)))
    {
      StoreFlags();
      forall k | 0 <= k < |order| ensures Views(order)[k] == AllFlagged(old(Views(order)))[k] {
        assert order[k] == entries[order[k].request.id];
      }
    }

    method FlagAll(ghost next: Client)
      requires Valid()
      modifies this`client, entries.Values`cancel, entries.Values`active
      ensures Valid()
      ensures View() == State(old(memory), AllFlagged(old(View()).entries), next)
    {
      FlagEntries();
      client := next;
    }

    /** Where an entry that is left stands in the order of freezing, and nowhere else. */
    ghost method PositionOf(e: FreezeEntry, todo: set<FreezeEntry>, positions: set<nat>) returns (k: nat)
      requires Valid() && e in todo && Pending(order, todo, positions)
      ensures k < |order| && order[k] == e && k in positions
      ensures Pending(order, todo - {e}, positions - {k}) && (todo == {e} <==> positions - {k} == {})
    {
      k := index[e.request.id];
      PendingNext(order, todo, positions, e, k);
    }

    method AwaitUnlessJoined(e: FreezeEntry, ghost k: nat, alive: bool, outcome: Outcome) returns (ghost waited: seq<Label>)
      requires Valid() && k < |order| && order[k] == e
      requires e.cancel && e.pc != NotStarted && (e.joined ==> e.pc == Exited)
      modifies this`memory, e
      ensures Valid()
      ensures e.pc == Exited
      ensures Run(old(View()), waited) == Some(View())
    {
      waited := [];
      if !e.joined {
        waited := AwaitExit(e, k, alive, outcome);
      }
    }

    /** The second loop's body: one join, when there is something to join. */
    method JoinEntry(e: FreezeEntry, ghost k: nat, ghost positions: set<nat>, alive: bool, outcome: Outcome) returns (ghost run: seq<Label>)
      requires Valid() && k < |order| && order[k] == e && k in positions && client == JoiningAll(positions)
      requires Structure(View())
      modifies this`client, this`memory, e
      ensures Valid()
      ensures client == AfterOneJoin(positions - {k})
      ensures Run(old(View()), run) == Some(View()) && AllDone(View(), positions - {k})
    {
      ghost var s := View();
      JoiningIsFlagged(s, k);
      ghost var waited := AwaitUnlessJoined(e, k, alive, outcome);
      ghost var m := View();
      StoreJoined(e, k, AfterOneJoin(positions - {k}));
      run := JoinRun(s, k, positions, waited, m, View());
    }

    method JoinWithin(e: FreezeEntry, ghost k: nat, ghost positions: set<nat>, alive: bool, outcome: Outcome, ghost reach: State -> bool)
      requires Valid() && k < |order| && order[k] == e && k in positions && client == JoiningAll(positions)
      requires Closed(reach) && reach(View())
      modifies this`client, this`memory, e
      ensures client == AfterOneJoin(positions - {k}) && order == old(order)
      ensures Valid() && reach(View()) && AllDone(View(), positions - {k})
    {
      ghost var run := JoinEntry(e, k, positions, alive, outcome);
    }

    /** One turn of the second loop: some entry that is left. */
    method JoinSome(todo: set<FreezeEntry>, ghost positions: set<nat>, alive: bool, outcome: Outcome, ghost reach: State -> bool)
      returns (left: set<FreezeEntry>, ghost others: set<nat>)
      requires Valid() && todo != {} && Pending(order, todo, positions) && client == JoiningAll(positions)
      requires Closed(reach) && reach(View())
      modifies this`client, this`memory, todo
      ensures left < todo && Pending(order, left, others) && (left == {} <==> others == {})
      ensures client == AfterOneJoin(others)
      ensures Valid() && reach(View()) && AllDone(View(), others)
    {
      var e :| e in todo;
      ghost var k := PositionOf(e, todo, positions);
      JoinWithin(e, k, positions, alive, outcome, reach);
      left, others := todo - {e}, positions - {k};
    }

    /** The second loop, over the entries that are left, in any order. */
    method JoinAll(todo: set<FreezeEntry>, ghost positions: set<nat>, alive: bool, outcome: Outcome, ghost reach: State -> bool)
      requires Valid() && todo != {} && Pending(order, todo, positions) && client == JoiningAll(positions)
      requires Closed(reach) && reach(View())
      modifies this`client, this`memory, todo
      ensures Valid()
      ensures client == Idle && reach(View()) && AllDone(View(), {})
      decreases todo
    {
      ghost var others;
      var left;
      left, others := JoinSome(todo, positions, alive, outcome, reach);
      if left != {} {
        JoinAll(left, others, alive, outcome, reach);
      }
    }

    /** The first loop as steps of the protocol. */
    method BeginAndFlag() returns (ghost run: seq<Label>)
      requires Valid() && client == Idle && order != []
      modifies this`client, entries.Values`cancel, entries.Values`active
      ensures Valid()
      ensures client == JoiningAll(Everyone(|order|))
      ensures Run(old(View()), run) == Some(View())
    {
      run := FlagAllRun(View());
      FlagAll(JoiningAll(Everyone(|order|)));
    }

    method StopEveryone(alive: bool, outcome: Outcome, ghost reach: State -> bool)
      requires Valid() && client == Idle && Closed(reach) && reach(View())
      modifies this`client, this`memory, entries.Values
      ensures Valid()
      ensures client == Idle && reach(View()) && AllDone(View(), {})
    {
      var snapshot := entries.Values;
      AllPending();
      if snapshot != {} {
        ghost var run := BeginAndFlag();
        JoinAll(snapshot, Everyone(|order|), alive, outcome, reach);
      }
    }

    lemma AllPending()
      requires Valid()
      ensures Pending(order, entries.Values, Everyone(|order|))
      ensures entries.Values == {} <==> order == []
    {
      assert order != [] ==> entries[order[0].request.id] in entries.Values;
    }

    /** cancel_all: when it returns, every worker has been joined and no entry is active. */
    method CancelAll(alive: bool, outcome: Outcome) returns (ghost run: seq<Label>)
      requires Valid() && client == Idle && Structure(View())
      modifies this`client, this`memory, entries.Values
      ensures Valid()
      ensures client == Idle
      ensures Run(old(View()), run) == Some(View())
      ensures AllDone(View(), {})
    {
      ghost var start := View();
      ReachIsClosed(start);
      StopEveryone(alive, outcome, ReachFrom(start));
      run := RunTo(start, View());
    }

    /** status */
    method Status(id: string) returns (r: Result<FreezeStatus>)
      requires Valid()
      ensures r == StatusResult(View().entries, id)
    {
      if id !in entries {
        Unregistered(id);
        return Failure(SnapshotMissing);
      }
      ghost var k := Position(id);
      return Success(StatusOf(entries[id].View()));
    }

    /** all_status: every entry once, in whatever order the map is visited. */
    method AllStatus() returns (list: seq<FreezeStatus>, ghost at: seq<nat>)
      requires Valid()
      ensures Visited(View().entries, {}, at) && list == Listed(View().entries, at)
    {
      var ids := entries.Keys;
      list, at := [], [];
      while ids != {}
        invariant ids <= entries.Keys
        invariant Visited(View().entries, ids, at) && list == Listed(View().entries, at)
      {
        var id :| id in ids;
        ghost var k := Position(id);
        VisitNext(View().entries, ids, at, k);
        list, at := list + [StatusOf(entries[id].View())], at + [k];
        ids := ids - {id};
      }
    }

    /** active_count */
    method CountActive() returns (count: nat)
      requires Valid()
      ensures count == ActiveCount(View().entries)
    {
      var ids := entries.Keys;
      count := 0;
      ghost var active: set<nat> := {};
      while ids != {}
        invariant ids <= entries.Keys
        invariant forall k: nat :: k in active <==> k < |order| && order[k].request.id !in ids && order[k].active
        invariant count == |active|
        decreases ids
      {
        var id :| id in ids;
        ghost var k := Position(id);
        if entries[id].active {
          count := count + 1;
          active := active + {k};
        }
        ids := ids - {id};
      }
      ActiveCountIsCardinality(View().entries, active);
    }
  }
}
