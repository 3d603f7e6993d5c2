/** The runs of the protocol that make up the client's calls, and the runs of cancel_all in any order of its loops. */
module FreezeRuns {
  import opened Common
  import opened ByteMemory
  import opened FreezeProtocol
  import opened FreezeRollback
  import opened FreezeCancel

  lemma FindFinds(entries: seq<Entry>, k: nat)
    requires k < |entries| && forall i, j | 0 <= i < j < |entries| :: entries[i].request.id != entries[j].request.id
    ensures Find(entries, entries[k].request.id) == k
  {
    var i := Find(entries, entries[k].request.id);
    assert forall j | 0 <= j < k :: entries[j].request.id != entries[k].request.id;
  }

  lemma CancelledNext(e: Entry, alive: bool, outcome: Outcome)
    requires e.cancel && e.pc != NotStarted && e.pc != Exited
    ensures WorkerStep(e, NextAction(e, alive, outcome)).Some?
    ensures var f := WorkerStep(e, NextAction(e, alive, outcome)).value;
            f.cancel && f.pc != NotStarted && f.joined == e.joined && (f.active ==> e.active) && StepsLeft(f.pc) < StepsLeft(e.pc)
  {
  }

  lemma NextOfWorker(s: State, k: nat, act: Action)
    requires k < |s.entries| && WorkerStep(s.entries[k], act).Some?
    ensures var e, f := s.entries[k], WorkerStep(s.entries[k], act).value;
            && f.request == e.request
            && (act.Rewrite? ==> Possible(act.outcome, e.request.size))
            && Next(s, Worker(k, act)) == Some(State(
                 if act.Rewrite? then Put(s.mem, e.request.address, ToBytes(e.request.value, e.request.size), act.outcome) else s.mem,
                 s.entries[k := f], s.client))
  {
  }

  lemma RunExtends(start: State, run: seq<Label>, s: State, step: Label)
    requires Run(start, run) == Some(s)
    ensures Run(start, run + [step]) == Next(s, step)
  {
    RunConcat(start, run, [step]);
    assert [step][1..] == [];
  }

  lemma Join2(s: State, xs: seq<Label>, m: State, ys: seq<Label>, t: State, ops: set<Op>, more: set<Op>)
    returns (run: seq<Label>)
    requires Run(s, xs) == Some(m) && Run(m, ys) == Some(t)
    requires Within(xs, ops) && Within(ys, more)
    ensures Run(s, run) == Some(t) && Within(run, ops + more)
  {
    RunConcat(s, xs, ys);
    run := xs + ys;
  }

  lemma CancelJoinRun(s: State, k: nat, goal: Goal, c: State, waited: seq<Label>, t: State, u: State) returns (run: seq<Label>)
    requires k < |s.entries| && s.client == Cancelling(k, goal)
    requires c == s.(entries := s.entries[k := s.entries[k].(cancel := true)], client := Joining(k, goal))
    requires Run(c, waited) == Some(t) && forall step | step in waited :: IsStepOf(step, k)
    requires t.client == Joining(k, goal) && k < |t.entries| && t.entries[k].pc == Exited
    requires u == t.(entries := t.entries[k := t.entries[k].(joined := true)], client := AfterJoin(k, goal))
    ensures Run(s, run) == Some(u) && Within(run, {SetCancel, Join})
  {
    RunExtends(s, [], s, Caller(SetCancel));
    RunConcat(s, [] + [Caller(SetCancel)], waited);
    RunExtends(s, [] + [Caller(SetCancel)] + waited, t, Caller(Join));
    run := [] + [Caller(SetCancel)] + waited + [Caller(Join)];
  }

  lemma BeginRun(s: State, id: string, goal: Goal, k: nat) returns (run: seq<Label>)
    requires s.client == Idle && k < |s.entries| && Find(s.entries, id) == k
    ensures Run(s, run) == Some(s.(client := if s.entries[k].Joinable() then Cancelling(k, goal) else AfterJoin(k, goal)))
    ensures Within(run, {Begin(id, goal)})
  {
    RunExtends(s, [], s, Caller(Begin(id, goal)));
    run := [] + [Caller(Begin(id, goal))];
  }

  lemma CloseRun(s: State, stopped: seq<Label>, t: State, k: nat, id: string) returns (run: seq<Label>)
    requires Run(s, stopped) == Some(t) && t.client == Closing(k) && k < |t.entries|
    requires Within(stopped, StopOps(id, ToUnfreeze))
    ensures Within(run, UnfreezeOps(id))
    ensures Run(s, run) == Some(t.(entries := t.entries[k := t.entries[k].(active := false)], client := Idle))
  {
    RunExtends(s, stopped, t, Caller(Close));
    run := stopped + [Caller(Close)];
  }

  lemma PutBackRun(s: State, k: nat, written: Outcome) returns (run: seq<Label>)
    requires s.client == Rewriting(k) && k < |s.entries| && Possible(written, |s.entries[k].original|)
    ensures var e := s.entries[k];
            Run(s, run) == Some(State(
              Put(s.mem, e.request.address, e.original, written),
              if Full(written, |e.original|) then s.entries[k := e.(restored := true, active := false)] else s.entries,
              Idle))
    ensures Within(run, {RestoreWrite(written), MarkRestored, ClearFlag})
  {
    var e := s.entries[k];
    RunExtends(s, [], s, Caller(RestoreWrite(written)));
    run := [] + [Caller(RestoreWrite(written))];
    if Full(written, |e.original|) {
      var m := s.(mem := Put(s.mem, e.request.address, e.original, written), client := Marking(k));
      RunExtends(s, run, m, Caller(MarkRestored));
      run := run + [Caller(MarkRestored)];
      RunExtends(s, run, m.(entries := m.entries[k := e.(restored := true)], client := Clearing(k)), Caller(ClearFlag));
      run := run + [Caller(ClearFlag)];
      assert s.entries[k := e.(restored := true)][k := e.(restored := true, active := false)]
          == s.entries[k := e.(restored := true, active := false)];
    }
  }

  lemma FreezeRun(s: State, request: FreezeRequest) returns (run: seq<Label>)
    requires s.client == Idle && Snapshot(s, request).Success?
    ensures Run(s, run) == Some(s.(entries := s.entries + [Snapshot(s, request).value.(pc := LoopCancel)]))
    ensures Within(run, FreezeOps(request))
  {
    var e := Snapshot(s, request).value;
    var m := s.(entries := s.entries + [e], client := Spawning(|s.entries|));
    RunExtends(s, [], s, Caller(FreezeProtocol.Freeze(request)));
    RunExtends(s, [] + [Caller(FreezeProtocol.Freeze(request))], m, Caller(Spawn));
    run := [] + [Caller(FreezeProtocol.Freeze(request))] + [Caller(Spawn)];
    assert m.entries[|s.entries| := e.(pc := LoopCancel)] == s.entries + [e.(pc := LoopCancel)];
  }

  lemma StopSteps(id: string, goal: Goal)
    ensures {Begin(id, goal)} + {SetCancel, Join} == StopOps(id, goal)
  {
  }

  /** Where cancel_all goes once the flags of one more entry are stored. */
  function AfterFlags(todo: set<nat>, n: nat): Client {
    if todo == {} then JoiningAll(Everyone(n)) else StoppingAll(todo)
  }

  function AfterOneJoin(todo: set<nat>): Client {
    if todo == {} then Idle else JoiningAll(todo)
  }

  lemma FlagRun(s: State, k: nat, todo: set<nat>, m: State, t: State)
    requires k < |s.entries| && k in todo && s.client == StoppingAll(todo)
    requires m == s.(entries := s.entries[k := s.entries[k].(cancel := true)], client := StoppingOne(k, todo - {k}))
    requires t == m.(entries := m.entries[k := m.entries[k].(active := false)], client := AfterFlags(todo - {k}, |m.entries|))
    ensures Run(s, [Caller(StopOne(k)), Caller(ClearOne)]) == Some(t)
  {
    assert Next(s, Caller(StopOne(k))) == Some(m);
    assert Next(m, Caller(ClearOne)) == Some(t);
    var rest := [Caller(ClearOne)];
    assert [Caller(StopOne(k)), Caller(ClearOne)][1..] == rest && rest[1..] == [];
    assert Run(m, rest) == Some(t);
  }

  lemma VisitNext(entries: seq<Entry>, ids: set<string>, at: seq<nat>, k: nat)
    requires Visited(entries, ids, at) && k < |entries| && entries[k].request.id in ids
    requires forall j | 0 <= j < |entries| && j != k :: entries[j].request.id != entries[k].request.id
    ensures Visited(entries, ids - {entries[k].request.id}, at + [k])
    ensures Listed(entries, at + [k]) == Listed(entries, at) + [StatusOf(entries[k])]
  {
  }

  /** Entries outside todo have been stopped for good. */
  ghost predicate AllDone(s: State, todo: set<nat>) {
    forall i | 0 <= i < |s.entries| && i !in todo :: s.entries[i].joined && !s.entries[i].active && s.entries[i].pc == Exited
  }

  lemma AllDoneMeansNoneActive(s: State)
    requires AllDone(s, {})
    ensures ActiveCount(s.entries) == 0
  {
    NoneActive(s.entries);
  }

  lemma JoinRun(s: State, k: nat, todo: set<nat>, waited: seq<Label>, m: State, t: State) returns (run: seq<Label>)
    requires Structure(s) && s.client == JoiningAll(todo) && k in todo && Run(s, waited) == Some(m)
    requires m.client == s.client && k < |m.entries| && m.entries[k].pc == Exited
    requires t == m.(entries := m.entries[k := m.entries[k].(joined := true)], client := AfterOneJoin(todo - {k}))
    ensures Run(s, run) == Some(t) && AllDone(t, todo - {k})
  {
    run := waited + [Caller(JoinOne(k))];
    assert todo - {k} == {} <==> todo == {k};
    assert Next(m, Caller(JoinOne(k))) == Some(t);
    RunExtends(s, waited, m, Caller(JoinOne(k)));
    RunKeepsStructure(s, waited);
    forall i | 0 <= i < |t.entries| && i !in todo - {k}
      ensures t.entries[i].joined && !t.entries[i].active && t.entries[i].pc == Exited
    {
      assert EntryOk(m, i);
    }
  }

  /** While cancel_all joins, every worker it waits for has been started and cancelled. */
  lemma JoiningIsFlagged(s: State, k: nat)
    requires Structure(s) && s.client.JoiningAll? && k < |s.entries|
    ensures s.entries[k].cancel && s.entries[k].pc != NotStarted
    ensures s.entries[k].joined ==> s.entries[k].pc == Exited
  {
    assert EntryOk(s, k);
  }

  /** The states of the set are consistent, and whatever a run leads to from one of them is in the set. */
  ghost predicate Closed(reach: State -> bool) {
    forall s | reach(s) :: Structure(s) && forall run, t | Run(s, run) == Some(t) :: reach(t)
  }

  /** The states that runs from the start lead to. */
  ghost function ReachFrom(start: State): State -> bool {
    t => exists run :: Run(start, run) == Some(t)
  }

  lemma ReachIsClosed(start: State)
    requires Structure(start)
    ensures Closed(ReachFrom(start)) && ReachFrom(start)(start)
  {
    var reach := ReachFrom(start);
    forall s | reach(s) ensures Structure(s) && forall run, t | Run(s, run) == Some(t) :: reach(t) {
      var before :| Run(start, before) == Some(s);
      RunKeepsStructure(start, before);
      forall run, t | Run(s, run) == Some(t) ensures reach(t) {
        RunConcat(start, before, run);
        assert Run(start, before + run) == Some(t);
      }
    }
    assert Run(start, []) == Some(start);
  }

  lemma RunTo(start: State, t: State) returns (run: seq<Label>)
    requires ReachFrom(start)(t)
    ensures Run(start, run) == Some(t)
  {
    run :| Run(start, run) == Some(t);
  }

  /** The entries after the first loop of cancel_all has stored both flags at these positions. */
  function Flagged(entries: seq<Entry>, at: set<nat>): (r: seq<Entry>)
    ensures |r| == |entries|
  {
    seq(|entries|, i requires 0 <= i < |entries| =>
      if i in at then entries[i].(cancel := true, active := false) else entries[i])
  }

  /** The entries once it has stored the flags of all of them. */
  function AllFlagged(entries: seq<Entry>): (r: seq<Entry>)
    ensures |r| == |entries|
  {
    seq(|entries|, i requires 0 <= i < |entries| => entries[i].(cancel := true, active := false))
  }

  /** The first loop, one entry at a time, in any order. */
  lemma {:induction false} FlagRest(s: State, todo: set<nat>) returns (run: seq<Label>)
    requires s.client == StoppingAll(todo) && todo != {} && forall i | i in todo :: i < |s.entries|
    ensures Run(s, run) == Some(State(s.mem, Flagged(s.entries, todo), JoiningAll(Everyone(|s.entries|))))
    decreases todo
  {
    var k :| k in todo;
    var left := todo - {k};
    var m := s.(entries := s.entries[k := s.entries[k].(cancel := true)], client := StoppingOne(k, left));
    var t := m.(entries := m.entries[k := m.entries[k].(active := false)], client := AfterFlags(left, |m.entries|));
    FlagRun(s, k, todo, m, t);
    run := [Caller(StopOne(k)), Caller(ClearOne)];
    FlaggedNext(s.entries, k, todo);
    if left != {} {
      var rest := FlagRest(t, left);
      RunConcat(s, run, rest);
      run := run + rest;
    }
  }

  lemma FlaggedNext(entries: seq<Entry>, k: nat, todo: set<nat>)
    requires k in todo && k < |entries|
    ensures var e := entries[k];
            var one := entries[k := e.(cancel := true)][k := e.(cancel := true, active := false)];
            && Flagged(entries, todo) == Flagged(one, todo - {k})
            && (todo - {k} == {} ==> Flagged(entries, todo) == one)
  {
    var one := entries[k := entries[k].(cancel := true)][k := entries[k].(cancel := true, active := false)];
    forall i | 0 <= i < |entries| ensures Flagged(entries, todo)[i] == Flagged(one, todo - {k})[i] {
    }
    if todo - {k} == {} {
      forall i | 0 <= i < |entries| ensures Flagged(entries, todo)[i] == one[i] {
        assert i in todo && i != k ==> i in todo - {k};
      }
    }
  }

  /** cancel_all up to the end of its first loop. */
  lemma FlagAllRun(s: State) returns (run: seq<Label>)
    requires s.client == Idle && s.entries != []
    ensures Run(s, run)
         == Some(State(s.mem, AllFlagged(s.entries), JoiningAll(Everyone(|s.entries|))))
  {
    assert Flagged(s.entries, Everyone(|s.entries|)) == AllFlagged(s.entries);
    var t := s.(client := StoppingAll(Everyone(|s.entries|)));
    assert 0 in Everyone(|s.entries|);
    assert Next(s, Caller(BeginCancelAll)) == Some(t);
    assert [Caller(BeginCancelAll)][1..] == [] && Run(t, []) == Some(t);
    var rest := FlagRest(t, Everyone(|s.entries|));
    RunConcat(s, [Caller(BeginCancelAll)], rest);
    run := [Caller(BeginCancelAll)] + rest;
  }
}
