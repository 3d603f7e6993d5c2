/**
  Request texts as runs of the agent's state machine, and what an engaged kill switch means for them. A freeze or
  a restore asks no policy, so the switch does not stop it.
*/
module AgentTexts {
  import opened Common
  import opened ByteMemory
  import opened JsonCodec
  import opened JsonRoundTrip
  import opened AgentApprovals
  import opened AgentMessages
  import opened AgentMemory
  import opened FreezeRollback
  import opened FreezeWrites
  import FreezeProtocol
  import FreezeRuns

  /** A request text and what it learns from outside. */
  datatype Call = Call(text: string, outside: Outside)

  ghost function Serve(c: Setting, s: Agent, calls: seq<Call>, fl: Floats): Agent {
    if calls == [] then s
    else
      var last := |calls| - 1;
      Effect(c, Serve(c, s, calls[..last], fl), calls[last].text, fl, calls[last].outside)
  }

  // ---------------------------------------------------------------- texts are runs

  lemma {:induction false} MovesAreRun(c: Setting, s: Agent, moves: seq<FreezeProtocol.Label>, ops: set<FreezeProtocol.Op>)
    returns (steps: seq<Step>)
    ensures Run(c, s, steps) == s.(freezer := Moved(s.freezer, moves, ops)) && OnlyOps(steps, ops)
  {
    steps := [];
    if moves != [] {
      var last := moves[|moves| - 1];
      steps := MovesAreRun(c, s, moves[..|moves| - 1], ops);
      if last.Worker? || last.op in ops {
        RunAppend(c, s, steps, [Freezer(last)]);
        OneStep(c, Run(c, s, steps), Freezer(last));
        steps := steps + [Freezer(last)];
      }
    }
  }

  predicate AsksFor(text: string, fl: Floats, m: Method) {
    Decode(text, fl).Success? && Asks(text, fl, m, Params(Decode(text, fl).value))
  }

  /** The step is one the text asks for, or one the workers take meanwhile. */
  predicate Belongs(step: Step, text: string, fl: Floats) {
    match step
    case Preview(params, _, _) => Asks(text, fl, PreviewMethod, params)
    case Apply(params, _, _) => Asks(text, fl, ApplyMethod, params)
    case Switch(params) => Asks(text, fl, KillSwitchMethod, params)
    case Freezer(move) =>
      move.Caller? ==>
        && (AsksFor(text, fl, Method.Freeze) || AsksFor(text, fl, Method.Unfreeze) || AsksFor(text, fl, Method.Restore))
        && (move.op.Freeze? ==> AsksFor(text, fl, Method.Freeze))
        && (move.op.Begin? && move.op.goal == FreezeProtocol.ToRestore ==> AsksFor(text, fl, Method.Restore))
  }

  predicate AllBelong(steps: seq<Step>, text: string, fl: Floats) {
    forall step | step in steps :: Belongs(step, text, fl)
  }

  /** The handler's own step, if it has one. */
  function OwnSteps(m: Method, params: Json, o: Outside): seq<Step> {
    match m
    case PreviewMethod => [Step.Preview(params, o.at, o.issued)]
    case ApplyMethod => [Apply(params, o.at, o.written)]
    case KillSwitchMethod => [Switch(params)]
    case _ => []
  }

  lemma OwnStepIsRun(c: Setting, s: Agent, m: Method, params: Json, o: Outside)
    ensures Run(c, s, OwnSteps(m, params, o)) == OwnStep(c, s, m, params, o)
  {
    if OwnSteps(m, params, o) != [] {
      OneStep(c, s, OwnSteps(m, params, o)[0]);
    }
  }

  lemma MovesBelong(steps: seq<Step>, text: string, fl: Floats, s: FreezeProtocol.State, m: Method, params: Json,
                    truncate: Truncation, written: FreezeProtocol.Outcome)
    requires Asks(text, fl, m, params) && OnlyOps(steps, OpsOf(s, m, params, truncate, written))
    ensures AllBelong(steps, text, fl)
  {
    forall step | step in steps ensures Belongs(step, text, fl) {
    }
  }

  /** One request is a run: what the manager and the workers do, and then at most one step of its own. */
  lemma CallIsRun(c: Setting, s: Agent, call: Call, fl: Floats) returns (steps: seq<Step>)
    ensures Run(c, s, steps) == Effect(c, s, call.text, fl, call.outside) && AllBelong(steps, call.text, fl)
  {
    var o, parsed := call.outside, Decode(call.text, fl);
    if parsed.Success? && parsed.value.Obj? && RequestedMethod(parsed.value).Some? {
      var m, params := RequestedMethod(parsed.value).value, Params(parsed.value);
      steps := RequestIsRun(c, s, call.text, fl, m, params, o);
    } else {
      steps := MovesAreRun(c, s, o.moves, {});
    }
  }

  lemma RequestIsRun(c: Setting, s: Agent, text: string, fl: Floats, m: Method, params: Json, o: Outside) returns (steps: seq<Step>)
    requires Asks(text, fl, m, params)
    ensures Run(c, s, steps) == StateAfter(c, s, m, params, o) && AllBelong(steps, text, fl)
  {
    var moved := MovesAreRun(c, s, o.moves, OpsOf(s.freezer, m, params, c.truncate, o.written));
    MovesBelong(moved, text, fl, s.freezer, m, params, c.truncate, o.written);
    OwnStepIsRun(c, Run(c, s, moved), m, params, o);
    RunAppend(c, s, moved, OwnSteps(m, params, o));
    steps := moved + OwnSteps(m, params, o);
  }

  /** Each step of the run belongs to one of the calls. */
  predicate FromCalls(steps: seq<Step>, calls: seq<Call>, fl: Floats) {
    forall step | step in steps :: exists k :: 0 <= k < |calls| && Belongs(step, calls[k].text, fl)
  }

  /**
    Any sequence of request texts is a run of the agent's state machine, whose steps are what the texts ask for
    and what the workers do meanwhile.
  */
  lemma {:induction false} CallsAreRun(c: Setting, s: Agent, calls: seq<Call>, fl: Floats) returns (steps: seq<Step>)
    ensures Serve(c, s, calls, fl) == Run(c, s, steps) && FromCalls(steps, calls, fl)
  {
    steps := [];
    if calls != [] {
      var last := |calls| - 1;
      var before := CallsAreRun(c, s, calls[..last], fl);
      var own := CallIsRun(c, Run(c, s, before), calls[last], fl);
      RunAppend(c, s, before, own);
      steps := before + own;
      forall step | step in steps ensures exists k :: 0 <= k < |calls| && Belongs(step, calls[k].text, fl) {
        if step in before {
          var k :| 0 <= k < last && Belongs(step, calls[..last][k].text, fl);
          assert Belongs(step, calls[k].text, fl);
        } else {
          assert Belongs(step, calls[last].text, fl);
        }
      }
    }
  }

  // ---------------------------------------------------------------- texts under an engaged kill switch

  /** The text asks for no freeze and no restore, and does not release the kill switch. */
  predicate Harmless(text: string, fl: Floats) {
    && !AsksFor(text, fl, Method.Freeze) && !AsksFor(text, fl, Method.Restore)
    && (AsksFor(text, fl, KillSwitchMethod) ==> GetBool(Params(Decode(text, fl).value), "engage", true))
  }

  predicate AllHarmless(calls: seq<Call>, fl: Floats) {
    forall k | 0 <= k < |calls| :: Harmless(calls[k].text, fl)
  }

  lemma HarmlessCallsAreQuiet(steps: seq<Step>, calls: seq<Call>, fl: Floats)
    requires FromCalls(steps, calls, fl) && AllHarmless(calls, fl)
    ensures NeverReleases(steps) && AllQuiet(steps)
  {
    forall step | step in steps
      ensures step.Switch? ==> GetBool(step.params, "engage", true)
      ensures step.Freezer? ==> Quiet(step.move)
    {
      var k :| 0 <= k < |calls| && Belongs(step, calls[k].text, fl);
      assert Harmless(calls[k].text, fl);
    }
  }

  /**
    With the kill switch engaged and neither a freeze nor a restore under way, all the sequences of request texts
    that ask for none and never release it leave memory alone if and only if no worker can still write anything new.
  */
  lemma KilledTextsKeepMemoryIff(c: Setting, s: Agent, fl: Floats, o: Outside)
    requires s.gate.killed && Structure(s.freezer) && NoWriteUnderWay(s.freezer.client)
    ensures (forall calls | AllHarmless(calls, fl) :: Serve(c, s, calls, fl).Memory() == s.Memory()) <==> Settled(s.freezer)
  {
    if Settled(s.freezer) {
      forall calls | AllHarmless(calls, fl) ensures Serve(c, s, calls, fl).Memory() == s.Memory() {
        var steps := CallsAreRun(c, s, calls, fl);
        HarmlessCallsAreQuiet(steps, calls, fl);
        KilledRunStaysSettled(c, s, steps);
      }
    } else {
      var f := s.freezer;
      var i :| 0 <= i < |f.entries| && CanStillWrite(f.entries[i]) && !Shows(f.mem, f.entries[i]);
      var calls := UnsettledCall(c, s, fl, o, i);
    }
  }

  /** The worker writes while a text that is no request is refused. */
  lemma UnsettledCall(c: Setting, s: Agent, fl: Floats, o: Outside, i: nat) returns (calls: seq<Call>)
    requires Structure(s.freezer) && i < |s.freezer.entries|
    requires CanStillWrite(s.freezer.entries[i]) && !Shows(s.freezer.mem, s.freezer.entries[i])
    ensures AllHarmless(calls, fl) && Serve(c, s, calls, fl).Memory() != s.Memory()
  {
    assert EntryOk(s.freezer, i);
    var moves, t := CanChangeMemory(s.freezer, i);
    RunIsMoved(s.freezer, moves, {});
    EmptyTextIsNoRequest(fl);
    calls := [Call("", o.(moves := moves))];
    OneCall(c, s, calls[0], fl);
  }

  lemma EmptyTextIsNoRequest(fl: Floats)
    ensures Decode("", fl).Failure?
  {
  }

  lemma OneCall(c: Setting, s: Agent, call: Call, fl: Floats)
    ensures Serve(c, s, [call], fl) == Effect(c, s, call.text, fl, call.outside)
  {
    assert [call][..0] == [];
    assert Serve(c, s, [], fl) == s;
  }

  /** The request {"method":"restore","params":{"freeze_id":id}}. */
  function RestoreRequest(id: string): Json {
    Obj([Member("method", Str("restore")), Member("params", Obj([Member("freeze_id", Str(id))]))])
  }

  lemma RestoreRequestIsSafe(id: string)
    requires SafeText(id)
    ensures Safe(RestoreRequest(id)) && RealFree(RestoreRequest(id))
  {
    var inner := Obj([Member("freeze_id", Str(id))]);
    assert Safe(inner) && RealFree(inner);
  }

  lemma RestoreRequestNames(id: string)
    ensures RequestedMethod(RestoreRequest(id)) == Some(Method.Restore)
    ensures Params(RestoreRequest(id)) == Obj([Member("freeze_id", Str(id))])
  {
    var m := RestoreRequest(id).members;
    LookupAt(m, 0, "method");
    LookupAt(m, 1, "params");
  }

  lemma RestoreRequestReads(id: string, fl: Floats)
    requires SafeText(id)
    ensures Asks(Encode(RestoreRequest(id), fl), fl, Method.Restore, Obj([Member("freeze_id", Str(id))]))
  {
    RestoreRequestIsSafe(id);
    RestoreRequestNames(id);
    EncodeDecode(RestoreRequest(id), fl);
  }

  lemma RestoreEffect(c: Setting, s: Agent, text: string, fl: Floats, params: Json, o: Outside)
    requires Asks(text, fl, Method.Restore, params)
    ensures Effect(c, s, text, fl, o)
         == s.(freezer := Moved(s.freezer, o.moves, OpsOf(s.freezer, Method.Restore, params, c.truncate, o.written)))
  {
  }

  /**
    A restore request does write: under an engaged kill switch, the text for a stopped freeze puts the saved bytes
    back, so it changes memory unless they are there already.
  */
  lemma KilledRestoreText(c: Setting, s: Agent, fl: Floats, o: Outside, i: nat) returns (call: Call)
    requires s.gate.killed && Structure(s.freezer) && s.freezer.client == FreezeProtocol.Idle
    requires i < |s.freezer.entries| && !s.freezer.entries[i].Joinable()
    requires var id := s.freezer.entries[i].request.id; id != "" && SafeText(id)
    ensures call.text == Encode(RestoreRequest(s.freezer.entries[i].request.id), fl)
    ensures var t := Serve(c, s, [call], fl);
            && t.gate.killed && SavedIsThere(t.Memory(), s.freezer.entries[i])
            && (t.Memory() == s.Memory() <==> SavedIsThere(s.Memory(), s.freezer.entries[i]))
  {
    var e := s.freezer.entries[i];
    var id, n, params := e.request.id, |e.original|, Obj([Member("freeze_id", Str(e.request.id))]);
    assert EntryOk(s.freezer, i);
    var moves := RestoreRun(s.freezer, i);
    call := Call(Encode(RestoreRequest(id), fl), o.(moves := moves, written := FreezeProtocol.Wrote(n)));
    RestoreRequestReads(id, fl);
    OneCall(c, s, call, fl);
    RestoreEffect(c, s, call.text, fl, params, call.outside);
    RestoreMay(s.freezer, i, params, c.truncate);
    RunIsMoved(s.freezer, moves, OpsOf(s.freezer, Method.Restore, params, c.truncate, FreezeProtocol.Wrote(n)));
    WrittenIsSameIff(s.Memory(), e);
  }

  lemma RestoreMay(s: FreezeProtocol.State, i: nat, params: Json, truncate: Truncation)
    requires IdsDistinct(s) && i < |s.entries| && s.entries[i].request.id != ""
    requires params == Obj([Member("freeze_id", Str(s.entries[i].request.id))])
    ensures var written := FreezeProtocol.Wrote(|s.entries[i].original|);
            OpsOf(s, Method.Restore, params, truncate, written) == FreezeProtocol.RestoreOps(s.entries[i].request.id, written)
  {
    FreezeRuns.FindFinds(s.entries, i);
  }
}
