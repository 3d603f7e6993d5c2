/**
  Which requests are answered with a result and which with an error: for each method by its name, and for every
  request text.
*/
module AgentAnswers {
  import opened Common
  import opened ByteMemory
  import opened JsonCodec
  import opened PolicyGate
  import opened HexValues
  import opened AgentApprovals
  import opened AgentMessages
  import opened AgentEnvelope
  import opened AgentOutcomes
  import opened AgentReports
  import FreezeProtocol
  import PointerChain
  import CheatTables

  /** What a text decodes to is a request object that names this method and has these parameters. */
  predicate Requests(parsed: Result<Json>, name: string, params: Json) {
    && parsed.Success? && parsed.value.Obj?
    && GetString(parsed.value, "method", "") == name && Params(parsed.value) == params
  }

  const METHODS: set<string> :=
    {"inspect", "read", "resolve", "preview", "apply", "verify",
     "restore", "freeze", "unfreeze", "status", "parse", "kill_switch"}

  lemma MethodsAreNamed(name: string)
    ensures MethodNamed(name).Some? <==> name in METHODS
  {
  }

  /** The answer to a request that names a method is what its handler returns, as an envelope. */
  lemma AnswerWraps(c: Setting, s: Agent, parsed: Result<Json>, o: Outside, name: string, params: Json, m: Method)
    requires Requests(parsed, name, params) && MethodNamed(name) == Some(m)
    ensures AnswerTo(c, s, parsed, o) == Wrapping(GetString(parsed.value, "id", ""), ResultOf(c, s, m, params, o))
    ensures EffectOf(c, s, parsed, o) == StateAfter(c, s, m, params, o)
  {
  }

  /** The agent as the workers and the manager have left it when the handler looks. */
  ghost function Seen(c: Setting, s: Agent, name: string, params: Json, o: Outside): Agent {
    if MethodNamed(name).Some? then Meanwhile(c, s, MethodNamed(name).value, params, o) else s
  }

  // ---------------------------------------------------------------- the methods by name

  lemma InspectAnswers(c: Setting, s: Agent, parsed: Result<Json>, o: Outside, params: Json)
    requires Requests(parsed, "inspect", params)
    ensures InspectOutcome(AnswerTo(c, s, parsed, o), c.identity)
  {
    AnswerWraps(c, s, parsed, o, "inspect", params, Inspect);
    InspectIsAnswered(GetString(parsed.value, "id", ""), c.identity);
  }

  /** read: the live target's bytes. */
  lemma ReadAnswers(c: Setting, s: Agent, parsed: Result<Json>, o: Outside, params: Json)
    requires Requests(parsed, "read", params)
    ensures ReadOutcome(AnswerTo(c, s, parsed, o), params, c.truncate, o.alive, Seen(c, s, "read", params, o).Memory())
  {
    AnswerWraps(c, s, parsed, o, "read", params, Read);
    ReadIsAnswered(GetString(parsed.value, "id", ""), params, c.truncate, o, Seen(c, s, "read", params, o).Memory());
  }

  lemma VerifyAnswers(c: Setting, s: Agent, parsed: Result<Json>, o: Outside, params: Json)
    requires Requests(parsed, "verify", params)
    ensures VerifyOutcome(AnswerTo(c, s, parsed, o), params, c.truncate, Seen(c, s, "verify", params, o).Memory())
  {
    AnswerWraps(c, s, parsed, o, "verify", params, Verify);
    VerifyIsAnswered(GetString(parsed.value, "id", ""), params, c.truncate, o, Seen(c, s, "verify", params, o).Memory());
  }

  /** resolve: the last of the pointers that stand in memory where base and the offsets lead, if they all do. */
  lemma ResolveAnswers(c: Setting, s: Agent, parsed: Result<Json>, o: Outside, params: Json)
    requires Requests(parsed, "resolve", params)
    ensures var a, mem := AnswerTo(c, s, parsed, o), Seen(c, s, "resolve", params, o).Memory();
            var base, offsets := AddressIn(params, "base", c.truncate), OffsetsGiven(params);
            && (HasResult(a) <==> offsets != [] && exists pointers :: PointerChain.SessionLinks(mem, base, offsets, pointers))
            && (HasError(a) <==> !HasResult(a))
            && (forall pointers | offsets != [] && PointerChain.SessionLinks(mem, base, offsets, pointers) ::
                  Carries(a, "address", Int(Signed64(PointerChain.Last(pointers, base)))))
  {
    AnswerWraps(c, s, parsed, o, "resolve", params, Resolve);
    var a, mem := AnswerTo(c, s, parsed, o), Seen(c, s, "resolve", params, o).Memory();
    var base, offsets := AddressIn(params, "base", c.truncate), OffsetsGiven(params);
    ResolveIsAnswered(GetString(parsed.value, "id", ""), params, c.truncate, o, mem);
    assert ResolveOutcome(a, params, c.truncate, mem);
    if offsets != [] {
      WalkIsAnswered(a, params, c.truncate, mem);
    }
  }

  lemma WalkIsAnswered(a: Option<Json>, params: Json, truncate: Truncation, mem: Memory)
    requires OffsetsGiven(params) != [] && ResolveOutcome(a, params, truncate, mem)
    ensures var base, offsets := AddressIn(params, "base", truncate), OffsetsGiven(params);
            && (HasResult(a) <==> exists pointers :: PointerChain.SessionLinks(mem, base, offsets, pointers))
            && (HasError(a) <==> !HasResult(a))
            && (forall pointers | PointerChain.SessionLinks(mem, base, offsets, pointers) ::
                  Carries(a, "address", Int(Signed64(PointerChain.Last(pointers, base)))))
  {
    var base, offsets := AddressIn(params, "base", truncate), OffsetsGiven(params);
    if PointerChain.SessionWalk(mem, base, offsets).Success? {
      var pointers := PointerChain.SessionFindsPointers(mem, base, offsets);
    }
    forall pointers | PointerChain.SessionLinks(mem, base, offsets, pointers)
      ensures PointerChain.SessionWalk(mem, base, offsets) == Success(PointerChain.Last(pointers, base))
    {
      PointerChain.SessionReachesLast(mem, base, offsets, pointers);
    }
  }

  /** preview: the approval that is pending from now on, or the policy's verdict. */
  lemma PreviewAnswers(c: Setting, s: Agent, parsed: Result<Json>, o: Outside, params: Json)
    requires Requests(parsed, "preview", params)
    ensures PreviewOutcome(AnswerTo(c, s, parsed, o), params,
                           Verdict(Seen(c, s, "preview", params, o).gate, c.manifests, PreviewAttempt(c, params, o.at)), o.issued,
                           EffectOf(c, s, parsed, o).pending)
  {
    AnswerWraps(c, s, parsed, o, "preview", params, PreviewMethod);
    PreviewIsAnswered(GetString(parsed.value, "id", ""), c, Seen(c, s, "preview", params, o), params, o);
  }

  /** apply: the bytes asked for are in memory now, or why not. */
  lemma ApplyAnswers(c: Setting, s: Agent, parsed: Result<Json>, o: Outside, params: Json)
    requires Requests(parsed, "apply", params)
    ensures ApplyOutcome(AnswerTo(c, s, parsed, o), c, Seen(c, s, "apply", params, o), params, o,
                         EffectOf(c, s, parsed, o).Memory())
  {
    AnswerWraps(c, s, parsed, o, "apply", params, ApplyMethod);
    ApplyIsAnswered(GetString(parsed.value, "id", ""), c, Seen(c, s, "apply", params, o), params, o);
  }

  lemma SwitchAnswers(c: Setting, s: Agent, parsed: Result<Json>, o: Outside, params: Json)
    requires Requests(parsed, "kill_switch", params)
    ensures Carries(AnswerTo(c, s, parsed, o), "engaged", Bool(EffectOf(c, s, parsed, o).gate.killed))
    ensures EffectOf(c, s, parsed, o).gate.killed <==> Get(params, "engage") != Some(Bool(false))
  {
    AnswerWraps(c, s, parsed, o, "kill_switch", params, KillSwitchMethod);
    SwitchIsAnswered(GetString(parsed.value, "id", ""), Seen(c, s, "kill_switch", params, o), params);
  }

  lemma FreezeAnswers(c: Setting, s: Agent, parsed: Result<Json>, o: Outside, params: Json)
    requires Requests(parsed, "freeze", params)
    ensures FreezeOutcome(AnswerTo(c, s, parsed, o), s.freezer, params, c.truncate)
  {
    AnswerWraps(c, s, parsed, o, "freeze", params, Method.Freeze);
    FreezeIsAnswered(GetString(parsed.value, "id", ""), s.freezer, params, c.truncate, o.wording, o.written);
  }

  lemma UnfreezeAnswers(c: Setting, s: Agent, parsed: Result<Json>, o: Outside, params: Json)
    requires Requests(parsed, "unfreeze", params)
    ensures UnfreezeOutcome(AnswerTo(c, s, parsed, o), s.freezer, params)
  {
    AnswerWraps(c, s, parsed, o, "unfreeze", params, Unfreeze);
    UnfreezeIsAnswered(GetString(parsed.value, "id", ""), s.freezer, params, c.truncate, o.wording, o.written);
  }

  lemma RestoreAnswers(c: Setting, s: Agent, parsed: Result<Json>, o: Outside, params: Json)
    requires Requests(parsed, "restore", params)
    ensures RestoreOutcome(AnswerTo(c, s, parsed, o), s.freezer, params, o.written)
  {
    AnswerWraps(c, s, parsed, o, "restore", params, Restore);
    RestoreIsAnswered(GetString(parsed.value, "id", ""), s.freezer, params, c.truncate, o.wording, o.written);
  }

  lemma StatusAnswers(c: Setting, s: Agent, parsed: Result<Json>, o: Outside, params: Json)
    requires Requests(parsed, "status", params)
    ensures StatusOutcome(AnswerTo(c, s, parsed, o), Seen(c, s, "status", params, o).freezer, params)
  {
    AnswerWraps(c, s, parsed, o, "status", params, Status);
    StatusIsAnswered(GetString(parsed.value, "id", ""), params, o, Seen(c, s, "status", params, o).freezer);
  }

  lemma ParseAnswers(c: Setting, s: Agent, parsed: Result<Json>, o: Outside, params: Json)
    requires Requests(parsed, "parse", params)
    ensures ParseOutcome(AnswerTo(c, s, parsed, o), params, o)
  {
    AnswerWraps(c, s, parsed, o, "parse", params, ParseMethod);
    ParseIsAnswered(GetString(parsed.value, "id", ""), params, o);
  }

  // ---------------------------------------------------------------- every text

  /** A text that cannot be decoded, a request that is no object, and a method the agent does not have. */
  lemma BadRequestsFail(c: Setting, s: Agent, parsed: Result<Json>, o: Outside)
    ensures var a := AnswerTo(c, s, parsed, o);
            && (parsed.Failure? ==> FailsWith(a, -32700))
            && (parsed.Success? && !parsed.value.Obj? ==> FailsWith(a, -32600))
            && (forall name, params | Requests(parsed, name, params) && name !in METHODS :: FailsWith(a, -32601))
  {
    match parsed
    case Failure(_) => ErrorFails("", -32700, "parse error", None);
    case Success(request) =>
      var name := GetString(request, "method", "");
      if !request.Obj? {
        ErrorFails("", -32600, "invalid request", None);
      } else {
        MethodsAreNamed(name);
        ErrorFails(GetString(request, "id", ""), -32601, "method not found: " + name, None);
      }
  }

  /** The operation a request asks for is carried out. */
  ghost predicate Works(c: Setting, s: Agent, name: string, params: Json, o: Outside) {
    var seen, id := Seen(c, s, name, params, o), GetString(params, "id", "");
    var window := CanRead(seen.Memory(), AddressIn(params, "address", c.truncate), SizeIn(params, c.truncate));
    && name in METHODS
    && (name == "read" ==> o.alive && window)
    && (name == "verify" ==> window)
    && (name == "resolve" ==>
          exists pointers :: pointers != []
            && PointerChain.SessionLinks(seen.Memory(), AddressIn(params, "base", c.truncate), OffsetsGiven(params), pointers))
    && (name == "preview" ==> Mints(c, seen, Step.Preview(params, o.at, o.issued)))
    && (name == "apply" ==>
          && Writes(c, seen, Apply(params, o.at, o.written))
          && WritesInFull(AddressIn(params, "address", c.truncate), ValueIn(params).bytes, o.written))
    && (name == "restore" ==> RestoreFault(s.freezer, GetString(params, "freeze_id", ""), o.written).None?)
    && (name == "freeze" ==>
          FreezeFault(s.freezer, id, AddressIn(params, "address", c.truncate), FrozenSize(params, c.truncate)).None?)
    && (name == "unfreeze" ==> Registered(s.freezer, id))
    && (name == "status" ==> id == "" || Registered(seen.freezer, id))
    && (name == "parse" ==> CheatTables.TableOf(GetString(params, "xml", ""), o.parse).Success?)
  }

  /** There is a result when the operation works, and otherwise an error, or nothing if the handler throws. */
  ghost predicate Decided(a: Option<Json>, works: bool) {
    if works then HasResult(a) else a.None? || HasError(a)
  }

  lemma ReadingIsDecided(c: Setting, s: Agent, parsed: Result<Json>, o: Outside, name: string, params: Json)
    requires Requests(parsed, name, params) && name in {"inspect", "read", "resolve", "verify", "parse"}
    ensures Decided(AnswerTo(c, s, parsed, o), Works(c, s, name, params, o))
  {
    if name == "inspect" {
      InspectAnswers(c, s, parsed, o, params);
    } else if name == "read" {
      ReadAnswers(c, s, parsed, o, params);
    } else if name == "resolve" {
      ResolveAnswers(c, s, parsed, o, params);
    } else if name == "verify" {
      VerifyAnswers(c, s, parsed, o, params);
    } else {
      ParseAnswers(c, s, parsed, o, params);
    }
  }

  lemma PolicyIsDecided(c: Setting, s: Agent, parsed: Result<Json>, o: Outside, name: string, params: Json)
    requires Requests(parsed, name, params) && name in {"preview", "apply", "kill_switch"}
    ensures Decided(AnswerTo(c, s, parsed, o), Works(c, s, name, params, o))
  {
    if name == "preview" {
      PreviewAnswers(c, s, parsed, o, params);
    } else if name == "apply" {
      ApplyAnswers(c, s, parsed, o, params);
    } else {
      SwitchAnswers(c, s, parsed, o, params);
    }
  }

  lemma FreezingIsDecided(c: Setting, s: Agent, parsed: Result<Json>, o: Outside, name: string, params: Json)
    requires Requests(parsed, name, params) && name in {"freeze", "unfreeze", "restore", "status"}
    ensures Decided(AnswerTo(c, s, parsed, o), Works(c, s, name, params, o))
  {
    if name == "freeze" {
      FreezeAnswers(c, s, parsed, o, params);
    } else if name == "unfreeze" {
      UnfreezeAnswers(c, s, parsed, o, params);
    } else if name == "restore" {
      RestoreAnswers(c, s, parsed, o, params);
    } else {
      StatusAnswers(c, s, parsed, o, params);
    }
  }

  /** The request asks for an operation that works. */
  ghost predicate AsksForWorking(c: Setting, s: Agent, parsed: Result<Json>, o: Outside) {
    exists name, params :: Requests(parsed, name, params) && Works(c, s, name, params, o)
  }

  lemma RequestIsDecided(c: Setting, s: Agent, parsed: Result<Json>, o: Outside, name: string, params: Json)
    requires Requests(parsed, name, params)
    ensures Decided(AnswerTo(c, s, parsed, o), Works(c, s, name, params, o))
  {
    if name in {"inspect", "read", "resolve", "verify", "parse"} {
      ReadingIsDecided(c, s, parsed, o, name, params);
    } else if name in {"preview", "apply", "kill_switch"} {
      PolicyIsDecided(c, s, parsed, o, name, params);
    } else if name in {"freeze", "unfreeze", "restore", "status"} {
      FreezingIsDecided(c, s, parsed, o, name, params);
    } else {
      BadRequestsFail(c, s, parsed, o);
    }
  }

  lemma EachIsDecided(c: Setting, s: Agent, parsed: Result<Json>, o: Outside)
    ensures Decided(AnswerTo(c, s, parsed, o), AsksForWorking(c, s, parsed, o))
  {
    BadRequestsFail(c, s, parsed, o);
    if parsed.Success? && parsed.value.Obj? {
      var name, params := GetString(parsed.value, "method", ""), Params(parsed.value);
      assert Requests(parsed, name, params);
      RequestIsDecided(c, s, parsed, o, name, params);
    }
  }

  /** Every text: a result exactly when it asks for an operation that works, and an error otherwise, unless the handler throws. */
  lemma ResultIffWorks(c: Setting, s: Agent, text: string, fl: Floats, o: Outside)
    ensures var a, works := Answer(c, s, text, fl, o), AsksForWorking(c, s, Decode(text, fl), o);
            && (HasResult(a) <==> works)
            && (HasError(a) <==> !works && !TextThrows(c, s, text, fl, o))
  {
    EachIsDecided(c, s, Decode(text, fl), o);
    EveryRequestIsAnswered(c, s, text, fl, o);
  }
}
