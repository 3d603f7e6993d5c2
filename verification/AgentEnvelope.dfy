/**
  Every request text, whatever it says, is answered by one JSON-RPC answer object that echoes its id, unless it
  is an authorised apply whose value_hex makes the conversion throw.
*/
module AgentEnvelope {
  import opened Common
  import opened ByteMemory
  import opened JsonCodec
  import opened JsonRoundTrip
  import opened PolicyGate
  import opened HexValues
  import opened AgentApprovals
  import opened AgentMessages
  import FreezeProtocol
  import CheatTables

  /** An object without a version member is a result. */
  lemma PlainIsHandled(members: seq<Member>)
    requires forall i | 0 <= i < |members| :: members[i].key != "jsonrpc" && RealFree(members[i].value)
    ensures IsHandled(Obj(members))
  {
    NoSuchKey(members, "jsonrpc");
  }

  lemma InspectIsHandled(id: Identity)
    ensures IsHandled(InspectReply(id))
  {
    var reply := InspectReply(id);
    assert RealFree(reply.members[0].value) && RealFree(reply.members[1].value);
    PlainIsHandled(reply.members);
  }

  /** A refusal is handled; so is an object whose members are scalars and none a version. */
  lemma HandledUnlessRefused(reply: Json, wording: Wording, params: Json)
    requires (exists e :: reply == Refuse(wording, params, e) || reply == RefusePlain(wording, params, e))
             || (reply.Obj? && forall i | 0 <= i < |reply.members| ::
                   reply.members[i].key != "jsonrpc" && RealFree(reply.members[i].value))
    ensures IsHandled(reply)
  {
    if e :| reply == Refuse(wording, params, e) || reply == RefusePlain(wording, params, e) {
      RefusalsAreHandled(wording, params, e);
    } else {
      PlainIsHandled(reply.members);
    }
  }

  lemma ReadIsHandled(params: Json, truncate: Truncation, o: Outside, mem: Memory)
    ensures IsHandled(ReadReply(params, truncate, o, mem))
  {
    HandledUnlessRefused(ReadReply(params, truncate, o, mem), o.wording, params);
  }

  lemma VerifyIsHandled(params: Json, truncate: Truncation, o: Outside, mem: Memory)
    ensures IsHandled(VerifyReply(params, truncate, o, mem))
  {
    HandledUnlessRefused(VerifyReply(params, truncate, o, mem), o.wording, params);
  }

  lemma ResolveIsHandled(params: Json, truncate: Truncation, o: Outside, mem: Memory)
    ensures IsHandled(ResolveReply(params, truncate, o, mem))
  {
    HandledUnlessRefused(ResolveReply(params, truncate, o, mem), o.wording, params);
  }

  lemma PreviewIsHandled(params: Json, o: Outside, verdict: Result<()>)
    ensures IsHandled(PreviewReply(params, o, verdict))
  {
    HandledUnlessRefused(PreviewReply(params, o, verdict), o.wording, params);
  }

  lemma WrittenIsHandled(params: Json, truncate: Truncation, o: Outside, bytes: seq<Byte>)
    ensures IsHandled(WrittenReply(params, truncate, o, bytes))
  {
    HandledUnlessRefused(WrittenReply(params, truncate, o, bytes), o.wording, params);
  }

  lemma SwitchIsHandled(params: Json, o: Outside)
    ensures IsHandled(SwitchReply(params))
  {
    HandledUnlessRefused(SwitchReply(params), o.wording, params);
  }

  lemma ManagerIsHandled(s: FreezeProtocol.State, m: Method, params: Json, truncate: Truncation, wording: Wording,
                         written: FreezeProtocol.Outcome)
    requires Manages(m)
    ensures IsHandled(ManagerReply(s, m, params, truncate, wording, written))
  {
    HandledUnlessRefused(ManagerReply(s, m, params, truncate, wording, written), wording, params);
  }

  lemma TableIsHandled(table: CheatTables.CheatTable, o: Outside)
    ensures IsHandled(TableObject(table, o))
  {
    PlainIsHandled(TableObject(table, o).members);
  }

  lemma ParseIsHandled(params: Json, o: Outside)
    ensures IsHandled(ParseReply(params, o))
  {
    match CheatTables.TableOf(GetString(params, "xml", ""), o.parse)
    case Failure(e) => RefusalsAreHandled(o.wording, params, e);
    case Success(table) => TableIsHandled(table, o);
  }

  lemma OneStatusIsHandled(params: Json, wording: Wording, status: Result<FreezeProtocol.FreezeStatus>)
    ensures IsHandled(OneStatusReply(params, wording, status))
  {
    if status.Success? {
      assert RealFree(StatusObject(status.value));
    }
    HandledUnlessRefused(OneStatusReply(params, wording, status), wording, params);
  }

  lemma AllStatusIsHandled(statuses: seq<FreezeProtocol.FreezeStatus>)
    ensures IsHandled(AllStatusReply(statuses))
  {
    PlainIsHandled(AllStatusReply(statuses).members);
  }

  lemma StatusIsHandled(params: Json, o: Outside, s: FreezeProtocol.State)
    ensures IsHandled(StatusReply(params, o, s))
  {
    OneStatusIsHandled(params, o.wording, FreezeProtocol.StatusResult(s.entries, GetString(params, "id", "")));
    if statuses :| StatusReply(params, o, s) == AllStatusReply(statuses) {
      AllStatusIsHandled(statuses);
    }
  }

  lemma ApplyIsHandled(c: Setting, s: Agent, params: Json, o: Outside)
    ensures ApplyReply(c, s, params, o).Some? ==> IsHandled(ApplyReply(c, s, params, o).value)
    ensures ApplyReply(c, s, params, o).None? <==>
              Authorised(c, s, Apply(params, o.at, o.written)) && ValueIn(params).Malformed?
  {
    var reply := ApplyReply(c, s, params, o);
    if bytes :| reply == Some(WrittenReply(params, c.truncate, o, bytes)) {
      WrittenIsHandled(params, c.truncate, o, bytes);
    } else if reply.Some? {
      HandledUnlessRefused(reply.value, o.wording, params);
    }
  }

  /** An apply that the policy accepts, with two characters in value_hex that std::stoul does not take. */
  ghost predicate Throws(c: Setting, s: Agent, m: Method, params: Json, o: Outside) {
    && m.ApplyMethod? && ValueIn(params).Malformed?
    && Authorised(c, Meanwhile(c, s, m, params, o), Apply(params, o.at, o.written))
  }

  lemma ReadingIsHandled(c: Setting, mem: Memory, m: Method, params: Json, o: Outside)
    ensures IsHandled(ReadingReply(c, mem, m, params, o))
  {
    match m
    case Read => ReadIsHandled(params, c.truncate, o, mem);
    case Resolve => ResolveIsHandled(params, c.truncate, o, mem);
    case Verify => VerifyIsHandled(params, c.truncate, o, mem);
    case ParseMethod => ParseIsHandled(params, o);
    case _ => InspectIsHandled(c.identity);
  }

  lemma OthersAreHandled(c: Setting, s: Agent, m: Method, params: Json, o: Outside)
    requires m != ApplyMethod
    ensures OwnResult(c, s, m, params, o).Some? && IsHandled(OwnResult(c, s, m, params, o).value)
  {
    if m == PreviewMethod {
      PreviewIsHandled(params, o, Verdict(s.gate, c.manifests, PreviewAttempt(c, params, o.at)));
    } else if m == KillSwitchMethod {
      SwitchIsHandled(params, o);
    } else if m == Status {
      StatusIsHandled(params, o, s.freezer);
    } else {
      ReadingIsHandled(c, s.Memory(), m, params, o);
    }
  }

  lemma OwnIsHandled(c: Setting, s: Agent, m: Method, params: Json, o: Outside)
    ensures var result := OwnResult(c, s, m, params, o);
            && (result.None? <==>
                  m.ApplyMethod? && ValueIn(params).Malformed? && Authorised(c, s, Apply(params, o.at, o.written)))
            && (result.Some? ==> IsHandled(result.value))
  {
    if m == ApplyMethod {
      ApplyIsHandled(c, s, params, o);
    } else {
      OthersAreHandled(c, s, m, params, o);
    }
  }

  /** All twelve handlers. */
  lemma ResultIsHandled(c: Setting, s: Agent, m: Method, params: Json, o: Outside)
    ensures ResultOf(c, s, m, params, o).None? <==> Throws(c, s, m, params, o)
    ensures ResultOf(c, s, m, params, o).Some? ==> IsHandled(ResultOf(c, s, m, params, o).value)
  {
    if Manages(m) {
      ManagerIsHandled(s.freezer, m, params, c.truncate, o.wording, o.written);
    } else {
      OwnIsHandled(c, Meanwhile(c, s, m, params, o), m, params, o);
    }
  }

  lemma ErrorIsAnswer(id: string, code: Int64, message: string)
    ensures var e := ErrorEnvelope(id, ErrorObject(code, message, None)); IsAnswer(e, id) && RealFree(e)
  {
    ErrorsAreHandled(id, code, message, None);
  }

  /** The text is an apply that throws. */
  ghost predicate TextThrows(c: Setting, s: Agent, text: string, fl: Floats, o: Outside) {
    exists m, params :: Asks(text, fl, m, params) && Throws(c, s, m, params, o)
  }

  /** Whatever the request text is, the answer has exactly the three members, under the request's id, unless it throws. */
  lemma EveryRequestIsAnswered(c: Setting, s: Agent, text: string, fl: Floats, o: Outside)
    ensures var answer := Answer(c, s, text, fl, o);
            && (answer.None? <==> TextThrows(c, s, text, fl, o))
            && (answer.Some? ==> IsAnswer(answer.value, IdOf(text, fl)) && RealFree(answer.value))
  {
    match Decode(text, fl)
    case Failure(_) => ErrorIsAnswer("", -32700, "parse error");
    case Success(request) =>
      if !request.Obj? {
        ErrorIsAnswer("", -32600, "invalid request");
      } else {
        var id := GetString(request, "id", "");
        match RequestedMethod(request)
        case None => ErrorIsAnswer(id, -32601, "method not found: " + GetString(request, "method", ""));
        case Some(m) =>
          assert Asks(text, fl, m, Params(request));
          ResultIsHandled(c, s, m, Params(request), o);
          var result := ResultOf(c, s, m, Params(request), o);
          if result.Some? {
            WrappedIsAnswer(id, result.value);
          }
      }
  }

  /** The reply text decodes to the answer object exactly when its strings survive the codec. */
  lemma ReplyDecodesToAnswer(c: Setting, s: Agent, text: string, fl: Floats, o: Outside)
    requires Answer(c, s, text, fl, o).Some?
    ensures var answer := Answer(c, s, text, fl, o).value;
            Decode(Encode(answer, fl), fl) == Success(answer) <==> Safe(answer)
  {
    EveryRequestIsAnswered(c, s, text, fl, o);
    EncodeDecode(Answer(c, s, text, fl, o).value, fl);
  }
}
