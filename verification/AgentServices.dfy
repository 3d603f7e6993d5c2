/**
  AgentService with its pending approvals, over a policy and a freeze manager: each handler changes them as the
  state machine says. The manager's memory is the target's, which the agent's own session reads and writes too.
*/
module AgentServices {
  import opened Common
  import opened ByteMemory
  import opened JsonCodec
  import opened JsonText
  import opened PolicyGate
  import opened HexValues
  import opened AgentApprovals
  import opened AgentMessages
  import opened FreezeManagement
  import FreezeProtocol

  /** The agent after a policy call for a preview. */
  function IssuedToken(request: MutationRequest, issued: int): Token {
    Token(request.requestId, request.alias, issued, issued + APPROVAL_TTL)
  }

  function Previewed(s: Agent, manifests: seq<Manifest>, attempt: Attempt, issued: int): Agent {
    var gate := AfterAttempt(s.gate, manifests, attempt);
    if Verdict(s.gate, manifests, attempt).Success?
    then s.(gate := gate, pending := s.pending[attempt.request.requestId := IssuedToken(attempt.request, issued)])
    else s.(gate := gate)
  }

  lemma PreviewOutcome(c: Setting, s: Agent, params: Json, at: Readings, issued: int)
    ensures AfterPreview(c, s, params, at, issued) == Previewed(s, c.manifests, PreviewAttempt(c, params, at), issued)
  {
  }

  /** Memory after an accepted apply. */
  function AfterValue(mem: Memory, params: Json, truncate: Truncation, written: FreezeProtocol.Outcome): Memory {
    if ValueIn(params).Bytes?
    then WriteBytes(mem, MakeRequest(params, "apply", truncate).address, ValueIn(params).bytes, written) else mem
  }

  lemma ApplyOutcome(c: Setting, s: Agent, params: Json, at: Readings, written: FreezeProtocol.Outcome)
    requires RequestId(params) in s.pending
    ensures var attempt := ApplyAttempt(c, s.pending[RequestId(params)], params, at);
            AfterApply(c, s, params, at, written) == Agent(
              AfterAttempt(s.gate, c.manifests, attempt), s.pending - {RequestId(params)},
              if Verdict(s.gate, c.manifests, attempt).Success?
              then s.freezer.(mem := AfterValue(s.freezer.mem, params, c.truncate, written)) else s.freezer)
  {
  }

  lemma UnfreezeMay(s: FreezeProtocol.State, params: Json, truncate: Truncation, written: FreezeProtocol.Outcome)
    ensures OpsOf(s, Method.Unfreeze, params, truncate, written) == FreezeProtocol.UnfreezeOps(GetString(params, "id", ""))
  {
  }

  class AgentService {
    const identity: Identity
    const policy: Policy
    const freezer: FreezeManager
    const truncate: Truncation
    const fl: Floats
    var pending: map<string, Token>

    ghost function Footprint(): set<object>
      reads freezer
    {
      {this, policy, policy.limiter, policy.killSwitch, freezer} + set k | 0 <= k < |freezer.order| :: freezer.order[k] as object
    }

    ghost predicate Valid()
      reads freezer
    {
      policy.Valid() && freezer.Valid() && freezer.client == FreezeProtocol.Idle
    }

    ghost function View(): Agent
      reads Footprint(), freezer
    {
      Agent(policy.View(), pending, freezer.View())
    }

    function Setting(): Setting {
      AgentApprovals.Setting(policy.manifests, identity, truncate)
    }

    constructor (identity: Identity, policy: Policy, freezer: FreezeManager, truncate: Truncation, fl: Floats)
      requires policy.Valid() && freezer.Valid() && freezer.client == FreezeProtocol.Idle
      ensures Valid() && Setting() == AgentApprovals.Setting(policy.manifests, identity, truncate) && this.fl == fl
      ensures View() == Agent(policy.View(), map[], freezer.View())
    {
      this.identity, this.policy, this.freezer, this.truncate, this.fl := identity, policy, freezer, truncate, fl;
      pending := map[];
    }

    method OnPreview(params: Json, o: Outside) returns (reply: Json)
      requires Valid()
      modifies this, policy, policy.limiter
      ensures Valid()
      ensures View() == AfterPreview(Setting(), old(View()), params, o.at, o.issued)
      ensures reply == PreviewReply(params, o, Verdict(old(View()).gate, policy.manifests,
                                                       PreviewAttempt(Setting(), params, o.at)))
    {
      PreviewOutcome(Setting(), View(), params, o.at, o.issued);
      var auth := RequestPreview(PreviewAttempt(Setting(), params, o.at), o.issued);
      return PreviewReply(params, o, auth);
    }

    /** A preview that passes leaves a pending approval. */
    method RequestPreview(attempt: Attempt, issued: int) returns (auth: Result<()>)
      requires Valid()
      modifies this, policy, policy.limiter
      ensures Valid()
      ensures View() == Previewed(old(View()), policy.manifests, attempt, issued)
      ensures auth == Verdict(old(View()).gate, policy.manifests, attempt)
    {
      auth := policy.AuthorizeWithToken(attempt);
      if auth.Success? {
        pending := pending[attempt.request.requestId := IssuedToken(attempt.request, issued)];
      }
    }

    /** The loop over the digits of value_hex; it throws at the first pair std::stoul does not take. */
    method ReadValue(digits: string) returns (value: Value)
      ensures value == ValueOf(digits)
    {
      if |digits| % 2 != 0 {
        return OddLength;
      }
      var out: seq<Byte>, k := [], 0;
      PairsFromStart(digits);
      while k < |digits| / 2
        invariant 0 <= k <= |digits| / 2
        invariant PairValues(digits) == Joined(out, PairsFrom(digits, k))
      {
        var pair := HexPair(digits[2 * k], digits[2 * k + 1]);
        PairsNext(digits, k, out);
        if pair.None? {
          return Malformed;
        }
        out := out + [pair.value];
        k := k + 1;
      }
      return Bytes(out);
    }

    /** write_bytes of the agent's session. */
    method WriteMemory(address: Address, bytes: seq<Byte>, written: FreezeProtocol.Outcome)
      requires freezer.Valid()
      modifies freezer`memory
      ensures freezer.Valid()
      ensures freezer.View() == old(freezer.View()).(mem := WriteBytes(old(freezer.memory), address, bytes, written))
    {
      freezer.memory := WriteBytes(freezer.memory, address, bytes, written);
    }

    /** The pending approval is taken away before the policy is asked. */
    method OnApply(params: Json, o: Outside) returns (reply: Option<Json>)
      requires Valid()
      modifies this, policy, policy.limiter, freezer`memory
      ensures Valid()
      ensures View() == AfterApply(Setting(), old(View()), params, o.at, o.written)
      ensures reply == ApplyReply(Setting(), old(View()), params, o)
    {
      var id := RequestId(params);
      if id !in pending {
        return Some(RefusePlain(o.wording, params, PolicyDenied));
      }
      ghost var s := View();
      var attempt := ApplyAttempt(Setting(), pending[id], params, o.at);
      pending := pending - {id};
      var auth := policy.AuthorizeWithToken(attempt);
      ApplyOutcome(Setting(), s, params, o.at, o.written);
      if auth.Failure? {
        return Some(Refuse(o.wording, params, auth.error));
      }
      reply := WriteValue(params, o);
    }

    /** The part of apply behind the policy. */
    method WriteValue(params: Json, o: Outside) returns (reply: Option<Json>)
      requires Valid()
      modifies freezer`memory
      ensures Valid()
      ensures var mem := AfterValue(old(freezer.memory), params, truncate, o.written);
              View() == old(View()).(freezer := old(freezer.View()).(mem := mem))
      ensures reply == AuthorisedReply(params, truncate, o)
    {
      var value := ReadValue(GetString(params, "value_hex", ""));
      match value {
        case OddLength => return Some(RefusePlain(o.wording, params, InvalidString));
        case Malformed => return None;
        case Bytes(bytes) =>
          WriteMemory(MakeRequest(params, "apply", truncate).address, bytes, o.written);
          return Some(WrittenReply(params, truncate, o, bytes));
      }
    }

    method OnKillSwitch(params: Json) returns (reply: Json)
      requires Valid()
      modifies policy.killSwitch
      ensures Valid()
      ensures View() == AfterSwitch(old(View()), params)
      ensures reply == SwitchReply(params)
    {
      if GetBool(params, "engage", true) {
        policy.killSwitch.Engage(GetString(params, "reason", "operator"));
      } else {
        policy.killSwitch.Release();
      }
      return Obj([Member("engaged", Bool(policy.killSwitch.isEngaged))]);
    }

    /** The policy is not asked. */
    method OnFreeze(params: Json, o: Outside) returns (reply: Json, ghost moves: seq<FreezeProtocol.Label>)
      requires Valid()
      modifies freezer
      ensures Valid()
      ensures var s := old(freezer.View());
              FreezeProtocol.Run(s, moves).Some? && freezer.View() == Moved(s, moves, OpsOf(s, Method.Freeze, params, truncate, o.written))
      ensures reply == ManagerReply(old(freezer.View()), Method.Freeze, params, truncate, o.wording, o.written)
    {
      ghost var start := freezer.View();
      var r;
      r, moves := freezer.Freeze(FreezeRequestOf(params, truncate));
      RunIsMoved(start, moves, FreezeProtocol.FreezeOps(FreezeRequestOf(params, truncate)));
      return FreezeReply(params, o.wording, r), moves;
    }

    method OnUnfreeze(params: Json, o: Outside) returns (reply: Json, ghost moves: seq<FreezeProtocol.Label>)
      requires Valid()
      modifies freezer, freezer.order
      ensures Valid()
      ensures var s := old(freezer.View());
              FreezeProtocol.Run(s, moves).Some? && freezer.View() == Moved(s, moves, OpsOf(s, Method.Unfreeze, params, truncate, o.written))
      ensures reply == ManagerReply(old(freezer.View()), Method.Unfreeze, params, truncate, o.wording, o.written)
    {
      ghost var start := freezer.View();
      var id := GetString(params, "id", "");
      var r;
      r, moves := freezer.Unfreeze(id, o.alive, o.last);
      RunIsMoved(start, moves, FreezeProtocol.UnfreezeOps(id));
      UnfreezeMay(start, params, truncate, o.written);
      return UnfreezeReply(params, o.wording, r), moves;
    }

    /** The policy is not asked here either. */
    method OnRestore(params: Json, o: Outside) returns (reply: Json, ghost moves: seq<FreezeProtocol.Label>)
      requires Valid()
      modifies freezer, freezer.order
      ensures Valid()
      ensures var s := old(freezer.View());
              FreezeProtocol.Run(s, moves).Some? && freezer.View() == Moved(s, moves, OpsOf(s, Method.Restore, params, truncate, o.written))
      ensures reply == ManagerReply(old(freezer.View()), Method.Restore, params, truncate, o.wording, o.written)
    {
      var id := GetString(params, "freeze_id", "");
      if id == "" {
        return RefusePlain(o.wording, params, InvalidEntryId), [];
      }
      ghost var start := freezer.View();
      var r;
      r, moves := freezer.Restore(id, o.alive, o.last, o.written);
      RunIsMoved(start, moves, FreezeProtocol.RestoreOps(id, FreezeProtocol.AnsweredTo(start.entries, id, o.written)));
      return RestoreReply(params, o.wording, r), moves;
    }

    method OnStatus(params: Json, o: Outside) returns (reply: Json, ghost listing: seq<nat>)
      requires Valid()
      ensures reply == StatusReply(params, o.(listing := listing), freezer.View())
    {
      var id := GetString(params, "id", "");
      if id != "" {
        var status := freezer.Status(id);
        return OneStatusReply(params, o.wording, status), [];
      }
      var statuses;
      statuses, listing := freezer.AllStatus();
      return AllStatusReply(statuses), listing;
    }

    method CallManager(m: Method, params: Json, o: Outside) returns (reply: Json, ghost moves: seq<FreezeProtocol.Label>)
      requires Valid() && Manages(m)
      modifies freezer, freezer.order
      ensures Valid()
      ensures var s := old(freezer.View());
              FreezeProtocol.Run(s, moves).Some? && freezer.View() == Moved(s, moves, OpsOf(s, m, params, truncate, o.written))
      ensures reply == ManagerReply(old(freezer.View()), m, params, truncate, o.wording, o.written)
    {
      match m
      case Freeze => reply, moves := OnFreeze(params, o);
      case Unfreeze => reply, moves := OnUnfreeze(params, o);
      case Restore => reply, moves := OnRestore(params, o);
    }

    /** The handlers that change nothing. */
    method CallReading(m: Method, params: Json, o: Outside) returns (reply: Json, ghost listing: seq<nat>)
      requires Valid() && !Manages(m) && m != PreviewMethod && m != ApplyMethod && m != KillSwitchMethod
      ensures Some(reply) == OwnResult(Setting(), View(), m, params, o.(listing := listing))
    {
      listing := o.listing;
      if m == Method.Status {
        reply, listing := OnStatus(params, o);
      } else {
        reply := ReadingReply(Setting(), freezer.memory, m, params, o);
      }
    }

    /** The handlers that do not call the manager. */
    method CallOwn(m: Method, params: Json, o: Outside) returns (result: Option<Json>, ghost listing: seq<nat>)
      requires Valid() && !Manages(m)
      modifies this, policy, policy.limiter, policy.killSwitch, freezer`memory
      ensures Valid()
      ensures View() == OwnStep(Setting(), old(View()), m, params, o.(listing := listing))
      ensures result == OwnResult(Setting(), old(View()), m, params, o.(listing := listing))
    {
      listing := o.listing;
      var reply;
      if m == PreviewMethod {
        reply := OnPreview(params, o);
        result := Some(reply);
      } else if m == ApplyMethod {
        result := OnApply(params, o);
      } else if m == KillSwitchMethod {
        reply := OnKillSwitch(params);
        result := Some(reply);
      } else {
        reply, listing := CallReading(m, params, o);
        result := Some(reply);
      }
    }

    /**
      The chain of method names in handle. Every move that is reported was possible, and the call it belongs to is
      over when the method returns. Between requests no worker moves here; in the state machine they may.
    */
    method Call(m: Method, params: Json, o: Outside) returns (result: Option<Json>, ghost seen: Outside)
      requires Valid()
      modifies Footprint()
      ensures Valid() && seen == o.(moves := seen.moves, listing := seen.listing)
      ensures FreezeProtocol.Run(old(freezer.View()), seen.moves).Some?
      ensures View() == StateAfter(Setting(), old(View()), m, params, seen)
      ensures result == ResultOf(Setting(), old(View()), m, params, seen)
    {
      ghost var s := View();
      if Manages(m) {
        var reply;
        ghost var moves;
        reply, moves := CallManager(m, params, o);
        result, seen := Some(reply), o.(moves := moves);
      } else {
        var quiet := o.(moves := []);
        ghost var listing;
        result, listing := CallOwn(m, params, quiet);
        seen := quiet.(listing := listing);
        NothingMeanwhile(Setting(), s, m, params, seen);
      }
    }

    /** handle between parsing and printing. */
    method Respond(parsed: Result<Json>, o: Outside) returns (answer: Option<Json>, ghost seen: Outside)
      requires Valid()
      modifies Footprint()
      ensures Valid() && seen == o.(moves := seen.moves, listing := seen.listing)
      ensures FreezeProtocol.Run(old(freezer.View()), seen.moves).Some?
      ensures View() == EffectOf(Setting(), old(View()), parsed, seen)
      ensures answer == AnswerTo(Setting(), old(View()), parsed, seen)
    {
      seen := o.(moves := []);
      if parsed.Failure? {
        return Some(ErrorEnvelope("", ErrorObject(-32700, "parse error", None))), seen;
      }
      var request := parsed.value;
      if !request.Obj? {
        return Some(ErrorEnvelope("", ErrorObject(-32600, "invalid request", None))), seen;
      }
      var id, m := GetString(request, "id", ""), RequestedMethod(request);
      if m.None? {
        var message := "method not found: " + GetString(request, "method", "");
        return Some(ErrorEnvelope(id, ErrorObject(-32601, message, None))), seen;
      }
      var result;
      result, seen := Call(m.value, Params(request), o);
      answer := if result.None? then None else Some(Wrapped(id, result.value));
    }

    /** None when the handler throws. */
    method Handle(text: string, o: Outside) returns (reply: Option<string>, ghost seen: Outside)
      requires Valid()
      modifies Footprint()
      ensures Valid() && seen == o.(moves := seen.moves, listing := seen.listing)
      ensures FreezeProtocol.Run(old(freezer.View()), seen.moves).Some?
      ensures View() == Effect(Setting(), old(View()), text, fl, seen)
      ensures reply == match Answer(Setting(), old(View()), text, fl, seen)
                       case None => None
                       case Some(answer) => Some(Encode(answer, fl))
    {
      var parsed := JsonDecode(text, fl);
      var answer;
      answer, seen := Respond(parsed, o);
      if answer.None? {
        return None, seen;
      }
      var printed := JsonEncode(answer.value, fl);
      reply := Some(printed);
    }
  }
}
