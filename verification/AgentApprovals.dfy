/**
  The agent's approval protocol: a preview that passes the policy leaves a pending approval, an apply
  takes it away before it asks the policy, and only then writes memory. A state machine over whole runs, in
  which the freeze manager and its workers move as well: they share the target's memory and ask nobody.
*/
module AgentApprovals {
  import opened Common
  import opened ByteMemory
  import opened JsonCodec
  import opened PolicyGate
  import RateLimit
  import opened HexValues
  import FreezeProtocol

  /** How long an approval lasts, in milliseconds. */
  const APPROVAL_TTL: int := 300_000

  // ---------------------------------------------------------------- reading parameters

  /** The value of the first member with the key. */
  function Lookup(members: seq<Member>, key: string): Option<Json> {
    if members == [] then None
    else if members[0].key == key then Some(members[0].value)
    else Lookup(members[1..], key)
  }

  lemma {:induction false} NoSuchKey(members: seq<Member>, key: string)
    requires forall i | 0 <= i < |members| :: members[i].key != key
    ensures Lookup(members, key).None?
  {
    if members != [] {
      NoSuchKey(members[1..], key);
    }
  }

  lemma {:induction false} LookupAt(members: seq<Member>, k: nat, key: string)
    requires k < |members| && members[k].key == key && forall j | 0 <= j < k :: members[j].key != key
    ensures Lookup(members, key) == Some(members[k].value)
  {
    if k > 0 {
      LookupAt(members[1..], k - 1, key);
    }
  }

  function Get(v: Json, key: string): Option<Json> {
    if v.Obj? then Lookup(v.members, key) else None
  }

  function GetString(v: Json, key: string, fallback: string): string {
    match Get(v, key)
    case Some(Str(text)) => text
    case _ => fallback
  }

  /** The C++ conversion of a double to a 64-bit integer. */
  type Truncation = real -> Int64

  function GetInt(v: Json, key: string, fallback: Int64, truncate: Truncation): Int64 {
    match Get(v, key)
    case Some(Int(n)) => n
    case Some(Real(x)) => truncate(x)
    case _ => fallback
  }

  function GetBool(v: Json, key: string, fallback: bool): bool {
    match Get(v, key)
    case Some(Bool(flag)) => flag
    case _ => fallback
  }

  function CapabilityNamed(name: string): Capability {
    if name == "write" then CAP_WRITE
    else if name == "freeze" then CAP_FREEZE
    else if name == "unfreeze" then CAP_UNFREEZE
    else if name == "rollback" then CAP_ROLLBACK
    else if name == "parse" then CAP_PARSE
    else CAP_READ
  }

  /** The preview flag is read from the parameters whatever the method is. */
  function MakeRequest(params: Json, operation: string, truncate: Truncation): MutationRequest {
    MutationRequest(
      GetString(params, "request_id", ""), GetString(params, "target_alias", ""),
      CapabilityNamed(GetString(params, "capability", "read")),
      GetBool(params, "preview", false), GetBool(params, "approved", false),
      GetString(params, "expected_current_hash", ""),
      Wrap(GetInt(params, "address", 0, truncate)), Wrap(GetInt(params, "size", 0, truncate)),
      GetString(params, "value_repr", operation))
  }

  // ---------------------------------------------------------------- the state machine

  /** What does not change: the manifests, the identity of the target and the runtime's conversion. */
  datatype Setting = Setting(manifests: seq<Manifest>, identity: Identity, truncate: Truncation)

  /** The policy, the pending approvals, and the freeze manager, whose memory is the target's. */
  datatype Agent = Agent(gate: Gate, pending: map<string, Token>, freezer: FreezeProtocol.State) {
    function Memory(): ByteMemory.Memory {
      freezer.mem
    }
  }

  /** written is what the backend answers to the write of an apply. */
  datatype Step =
    | Preview(params: Json, at: Readings, issued: int)
    | Apply(params: Json, at: Readings, written: FreezeProtocol.Outcome)
    | Switch(params: Json)
    | Freezer(move: FreezeProtocol.Label)

  function PreviewAttempt(c: Setting, params: Json, at: Readings): Attempt {
    PolicyGate.Attempt(c.identity, MakeRequest(params, "preview", c.truncate).(preview := true), None, at)
  }

  function ApplyAttempt(c: Setting, token: Token, params: Json, at: Readings): Attempt {
    PolicyGate.Attempt(c.identity, MakeRequest(params, "apply", c.truncate), Some(token), at)
  }

  function RequestId(params: Json): string {
    GetString(params, "request_id", "")
  }

  function MintedToken(params: Json, issued: int): Token {
    Token(RequestId(params), GetString(params, "target_alias", ""), issued, issued + APPROVAL_TTL)
  }

  /** A preview the policy accepts. */
  predicate Mints(c: Setting, s: Agent, step: Step) {
    step.Preview? && Verdict(s.gate, c.manifests, PreviewAttempt(c, step.params, step.at)).Success?
  }

  /** An apply that finds a pending approval. */
  predicate Consumes(s: Agent, step: Step) {
    step.Apply? && RequestId(step.params) in s.pending
  }

  /** An apply whose approval the policy accepts. */
  predicate Authorised(c: Setting, s: Agent, step: Step) {
    && Consumes(s, step)
    && Verdict(s.gate, c.manifests, ApplyAttempt(c, s.pending[RequestId(step.params)], step.params, step.at)).Success?
  }

  function ValueIn(params: Json): Value {
    ValueOf(GetString(params, "value_hex", ""))
  }

  /** An apply that gets as far as write_bytes. */
  predicate Writes(c: Setting, s: Agent, step: Step) {
    Authorised(c, s, step) && ValueIn(step.params).Bytes?
  }

  /** write_bytes of a request that is not valid writes nothing; otherwise the backend answers how much it wrote. */
  function WriteBytes(mem: Memory, address: Address, bytes: seq<Byte>, written: FreezeProtocol.Outcome): Memory {
    if ValidateRequest(address, |bytes|).Failure? then mem
    else FreezeProtocol.Put(mem, address, bytes, FreezeProtocol.Clip(written, |bytes|))
  }

  /** A full write reads back; no write reaches outside the bytes asked for. */
  lemma WriteBytesEffect(mem: Memory, address: Address, bytes: seq<Byte>, written: FreezeProtocol.Outcome)
    ensures var after := WriteBytes(mem, address, bytes, written);
            && (ValidateRequest(address, |bytes|).Success? && FreezeProtocol.Full(written, |bytes|) ==>
                  Load(after, address, |bytes|) == Success(bytes))
            && forall a: Address | !(address <= a < address + |bytes|) ::
                 (a in after <==> a in mem) && (a in after ==> after[a] == mem[a])
  {
    var after := WriteBytes(mem, address, bytes, written);
    if ValidateRequest(address, |bytes|).Success? && FreezeProtocol.Full(written, |bytes|) {
      assert bytes[..|bytes|] == bytes;
      assert Window(after, address, |bytes|) == bytes;
    }
  }

  function AfterPreview(c: Setting, s: Agent, params: Json, at: Readings, issued: int): Agent {
    var gate := AfterAttempt(s.gate, c.manifests, PreviewAttempt(c, params, at));
    if Mints(c, s, Step.Preview(params, at, issued))
    then s.(gate := gate, pending := s.pending[RequestId(params) := MintedToken(params, issued)])
    else s.(gate := gate)
  }

  function AfterApply(c: Setting, s: Agent, params: Json, at: Readings, written: FreezeProtocol.Outcome): Agent {
    var step := Apply(params, at, written);
    if !Consumes(s, step) then s
    else
      var id := RequestId(params);
      var attempt := ApplyAttempt(c, s.pending[id], params, at);
      var memory :=
        if Writes(c, s, step) then WriteBytes(s.Memory(), attempt.request.address, ValueIn(params).bytes, written)
        else s.Memory();
      Agent(AfterAttempt(s.gate, c.manifests, attempt), s.pending - {id}, s.freezer.(mem := memory))
  }

  function AfterSwitch(s: Agent, params: Json): Agent {
    s.(gate := s.gate.(killed := GetBool(params, "engage", true)))
  }

  /** A step of the freeze manager or of one of its workers; one that is not possible now changes nothing. */
  ghost function AfterFreezer(s: Agent, move: FreezeProtocol.Label): Agent {
    match FreezeProtocol.Next(s.freezer, move)
    case None => s
    case Some(freezer) => s.(freezer := freezer)
  }

  ghost function Next(c: Setting, s: Agent, step: Step): Agent {
    match step
    case Preview(params, at, issued) => AfterPreview(c, s, params, at, issued)
    case Apply(params, at, written) => AfterApply(c, s, params, at, written)
    case Switch(params) => AfterSwitch(s, params)
    case Freezer(move) => AfterFreezer(s, move)
  }

  /** The state after every step of a run. */
  ghost function Run(c: Setting, s: Agent, steps: seq<Step>): Agent {
    if steps == [] then s
    else
      var last := |steps| - 1;
      Next(c, Run(c, s, steps[..last]), steps[last])
  }

  ghost function Stepper(c: Setting): (Agent, Step) -> Agent {
    (s, step) => Next(c, s, step)
  }

  lemma {:induction false} RunIsFold(c: Setting, s: Agent, steps: seq<Step>)
    ensures Run(c, s, steps) == Fold(Stepper(c), s, steps)
  {
    if steps != [] {
      RunIsFold(c, s, steps[..|steps| - 1]);
    }
  }

  lemma RunAppend(c: Setting, s: Agent, xs: seq<Step>, ys: seq<Step>)
    ensures Run(c, s, xs + ys) == Run(c, Run(c, s, xs), ys)
  {
    RunIsFold(c, s, xs + ys);
    RunIsFold(c, s, xs);
    RunIsFold(c, Run(c, s, xs), ys);
    FoldAppend(Stepper(c), s, xs, ys);
  }

  /** The state in which step k of a run is taken. */
  ghost function Before(c: Setting, s: Agent, steps: seq<Step>, k: nat): Agent
    requires k <= |steps|
  {
    Run(c, s, steps[..k])
  }

  ghost predicate MintsAt(c: Setting, s: Agent, steps: seq<Step>, k: nat, id: string)
    requires k < |steps|
  {
    Mints(c, Before(c, s, steps, k), steps[k]) && RequestId(steps[k].params) == id
  }

  ghost predicate WritesAt(c: Setting, s: Agent, steps: seq<Step>, k: nat, id: string)
    requires k < |steps|
  {
    Writes(c, Before(c, s, steps, k), steps[k]) && RequestId(steps[k].params) == id
  }

  ghost function MintCount(c: Setting, s: Agent, steps: seq<Step>, id: string): nat {
    if steps == [] then 0
    else
      var last := |steps| - 1;
      MintCount(c, s, steps[..last], id) + if MintsAt(c, s, steps, last, id) then 1 else 0
  }

  ghost function WriteCount(c: Setting, s: Agent, steps: seq<Step>, id: string): nat {
    if steps == [] then 0
    else
      var last := |steps| - 1;
      WriteCount(c, s, steps[..last], id) + if WritesAt(c, s, steps, last, id) then 1 else 0
  }

  ghost function ConsumeCount(c: Setting, s: Agent, steps: seq<Step>, id: string): nat {
    if steps == [] then 0
    else
      var last := |steps| - 1;
      var consumes := Consumes(Before(c, s, steps, last), steps[last]) && RequestId(steps[last].params) == id;
      ConsumeCount(c, s, steps[..last], id) + if consumes then 1 else 0
  }

  // ---------------------------------------------------------------- single use

  /** A pending approval is one preview not used yet; a second preview of the same id replaces the first. */
  lemma {:induction false} ApprovalsAreCounted(c: Setting, s: Agent, steps: seq<Step>, id: string)
    requires s.pending == map[]
    ensures WriteCount(c, s, steps, id) <= ConsumeCount(c, s, steps, id)
    ensures ConsumeCount(c, s, steps, id) + (if id in Run(c, s, steps).pending then 1 else 0) <= MintCount(c, s, steps, id)
  {
    if steps != [] {
      ApprovalsAreCounted(c, s, steps[..|steps| - 1], id);
    }
  }

  /** In every run, and so in every part of a run from its start, no more applies write than previews succeeded. */
  lemma ApprovalsAreSingleUse(c: Setting, s: Agent, steps: seq<Step>, id: string)
    requires s.pending == map[]
    ensures forall k | 0 <= k <= |steps| :: WriteCount(c, s, steps[..k], id) <= MintCount(c, s, steps[..k], id)
  {
    forall k | 0 <= k <= |steps| ensures WriteCount(c, s, steps[..k], id) <= MintCount(c, s, steps[..k], id) {
      ApprovalsAreCounted(c, s, steps[..k], id);
    }
  }

  // ---------------------------------------------------------------- where an approval comes from

  predicate AppliedAt(steps: seq<Step>, k: nat, id: string)
    requires k < |steps|
  {
    steps[k].Apply? && RequestId(steps[k].params) == id
  }

  /** Step k minted an approval of id, and no step since then, up to n, has minted or applied one. */
  ghost predicate Origin(c: Setting, s: Agent, steps: seq<Step>, k: nat, n: nat, id: string) {
    && k < n <= |steps| && MintsAt(c, s, steps, k, id)
    && forall j | k < j < n :: !MintsAt(c, s, steps, j, id) && !AppliedAt(steps, j, id)
  }

  /** A step leaves an approval of id pending if it mints one, or if one was pending and it does not apply it. */
  lemma StepMovesPending(c: Setting, s: Agent, step: Step, id: string)
    ensures var pending := Next(c, s, step).pending;
            var minted := Mints(c, s, step) && RequestId(step.params) == id;
            && (id in pending <==> minted || (id in s.pending && !(step.Apply? && RequestId(step.params) == id)))
            && (minted ==> pending[id] == MintedToken(step.params, step.issued))
            && (!minted && id in pending ==> pending[id] == s.pending[id])
  {
  }

  lemma PendingAfter(c: Setting, s: Agent, steps: seq<Step>, n: nat, id: string)
    requires n < |steps|
    ensures var before, after := Before(c, s, steps, n).pending, Before(c, s, steps, n + 1).pending;
            && (id in after <==> MintsAt(c, s, steps, n, id) || (id in before && !AppliedAt(steps, n, id)))
            && (MintsAt(c, s, steps, n, id) ==> after[id] == MintedToken(steps[n].params, steps[n].issued))
            && (!MintsAt(c, s, steps, n, id) && id in after ==> after[id] == before[id])
  {
    assert steps[..n + 1][..n] == steps[..n];
    StepMovesPending(c, Before(c, s, steps, n), steps[n], id);
  }

  /** What a run does with the approval of one id: where it mints one, where it applies it, and what is pending when. */
  ghost function Minted(c: Setting, s: Agent, steps: seq<Step>, id: string): (r: seq<bool>)
    ensures |r| == |steps|
  {
    seq(|steps|, k requires 0 <= k < |steps| => MintsAt(c, s, steps, k, id))
  }

  function Applied(steps: seq<Step>, id: string): (r: seq<bool>)
    ensures |r| == |steps|
  {
    seq(|steps|, k requires 0 <= k < |steps| => AppliedAt(steps, k, id))
  }

  function Issued(steps: seq<Step>): (r: seq<Option<Token>>)
    ensures |r| == |steps|
  {
    seq(|steps|, k requires 0 <= k < |steps| =>
      if steps[k].Preview? then Some(MintedToken(steps[k].params, steps[k].issued)) else None)
  }

  ghost function Pending(c: Setting, s: Agent, steps: seq<Step>, id: string): (r: seq<Option<Token>>)
    ensures |r| == |steps| + 1
  {
    seq(|steps| + 1, k requires 0 <= k <= |steps| =>
      var pending := Before(c, s, steps, k).pending;
      if id in pending then Some(pending[id]) else None)
  }

  /** A mark sets the register, a wipe clears it, and otherwise it stays. */
  ghost predicate Register<T>(marks: seq<bool>, wipes: seq<bool>, values: seq<T>, register: seq<T>, empty: T) {
    && |marks| == |wipes| == |values| == |register| - 1
    && forall k | 0 <= k < |marks| ::
         register[k + 1] == if marks[k] then values[k] else if wipes[k] then empty else register[k]
  }

  /** k is the last mark before n, and nothing has been wiped since. */
  predicate LastMark(marks: seq<bool>, wipes: seq<bool>, k: nat, n: nat) {
    && k < n <= |marks| == |wipes| && marks[k]
    && forall j | k < j < n :: !marks[j] && !wipes[j]
  }

  lemma {:induction false} FilledByLastMark<T>(marks: seq<bool>, wipes: seq<bool>, values: seq<T>, register: seq<T>, empty: T,
                                               n: nat) returns (k: nat)
    requires Register(marks, wipes, values, register, empty) && n <= |marks|
    requires register[0] == empty && register[n] != empty
    ensures LastMark(marks, wipes, k, n)
  {
    if marks[n - 1] {
      k := n - 1;
    } else {
      k := FilledByLastMark(marks, wipes, values, register, empty, n - 1);
    }
  }

  lemma {:induction false} LastMarkFills<T>(marks: seq<bool>, wipes: seq<bool>, values: seq<T>, register: seq<T>, empty: T,
                                            k: nat, n: nat)
    requires Register(marks, wipes, values, register, empty) && LastMark(marks, wipes, k, n)
    ensures register[n] == values[k]
  {
    if k < n - 1 {
      LastMarkFills(marks, wipes, values, register, empty, k, n - 1);
    }
  }

  lemma PendingIsRegister(c: Setting, s: Agent, steps: seq<Step>, id: string)
    ensures Register(Minted(c, s, steps, id), Applied(steps, id), Issued(steps), Pending(c, s, steps, id), None)
  {
    forall k | 0 <= k < |steps|
      ensures Pending(c, s, steps, id)[k + 1]
           == if Minted(c, s, steps, id)[k] then Issued(steps)[k]
              else if Applied(steps, id)[k] then None else Pending(c, s, steps, id)[k]
    {
      PendingAfter(c, s, steps, k, id);
    }
  }

  lemma OriginIsLastMark(c: Setting, s: Agent, steps: seq<Step>, k: nat, n: nat, id: string)
    ensures Origin(c, s, steps, k, n, id) <==> LastMark(Minted(c, s, steps, id), Applied(steps, id), k, n)
  {
    var minted, applied := Minted(c, s, steps, id), Applied(steps, id);
    if Origin(c, s, steps, k, n, id) {
      forall j | k < j < n ensures !minted[j] && !applied[j] {
        assert !MintsAt(c, s, steps, j, id) && !AppliedAt(steps, j, id);
      }
    }
    if LastMark(minted, applied, k, n) {
      forall j | k < j < n ensures !MintsAt(c, s, steps, j, id) && !AppliedAt(steps, j, id) {
        assert !minted[j] && !applied[j];
      }
    }
  }

  // ---------------------------------------------------------------- which applies write

  predicate Flagged(params: Json) {
    GetBool(params, "preview", false)
  }

  /** What the policy asks of the request of an apply whatever its flags. */
  predicate SoundApply(c: Setting, g: Gate, params: Json) {
    Sound(g.killed, c.manifests, c.identity, MakeRequest(params, "apply", c.truncate))
  }

  predicate SlotFree(g: Gate, alias: string, now: int) {
    RateLimit.Admits(RateLimit.WindowOf(g.windows, alias), now, MAX_PER_MINUTE)
  }

  /**
    Exactly which applies write: those with a pending approval, bytes to write and a sound request that either
    carry the preview flag themselves, or are approved, fit their approval and find the limiter willing.
  */
  lemma WritesIff(c: Setting, s: Agent, step: Step)
    requires step.Apply?
    ensures Writes(c, s, step) <==>
              && RequestId(step.params) in s.pending && ValueIn(step.params).Bytes? && SoundApply(c, s.gate, step.params)
              && (Flagged(step.params)
                  || (&& GetBool(step.params, "approved", false)
                      && Fits(s.pending[RequestId(step.params)], step.params, step.at.token)
                      && SlotFree(s.gate, GetString(step.params, "target_alias", ""), step.at.limiter)))
  {
    var id := RequestId(step.params);
    if id in s.pending {
      AcceptedIff(s.gate, c.manifests, ApplyAttempt(c, s.pending[id], step.params, step.at));
    }
  }

  /** The approval was given for this request and alias, and has not run out. */
  predicate Fits(token: Token, params: Json, now: int) {
    && token.requestId == RequestId(params) && token.alias == GetString(params, "target_alias", "")
    && token.issuedAt <= now <= token.expiresAt
  }

  /** Step n is an apply for the request previewed with success at k, which nobody has previewed again or applied since. */
  ghost predicate AnswersPreview(c: Setting, s: Agent, steps: seq<Step>, k: nat, n: nat) {
    n < |steps| && steps[n].Apply? && Origin(c, s, steps, k, n, RequestId(steps[n].params))
  }

  /** What step n needs besides its preview k. */
  ghost predicate Permitted(c: Setting, s: Agent, steps: seq<Step>, k: nat, n: nat)
    requires k < |steps| && n < |steps| && steps[k].Preview? && steps[n].Apply?
  {
    var preview, apply, g := steps[k], steps[n], Before(c, s, steps, n).gate;
    && ValueIn(apply.params).Bytes? && SoundApply(c, g, apply.params)
    && (Flagged(apply.params)
        || (&& GetBool(apply.params, "approved", false)
            && GetString(preview.params, "target_alias", "") == GetString(apply.params, "target_alias", "")
            && preview.issued <= apply.at.token <= preview.issued + APPROVAL_TTL
            && SlotFree(g, GetString(apply.params, "target_alias", ""), apply.at.limiter)))
  }

  /** The pending approval of an apply and the preview it answers are the same thing. */
  lemma PendingIffPreview(c: Setting, s: Agent, steps: seq<Step>, n: nat)
    requires s.pending == map[] && n < |steps| && steps[n].Apply?
    ensures Consumes(Before(c, s, steps, n), steps[n]) <==> exists k: nat :: AnswersPreview(c, s, steps, k, n)
    ensures forall k: nat | AnswersPreview(c, s, steps, k, n) ::
              && Consumes(Before(c, s, steps, n), steps[n])
              && Before(c, s, steps, n).pending[RequestId(steps[n].params)] == MintedToken(steps[k].params, steps[k].issued)
  {
    var id := RequestId(steps[n].params);
    var minted, applied, issued, pending := Minted(c, s, steps, id), Applied(steps, id), Issued(steps), Pending(c, s, steps, id);
    PendingIsRegister(c, s, steps, id);
    assert pending[0].None? && (pending[n].Some? <==> Consumes(Before(c, s, steps, n), steps[n]));
    if pending[n].Some? {
      var k := FilledByLastMark(minted, applied, issued, pending, None, n);
      OriginIsLastMark(c, s, steps, k, n, id);
      assert AnswersPreview(c, s, steps, k, n);
    }
    forall k: nat | AnswersPreview(c, s, steps, k, n) ensures pending[n] == issued[k] && issued[k].Some? {
      OriginIsLastMark(c, s, steps, k, n, id);
      LastMarkFills(minted, applied, issued, pending, None, k, n);
    }
  }

  /**
    Over any run from an agent without approvals: an apply writes if and only if it answers an earlier
    successful preview of its request that nobody has replaced or used, and it is permitted.
  */
  lemma WriteIffPreviewed(c: Setting, s: Agent, steps: seq<Step>, n: nat)
    requires s.pending == map[] && n < |steps| && steps[n].Apply?
    ensures Writes(c, Before(c, s, steps, n), steps[n])
       <==> exists k: nat :: AnswersPreview(c, s, steps, k, n) && Permitted(c, s, steps, k, n)
  {
    PendingIffPreview(c, s, steps, n);
    WritesIff(c, Before(c, s, steps, n), steps[n]);
    if k: nat :| AnswersPreview(c, s, steps, k, n) {
      assert Writes(c, Before(c, s, steps, n), steps[n]) <==> Permitted(c, s, steps, k, n);
    }
  }

  // ---------------------------------------------------------------- the kill switch

  /**
    While the kill switch is engaged no step mints an approval or writes as an apply, and an apply still loses
    its own. The freeze manager is not asked: only its own steps change it, and they do as they would anyway.
  */
  lemma KilledStepAddsNothing(c: Setting, s: Agent, step: Step)
    requires s.gate.killed
    ensures !Mints(c, s, step) && !Writes(c, s, step)
    ensures Next(c, s, step).freezer == if step.Freezer? then AfterFreezer(s, step.move).freezer else s.freezer
    ensures Next(c, s, step).pending == if Consumes(s, step) then s.pending - {RequestId(step.params)} else s.pending
    ensures Next(c, s, step).gate.killed <==> !step.Switch? || GetBool(step.params, "engage", true)
  {
    if step.Preview? {
      AcceptedIff(s.gate, c.manifests, PreviewAttempt(c, step.params, step.at));
    } else if Consumes(s, step) {
      AcceptedIff(s.gate, c.manifests, ApplyAttempt(c, s.pending[RequestId(step.params)], step.params, step.at));
    }
  }

  predicate NeverReleases(steps: seq<Step>) {
    forall step | step in steps :: step.Switch? ==> GetBool(step.params, "engage", true)
  }

  lemma NeverReleasesFront(steps: seq<Step>)
    requires NeverReleases(steps) && steps != []
    ensures NeverReleases(steps[..|steps| - 1])
    ensures var step := steps[|steps| - 1]; step.Switch? ==> GetBool(step.params, "engage", true)
  {
    assert forall step | step in steps[..|steps| - 1] :: step in steps;
    assert steps[|steps| - 1] in steps;
  }

  /** Over any run that does not release it, an engaged kill switch stays engaged and adds no approval. */
  lemma {:induction false} KilledRunStaysKilled(c: Setting, s: Agent, steps: seq<Step>)
    requires s.gate.killed && NeverReleases(steps)
    ensures Run(c, s, steps).gate.killed
    ensures Run(c, s, steps).pending.Items <= s.pending.Items
  {
    if steps != [] {
      var last := |steps| - 1;
      NeverReleasesFront(steps);
      KilledRunStaysKilled(c, s, steps[..last]);
      KilledStepAddsNothing(c, Run(c, s, steps[..last]), steps[last]);
    }
  }

  /** And in none of its steps does a preview succeed or an apply write. */
  lemma KilledRunAddsNothing(c: Setting, s: Agent, steps: seq<Step>)
    requires s.gate.killed && NeverReleases(steps)
    ensures Run(c, s, steps).gate.killed
    ensures Run(c, s, steps).pending.Items <= s.pending.Items
    ensures forall k | 0 <= k < |steps| ::
              !Mints(c, Before(c, s, steps, k), steps[k]) && !Writes(c, Before(c, s, steps, k), steps[k])
  {
    KilledRunStaysKilled(c, s, steps);
    forall k | 0 <= k < |steps|
      ensures !Mints(c, Before(c, s, steps, k), steps[k]) && !Writes(c, Before(c, s, steps, k), steps[k])
    {
      assert forall step | step in steps[..k] :: step in steps;
      KilledRunStaysKilled(c, s, steps[..k]);
      KilledStepAddsNothing(c, Before(c, s, steps, k), steps[k]);
    }
  }
}
