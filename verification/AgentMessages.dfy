/**
  What the agent answers: the object each handler builds, and the envelope every request gets. What the
  clock and the backend say, how the workers move meanwhile, and the wording of errors come from outside.
*/
module AgentMessages {
  import opened Common
  import opened ByteMemory
  import opened JsonCodec
  import opened JsonRoundTrip
  import opened PolicyGate
  import opened HexValues
  import opened AgentApprovals
  import FreezeProtocol
  import FreezeRuns
  import PointerChain
  import CheatTables

  /** The message of an error. */
  type Wording = ErrorCode -> string

  /**
    Everything one request learns from outside the agent: the clock, what the manager's threads do until the
    handler returns (moves), what the backend answers to its write (written) and to the last write of a worker
    that is being stopped (last), and the order in which the hash map lists the freezes.
  */
  datatype Outside = Outside(
    alive: bool, at: Readings, issued: Int64,
    moves: seq<FreezeProtocol.Label>, written: FreezeProtocol.Outcome, last: FreezeProtocol.Outcome, listing: seq<nat>,
    parse: CheatTables.ParseInt, wording: Wording, why: CheatTables.Reason -> string,
    diagnostics: seq<string>, hotkeys: CheatTables.CheatEntry -> seq<Int64>)

  function CodeOf(e: ErrorCode): Int64 {
    match e
    case NotConnected => 1001
    case TargetIdentityMismatch => 1004
    case TargetDead => 1005
    case InvalidAddress => 2001
    case InvalidSize => 2002
    case InvalidOffsets => 2003
    case InvalidEntryId => 2005
    case InvalidType => 2006
    case InvalidString => 2007
    case ReadFailed => 3001
    case WriteFailed => 3003
    case PartialWrite => 3004
    case SnapshotMissing => 3006
    case ParseFailed => 4001
    case ParseUnsupported => 4002
    case PolicyDenied => 5001
    case ApprovalRequired => 5002
    case CapabilityMissing => 5003
    case RateLimited => 5004
    case Timeout => 6001
  }

  function NameOf(e: ErrorCode): string {
    match e
    case NotConnected => "not_connected"
    case TargetIdentityMismatch => "target_identity_mismatch"
    case TargetDead => "target_dead"
    case InvalidAddress => "invalid_address"
    case InvalidSize => "invalid_size"
    case InvalidOffsets => "invalid_offsets"
    case InvalidEntryId => "invalid_entry_id"
    case InvalidType => "invalid_type"
    case InvalidString => "invalid_string"
    case ReadFailed => "read_failed"
    case WriteFailed => "write_failed"
    case PartialWrite => "partial_write"
    case SnapshotMissing => "snapshot_missing"
    case ParseFailed => "parse_failed"
    case ParseUnsupported => "parse_unsupported"
    case PolicyDenied => "policy_denied"
    case ApprovalRequired => "approval_required"
    case CapabilityMissing => "capability_missing"
    case RateLimited => "rate_limited"
    case Timeout => "timeout"
  }

  /** The 64-bit pattern of a number read as a signed integer. */
  function Signed64(n: int): Int64 {
    var m := Wrap(n);
    if m <= MAX_INT64 then m else m - ADDRESS_SPACE
  }

  // ---------------------------------------------------------------- envelopes

  const VERSION: Member := Member("jsonrpc", Str("2.0"))

  function ErrorObject(code: Int64, message: string, data: Option<string>): Json {
    Obj([Member("code", Int(code)), Member("message", Str(message))]
        + if data.Some? then [Member("data", Str(data.value))] else [])
  }

  function ErrorEnvelope(id: string, error: Json): Json {
    Obj([VERSION, Member("id", Str(id)), Member("error", error)])
  }

  function Envelope(id: string, result: Json): Json {
    Obj([VERSION, Member("id", Str(id)), Member("result", result)])
  }

  /** error_response with the error it is about. */
  function Refuse(wording: Wording, params: Json, e: ErrorCode): Json {
    ErrorEnvelope(RequestId(params), ErrorObject(CodeOf(e), wording(e), Some(NameOf(e))))
  }

  /** error_response without one. */
  function RefusePlain(wording: Wording, params: Json, e: ErrorCode): Json {
    ErrorEnvelope(RequestId(params), ErrorObject(CodeOf(e), wording(e), None))
  }

  // ---------------------------------------------------------------- handlers

  function InspectReply(id: Identity): Json {
    Obj([ Member("target", Obj([
            Member("pid", Int(Signed64(id.pid))), Member("image_path", Str(id.imagePath)),
            Member("image_sha256", Str(id.imageSha256)), Member("architecture", Str(ArchitectureName(id.architecture))),
            Member("start_time", Int(Signed64(id.startTime)))])),
          Member("capabilities", Obj([
            Member("read", Bool(true)), Member("write", Bool(false)),
            Member("freeze", Bool(false)), Member("rollback", Bool(false))])) ])
  }

  function ReadReply(params: Json, truncate: Truncation, o: Outside, mem: Memory): Json {
    var address, size := Wrap(GetInt(params, "address", 0, truncate)), Wrap(GetInt(params, "size", 4, truncate));
    if !o.alive then RefusePlain(o.wording, params, TargetDead)
    else
      match Load(mem, address, size)
      case Failure(e) => Refuse(o.wording, params, e)
      case Success(bytes) =>
        Obj([Member("address", Int(Signed64(address))), Member("size", Int(Signed64(|bytes|))),
             Member("hex", Str(HexText(bytes)))])
  }

  function VerifyReply(params: Json, truncate: Truncation, o: Outside, mem: Memory): Json {
    var address, size := Wrap(GetInt(params, "address", 0, truncate)), Wrap(GetInt(params, "size", 4, truncate));
    match Load(mem, address, size)
    case Failure(e) => Refuse(o.wording, params, e)
    case Success(bytes) => Obj([Member("hex", Str(HexText(bytes)))])
  }

  /** The integers among the items; anything else is passed over. */
  function Offsets(items: seq<Json>): seq<Address> {
    if items == [] then []
    else (if items[0].Int? then [Wrap(items[0].integer)] else []) + Offsets(items[1..])
  }

  function ResolveReply(params: Json, truncate: Truncation, o: Outside, mem: Memory): Json {
    var base := Wrap(GetInt(params, "base", 0, truncate));
    var node := Get(params, "offsets");
    var offsets := if node.Some? && node.value.Arr? then Offsets(node.value.items) else [];
    match if offsets == [] then Failure(InvalidOffsets) else PointerChain.SessionWalk(mem, base, offsets)
    case Failure(e) => Refuse(o.wording, params, e)
    case Success(address) => Obj([Member("address", Int(Signed64(address)))])
  }

  function PreviewReply(params: Json, o: Outside, verdict: Result<()>): Json {
    match verdict
    case Failure(e) => Refuse(o.wording, params, e)
    case Success(_) =>
      Obj([ Member("approval_token", Str(RequestId(params))), Member("issued_at_ms", Int(o.issued)),
            Member("expires_at_ms", Int(Signed64(o.issued as int + APPROVAL_TTL))),
            Member("target", Str(GetString(params, "target_alias", ""))) ])
  }

  /** After write_bytes with these bytes. */
  function WrittenReply(params: Json, truncate: Truncation, o: Outside, bytes: seq<Byte>): Json {
    var address := MakeRequest(params, "apply", truncate).address;
    match ValidateRequest(address, |bytes|)
    case Failure(e) => Refuse(o.wording, params, e)
    case Success(_) =>
      match FreezeProtocol.Clip(o.written, |bytes|)
      case Failed => Refuse(o.wording, params, WriteFailed)
      case Wrote(n) =>
        if n != |bytes| then RefusePlain(o.wording, params, PartialWrite)
        else Obj([Member("bytes_written", Int(Signed64(n))), Member("address", Int(Signed64(address)))])
  }

  /** After the policy has accepted the apply; None when the conversion of value_hex throws. */
  function AuthorisedReply(params: Json, truncate: Truncation, o: Outside): Option<Json> {
    match ValueIn(params)
    case OddLength => Some(RefusePlain(o.wording, params, InvalidString))
    case Malformed => None
    case Bytes(bytes) => Some(WrittenReply(params, truncate, o, bytes))
  }

  function ApplyReply(c: Setting, s: Agent, params: Json, o: Outside): Option<Json> {
    if !Consumes(s, Apply(params, o.at, o.written)) then Some(RefusePlain(o.wording, params, PolicyDenied))
    else
      match Verdict(s.gate, c.manifests, ApplyAttempt(c, s.pending[RequestId(params)], params, o.at))
      case Failure(e) => Some(Refuse(o.wording, params, e))
      case Success(_) => AuthorisedReply(params, c.truncate, o)
  }

  function SwitchReply(params: Json): Json {
    Obj([Member("engaged", Bool(GetBool(params, "engage", true)))])
  }

  /** restored is what the manager's restore returned. */
  function RestoreReply(params: Json, wording: Wording, restored: Result<()>): Json {
    match restored
    case Failure(e) => Refuse(wording, params, e)
    case Success(_) => Obj([Member("restored", Bool(true))])
  }

  function FreezeRequestOf(params: Json, truncate: Truncation): FreezeProtocol.FreezeRequest {
    FreezeProtocol.FreezeRequest(
      GetString(params, "id", ""), Wrap(GetInt(params, "address", 0, truncate)), GetString(params, "type", "uint32"),
      Wrap(GetInt(params, "value", 0, truncate)), GetInt(params, "interval_ms", 50, truncate),
      Wrap(GetInt(params, "size", 0, truncate)))
  }

  function FreezeReply(params: Json, wording: Wording, frozen: Result<()>): Json {
    match frozen
    case Failure(e) => Refuse(wording, params, e)
    case Success(_) => Obj([Member("active", Bool(true)), Member("id", Str(GetString(params, "id", "")))])
  }

  function UnfreezeReply(params: Json, wording: Wording, unfrozen: Result<()>): Json {
    match unfrozen
    case Failure(e) => Refuse(wording, params, e)
    case Success(_) => Obj([Member("unfrozen", Bool(true))])
  }

  function StatusObject(s: FreezeProtocol.FreezeStatus): Json {
    Obj([ Member("id", Str(s.id)), Member("active", Bool(s.active)),
          Member("successful_rewrites", Int(Signed64(s.rewrites))), Member("failed_rewrites", Int(Signed64(s.failures))) ])
  }

  function StatusObjects(statuses: seq<FreezeProtocol.FreezeStatus>): (r: seq<Json>)
    ensures forall i | 0 <= i < |r| :: RealFree(r[i])
  {
    if statuses == [] then [] else [StatusObject(statuses[0])] + StatusObjects(statuses[1..])
  }

  function OneStatusReply(params: Json, wording: Wording, status: Result<FreezeProtocol.FreezeStatus>): Json {
    match status
    case Failure(e) => Refuse(wording, params, e)
    case Success(s) => Obj([Member("freeze", StatusObject(s))])
  }

  function AllStatusReply(statuses: seq<FreezeProtocol.FreezeStatus>): Json {
    Obj([Member("freezes", Arr(StatusObjects(statuses)))])
  }

  /** A listing that does not name every freeze once is read as the order of freezing. */
  function StatusReply(params: Json, o: Outside, s: FreezeProtocol.State): Json {
    var id, n := GetString(params, "id", ""), |s.entries|;
    if id != "" then OneStatusReply(params, o.wording, FreezeProtocol.StatusResult(s.entries, id))
    else if FreezeProtocol.Visited(s.entries, {}, o.listing) then AllStatusReply(FreezeProtocol.Listed(s.entries, o.listing))
    else AllStatusReply(seq(n, i requires 0 <= i < n => FreezeProtocol.StatusOf(s.entries[i])))
  }

  function TypeName(t: Option<CheatTables.VariableType>): string {
    match t
    case None => "unknown"
    case Some(UInt8) => "uint8"
    case Some(Int8) => "int8"
    case Some(UInt16) => "uint16"
    case Some(Int16) => "int16"
    case Some(UInt32) => "uint32"
    case Some(Int32) => "int32"
    case Some(UInt64) => "uint64"
    case Some(Int64Type) => "int64"
    case Some(Float32) => "float32"
    case Some(Float64) => "float64"
    case Some(StringType) => "string"
    case Some(BytesType) => "bytes"
  }

  function Integers(numbers: seq<Int64>): (r: seq<Json>)
    ensures forall i | 0 <= i < |r| :: RealFree(r[i])
  {
    if numbers == [] then [] else [Int(numbers[0])] + Integers(numbers[1..])
  }

  function SupportedObjects(entries: seq<CheatTables.CheatEntry>, o: Outside): (r: seq<Json>)
    ensures forall i | 0 <= i < |r| :: RealFree(r[i])
  {
    if entries == [] then []
    else
      var e := entries[0];
      [Obj([ Member("id", Str(e.id)), Member("description", Str(e.description)), Member("address", Int(Signed64(e.address))),
             Member("type", Str(TypeName(e.variableType))), Member("is_signed", Bool(e.signed)),
             Member("hotkeys", Arr(Integers(o.hotkeys(e)))) ])]
      + SupportedObjects(entries[1..], o)
  }

  function UnsupportedObjects(entries: seq<CheatTables.CheatEntry>, o: Outside): (r: seq<Json>)
    ensures forall i | 0 <= i < |r| :: RealFree(r[i])
  {
    if entries == [] then []
    else
      var e := entries[0];
      [Obj([ Member("id", Str(e.id)), Member("reason", Str(if e.reason.Some? then o.why(e.reason.value) else "")) ])]
      + UnsupportedObjects(entries[1..], o)
  }

  function Texts(lines: seq<string>): (r: seq<Json>)
    ensures forall i | 0 <= i < |r| :: RealFree(r[i])
  {
    if lines == [] then [] else [Str(lines[0])] + Texts(lines[1..])
  }

  function TableObject(table: CheatTables.CheatTable, o: Outside): Json {
    Obj([ Member("supported", Arr(SupportedObjects(table.entries, o))),
          Member("unsupported", Arr(UnsupportedObjects(table.unsupported, o))),
          Member("diagnostics", Arr(Texts(o.diagnostics))) ])
  }

  function ParseReply(params: Json, o: Outside): Json {
    match CheatTables.TableOf(GetString(params, "xml", ""), o.parse)
    case Failure(e) => Refuse(o.wording, params, e)
    case Success(table) => TableObject(table, o)
  }

  // ---------------------------------------------------------------- dispatch

  datatype Method =
    | Inspect | Read | Resolve | PreviewMethod | ApplyMethod | Verify
    | Restore | Freeze | Unfreeze | Status | ParseMethod | KillSwitchMethod

  /** None for a method the agent does not have. */
  function MethodNamed(name: string): Option<Method> {
    if name == "inspect" then Some(Inspect)
    else if name == "read" then Some(Read)
    else if name == "resolve" then Some(Resolve)
    else if name == "preview" then Some(PreviewMethod)
    else if name == "apply" then Some(ApplyMethod)
    else if name == "verify" then Some(Verify)
    else if name == "restore" then Some(Restore)
    else if name == "freeze" then Some(Freeze)
    else if name == "unfreeze" then Some(Unfreeze)
    else if name == "status" then Some(Status)
    else if name == "parse" then Some(ParseMethod)
    else if name == "kill_switch" then Some(KillSwitchMethod)
    else None
  }

  // ---------------------------------------------------------------- what a request does

  /** The client steps a method may take of the freeze manager. Nobody asks the policy about them. */
  function OpsOf(s: FreezeProtocol.State, m: Method, params: Json, truncate: Truncation, written: FreezeProtocol.Outcome)
    : set<FreezeProtocol.Op>
  {
    match m
    case Freeze => FreezeProtocol.FreezeOps(FreezeRequestOf(params, truncate))
    case Unfreeze => FreezeProtocol.UnfreezeOps(GetString(params, "id", ""))
    case Restore =>
      var id := GetString(params, "freeze_id", "");
      if id == "" then {} else FreezeProtocol.RestoreOps(id, FreezeProtocol.AnsweredTo(s.entries, id, written))
    case _ => {}
  }

  /**
    After some moves of the workers and, as far as ops allows, of the client; what is not possible is passed over.
    Moves that leave the client's call unfinished are allowed as well.
  */
  ghost function Moved(s: FreezeProtocol.State, moves: seq<FreezeProtocol.Label>, ops: set<FreezeProtocol.Op>)
    : FreezeProtocol.State
  {
    if moves == [] then s
    else
      var t, move := Moved(s, moves[..|moves| - 1], ops), moves[|moves| - 1];
      if (move.Worker? || move.op in ops) && FreezeProtocol.Next(t, move).Some? then FreezeProtocol.Next(t, move).value else t
  }

  /** A run the manager performed, taken as the moves of a request. */
  lemma {:induction false} RunIsMoved(s: FreezeProtocol.State, moves: seq<FreezeProtocol.Label>, ops: set<FreezeProtocol.Op>)
    requires FreezeProtocol.Run(s, moves).Some? && FreezeProtocol.Within(moves, ops)
    ensures Moved(s, moves, ops) == FreezeProtocol.Run(s, moves).value
  {
    if moves != [] {
      var front, move := moves[..|moves| - 1], moves[|moves| - 1];
      assert moves == front + [move];
      FreezeProtocol.RunConcat(s, front, [move]);
      assert move in moves && forall m | m in front :: m in moves;
      RunIsMoved(s, front, ops);
      FreezeRuns.RunExtends(s, front, Moved(s, front, ops), move);
    }
  }

  /** The agent once the moves of a request are over; its own step comes then. */
  ghost function Meanwhile(c: Setting, s: Agent, m: Method, params: Json, o: Outside): Agent {
    s.(freezer := Moved(s.freezer, o.moves, OpsOf(s.freezer, m, params, c.truncate, o.written)))
  }

  /** What the handler itself does. */
  function OwnStep(c: Setting, s: Agent, m: Method, params: Json, o: Outside): Agent {
    match m
    case PreviewMethod => AfterPreview(c, s, params, o.at, o.issued)
    case ApplyMethod => AfterApply(c, s, params, o.at, o.written)
    case KillSwitchMethod => AfterSwitch(s, params)
    case _ => s
  }

  ghost function StateAfter(c: Setting, s: Agent, m: Method, params: Json, o: Outside): Agent {
    OwnStep(c, Meanwhile(c, s, m, params, o), m, params, o)
  }

  /** The handlers that call the manager. */
  predicate Manages(m: Method) {
    m.Freeze? || m.Unfreeze? || m.Restore?
  }

  /** What freeze returns. */
  ghost function FreezeResult(s: FreezeProtocol.State, request: FreezeProtocol.FreezeRequest): Result<()> {
    match FreezeProtocol.Snapshot(s, request)
    case Failure(e) => Failure(e)
    case Success(_) => Success(())
  }

  /** They answer by what is registered when they begin, which the workers do not change. */
  ghost function ManagerReply(s: FreezeProtocol.State, m: Method, params: Json, truncate: Truncation, wording: Wording,
                              written: FreezeProtocol.Outcome): Json
    requires Manages(m)
  {
    match m
    case Freeze => FreezeReply(params, wording, FreezeResult(s, FreezeRequestOf(params, truncate)))
    case Unfreeze => UnfreezeReply(params, wording, FreezeProtocol.UnfreezeResult(s.entries, GetString(params, "id", "")))
    case Restore =>
      var id := GetString(params, "freeze_id", "");
      if id == "" then RefusePlain(wording, params, InvalidEntryId)
      else RestoreReply(params, wording, FreezeProtocol.RestoreResult(s.entries, id, written))
  }

  /** The handlers that only read. */
  function ReadingReply(c: Setting, mem: Memory, m: Method, params: Json, o: Outside): Json {
    match m
    case Read => ReadReply(params, c.truncate, o, mem)
    case Resolve => ResolveReply(params, c.truncate, o, mem)
    case Verify => VerifyReply(params, c.truncate, o, mem)
    case ParseMethod => ParseReply(params, o)
    case _ => InspectReply(c.identity)
  }

  /** What the handler itself answers; None when it throws. */
  function OwnResult(c: Setting, s: Agent, m: Method, params: Json, o: Outside): Option<Json> {
    match m
    case PreviewMethod => Some(PreviewReply(params, o, Verdict(s.gate, c.manifests, PreviewAttempt(c, params, o.at))))
    case ApplyMethod => ApplyReply(c, s, params, o)
    case KillSwitchMethod => Some(SwitchReply(params))
    case Status => Some(StatusReply(params, o, s.freezer))
    case _ => Some(ReadingReply(c, s.Memory(), m, params, o))
  }

  /** Handlers that do not call the manager see the agent as the moves have left it. */
  ghost function ResultOf(c: Setting, s: Agent, m: Method, params: Json, o: Outside): Option<Json> {
    if Manages(m) then Some(ManagerReply(s.freezer, m, params, c.truncate, o.wording, o.written))
    else OwnResult(c, Meanwhile(c, s, m, params, o), m, params, o)
  }

  /** With no moves only the handler's own step is left. */
  lemma NothingMeanwhile(c: Setting, s: Agent, m: Method, params: Json, o: Outside)
    requires o.moves == []
    ensures Meanwhile(c, s, m, params, o) == s
  {
  }

  /** The first member with the key gets the value. */
  function Replaced(members: seq<Member>, key: string, value: Json): seq<Member> {
    if members == [] then []
    else if members[0].key == key then [Member(key, value)] + members[1..]
    else [members[0]] + Replaced(members[1..], key, value)
  }

  /** A result that already is an envelope only gets the request's id. */
  function Wrapped(id: string, result: Json): Json {
    if result.Obj? && Lookup(result.members, "jsonrpc").Some? then Obj(Replaced(result.members, "id", Str(id)))
    else Envelope(id, result)
  }

  function Params(request: Json): Json {
    match Get(request, "params")
    case Some(params) => params
    case None => Obj([])
  }

  /** The id a request text is answered under: its string id, or nothing. */
  function IdOf(text: string, fl: Floats): string {
    match Decode(text, fl)
    case Success(request) => GetString(request, "id", "")
    case Failure(_) => ""
  }

  /** The method and the parameters of a well-formed request. */
  function RequestedMethod(request: Json): Option<Method> {
    MethodNamed(GetString(request, "method", ""))
  }

  /** The text is a request object for this method with these parameters. */
  predicate Asks(text: string, fl: Floats, m: Method, params: Json) {
    && Decode(text, fl).Success? && Decode(text, fl).value.Obj?
    && RequestedMethod(Decode(text, fl).value) == Some(m) && Params(Decode(text, fl).value) == params
  }

  /** handle after parsing and before printing; None when it throws. */
  ghost function AnswerTo(c: Setting, s: Agent, parsed: Result<Json>, o: Outside): Option<Json> {
    match parsed
    case Failure(_) => Some(ErrorEnvelope("", ErrorObject(-32700, "parse error", None)))
    case Success(request) =>
      if !request.Obj? then Some(ErrorEnvelope("", ErrorObject(-32600, "invalid request", None)))
      else
        var id := GetString(request, "id", "");
        match RequestedMethod(request)
        case None => Some(ErrorEnvelope(id, ErrorObject(-32601, "method not found: " + GetString(request, "method", ""), None)))
        case Some(m) =>
          match ResultOf(c, s, m, Params(request), o)
          case None => None
          case Some(result) => Some(Wrapped(id, result))
  }

  /** What happens to the agent while a request is handled; workers move whatever the request says. */
  ghost function EffectOf(c: Setting, s: Agent, parsed: Result<Json>, o: Outside): Agent {
    var others := s.(freezer := Moved(s.freezer, o.moves, {}));
    match parsed
    case Failure(_) => others
    case Success(request) =>
      if !request.Obj? then others
      else
        match RequestedMethod(request)
        case None => others
        case Some(m) => StateAfter(c, s, m, Params(request), o)
  }

  ghost function Answer(c: Setting, s: Agent, text: string, fl: Floats, o: Outside): Option<Json> {
    AnswerTo(c, s, Decode(text, fl), o)
  }

  ghost function Effect(c: Setting, s: Agent, text: string, fl: Floats, o: Outside): Agent {
    EffectOf(c, s, Decode(text, fl), o)
  }

  // ---------------------------------------------------------------- every request is answered

  /** Exactly the members jsonrpc, id and one of result and error. */
  predicate IsAnswer(v: Json, id: string) {
    && v.Obj? && |v.members| == 3
    && v.members[0] == VERSION
    && v.members[1] == Member("id", Str(id))
    && (v.members[2].key == "result" || v.members[2].key == "error")
  }

  /** What handlers return: an error envelope, or an object that is no envelope. */
  predicate IsHandled(v: Json) {
    && v.Obj? && RealFree(v)
    && (Lookup(v.members, "jsonrpc").None?
        || (|v.members| == 3 && v.members[0] == VERSION && v.members[1].key == "id" && v.members[2].key == "error"))
  }

  lemma ErrorsAreHandled(id: string, code: Int64, message: string, data: Option<string>)
    ensures RealFree(ErrorObject(code, message, data))
    ensures IsHandled(ErrorEnvelope(id, ErrorObject(code, message, data)))
  {
    var e := ErrorObject(code, message, data);
    assert RealFree(e);
    assert RealFree(ErrorEnvelope(id, e));
  }

  lemma RefusalsAreHandled(wording: Wording, params: Json, e: ErrorCode)
    ensures IsHandled(Refuse(wording, params, e)) && IsHandled(RefusePlain(wording, params, e))
  {
    ErrorsAreHandled(RequestId(params), CodeOf(e), wording(e), Some(NameOf(e)));
    ErrorsAreHandled(RequestId(params), CodeOf(e), wording(e), None);
  }

  lemma WrappedIsAnswer(id: string, result: Json)
    requires IsHandled(result)
    ensures IsAnswer(Wrapped(id, result), id) && RealFree(Wrapped(id, result))
  {
    if Lookup(result.members, "jsonrpc").Some? {
      var m := result.members;
      assert m == [m[0]] + ([m[1]] + [m[2]]);
      assert m[1..] == [m[1]] + [m[2]] && m[1..][1..] == [m[2]];
      assert Replaced(m, "id", Str(id)) == [m[0]] + ([Member("id", Str(id))] + [m[2]]);
    }
  }
}
