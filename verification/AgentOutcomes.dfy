/**
  What the answer to a request says. For each handler: exactly when its answer has a result and when an error,
  and what either of them carries, looked up by key.
*/
module AgentOutcomes {
  import opened Common
  import opened ByteMemory
  import opened JsonCodec
  import opened PolicyGate
  import opened HexValues
  import opened AgentApprovals
  import opened AgentMessages
  import FreezeProtocol
  import PointerChain
  import CheatTables

  // ---------------------------------------------------------------- answers seen from outside

  /** There is a result and no error. */
  predicate HasResult(a: Option<Json>) {
    a.Some? && Get(a.value, "result").Some? && Get(a.value, "error").None?
  }

  /** There is a result, and under this key it has this value. */
  predicate Carries(a: Option<Json>, key: string, value: Json) {
    HasResult(a) && Get(Get(a.value, "result").value, key) == Some(value)
  }

  /** There is an error and no result. */
  predicate HasError(a: Option<Json>) {
    a.Some? && Get(a.value, "result").None? && Get(a.value, "error").Some?
  }

  /** There is an error, and it has this code. */
  predicate FailsWith(a: Option<Json>, code: Int64) {
    HasError(a) && Get(Get(a.value, "error").value, "code") == Some(Int(code))
  }

  lemma ErrorFails(id: string, code: Int64, message: string, data: Option<string>)
    ensures FailsWith(Some(ErrorEnvelope(id, ErrorObject(code, message, data))), code)
  {
    var error := ErrorObject(code, message, data);
    var m := ErrorEnvelope(id, error).members;
    NoSuchKey(m, "result");
    LookupAt(m, 2, "error");
    LookupAt(error.members, 0, "code");
  }

  /** A handler's error keeps its error object under the id of the request. */
  lemma WrappedError(id: string, own: string, error: Json)
    ensures Wrapped(id, ErrorEnvelope(own, error)) == ErrorEnvelope(id, error)
  {
    var m := ErrorEnvelope(own, error).members;
    LookupAt(m, 0, "jsonrpc");
    assert m == [m[0]] + ([m[1]] + [m[2]]);
    assert m[1..] == [m[1]] + [m[2]] && m[1..][1..] == [m[2]];
    assert Replaced(m, "id", Str(id)) == [m[0]] + ([Member("id", Str(id))] + [m[2]]);
  }

  lemma RefusalFails(id: string, wording: Wording, params: Json, e: ErrorCode)
    ensures FailsWith(Some(Wrapped(id, Refuse(wording, params, e))), CodeOf(e))
    ensures FailsWith(Some(Wrapped(id, RefusePlain(wording, params, e))), CodeOf(e))
  {
    WrappedError(id, RequestId(params), ErrorObject(CodeOf(e), wording(e), Some(NameOf(e))));
    WrappedError(id, RequestId(params), ErrorObject(CodeOf(e), wording(e), None));
    ErrorFails(id, CodeOf(e), wording(e), Some(NameOf(e)));
    ErrorFails(id, CodeOf(e), wording(e), None);
  }

  /** No two errors have the same code, and none has one of the three codes of the protocol itself. */
  lemma CodesTellErrors(a: ErrorCode, b: ErrorCode)
    ensures CodeOf(a) == CodeOf(b) ==> a == b
    ensures CodeOf(a) > 0
  {
  }

  predicate Plain(members: seq<Member>) {
    forall i | 0 <= i < |members| :: members[i].key != "jsonrpc"
  }

  /** Any other object becomes the result. */
  lemma PlainCarries(id: string, members: seq<Member>, k: nat, key: string)
    requires Plain(members) && k < |members| && members[k].key == key && forall j | 0 <= j < k :: members[j].key != key
    ensures Carries(Some(Wrapped(id, Obj(members))), key, members[k].value)
  {
    NoSuchKey(members, "jsonrpc");
    var m := Envelope(id, Obj(members)).members;
    LookupAt(m, 2, "result");
    NoSuchKey(m, "error");
    LookupAt(members, k, key);
  }

  // ---------------------------------------------------------------- read and verify

  function AddressIn(params: Json, key: string, truncate: Truncation): Address {
    Wrap(GetInt(params, key, 0, truncate))
  }

  /** Four bytes unless the request says otherwise. */
  function SizeIn(params: Json, truncate: Truncation): nat {
    Wrap(GetInt(params, "size", 4, truncate))
  }

  predicate CanRead(mem: Memory, address: Address, size: nat) {
    1 <= size <= MAX_TRANSFER && address + size < ADDRESS_SPACE && Mapped(mem, address, size)
  }

  /** Why a window cannot be read. */
  function ReadError(address: Address, size: nat): ErrorCode {
    if size == 0 || size > MAX_TRANSFER then InvalidSize
    else if address + size >= ADDRESS_SPACE then InvalidAddress
    else ReadFailed
  }

  lemma LoadIffCanRead(mem: Memory, address: Address, size: nat)
    ensures if CanRead(mem, address, size) then Load(mem, address, size) == Success(Window(mem, address, size))
            else Load(mem, address, size) == Failure(ReadError(address, size))
  {
  }

  /** A reported address tells the address, and a small number is reported as itself. */
  lemma SignedTellsNumber(n: int)
    ensures Wrap(Signed64(n)) == Wrap(n)
    ensures 0 <= n <= MAX_INT64 ==> Signed64(n) == n
  {
  }

  /** The bytes of the window, as hex text, from which apply would get the same bytes. */
  ghost predicate CarriesBytes(a: Option<Json>, bytes: seq<Byte>) {
    exists text :: Carries(a, "hex", Str(text)) && ValueOf(text) == Bytes(bytes)
  }

  lemma HexCarriesBytes(a: Option<Json>, bytes: seq<Byte>)
    requires Carries(a, "hex", Str(HexText(bytes)))
    ensures CarriesBytes(a, bytes)
  {
    HexTextIsValue(bytes);
  }

  ghost predicate ReadOutcome(a: Option<Json>, params: Json, truncate: Truncation, alive: bool, mem: Memory) {
    var address, size := AddressIn(params, "address", truncate), SizeIn(params, truncate);
    if !alive then FailsWith(a, CodeOf(TargetDead))
    else if !CanRead(mem, address, size) then FailsWith(a, CodeOf(ReadError(address, size)))
    else
      && Carries(a, "address", Int(Signed64(address))) && Carries(a, "size", Int(size))
      && CarriesBytes(a, Window(mem, address, size))
  }

  function WindowObject(address: Address, size: nat, text: string): Json {
    Obj([Member("address", Int(Signed64(address))), Member("size", Int(Signed64(size))), Member("hex", Str(text))])
  }

  lemma WindowCarries(id: string, address: Address, size: nat, text: string)
    ensures var a := Some(Wrapped(id, WindowObject(address, size, text)));
            Carries(a, "address", Int(Signed64(address))) && Carries(a, "size", Int(Signed64(size))) && Carries(a, "hex", Str(text))
  {
    var m := WindowObject(address, size, text).members;
    PlainCarries(id, m, 0, "address");
    PlainCarries(id, m, 1, "size");
    PlainCarries(id, m, 2, "hex");
  }

  lemma ReadIsAnswered(id: string, params: Json, truncate: Truncation, o: Outside, mem: Memory)
    ensures ReadOutcome(Some(Wrapped(id, ReadReply(params, truncate, o, mem))), params, truncate, o.alive, mem)
  {
    var address, size := AddressIn(params, "address", truncate), SizeIn(params, truncate);
    LoadIffCanRead(mem, address, size);
    if !o.alive {
      RefusalFails(id, o.wording, params, TargetDead);
    } else if CanRead(mem, address, size) {
      var bytes := Window(mem, address, size);
      SignedTellsNumber(size);
      WindowCarries(id, address, size, HexText(bytes));
      HexCarriesBytes(Some(Wrapped(id, ReadReply(params, truncate, o, mem))), bytes);
    } else {
      RefusalFails(id, o.wording, params, ReadError(address, size));
    }
  }

  /** verify does not ask whether the target lives. */
  ghost predicate VerifyOutcome(a: Option<Json>, params: Json, truncate: Truncation, mem: Memory) {
    var address, size := AddressIn(params, "address", truncate), SizeIn(params, truncate);
    if CanRead(mem, address, size) then CarriesBytes(a, Window(mem, address, size))
    else FailsWith(a, CodeOf(ReadError(address, size)))
  }

  lemma VerifyIsAnswered(id: string, params: Json, truncate: Truncation, o: Outside, mem: Memory)
    ensures VerifyOutcome(Some(Wrapped(id, VerifyReply(params, truncate, o, mem))), params, truncate, mem)
  {
    var address, size := AddressIn(params, "address", truncate), SizeIn(params, truncate);
    LoadIffCanRead(mem, address, size);
    if CanRead(mem, address, size) {
      var bytes := Window(mem, address, size);
      PlainCarries(id, [Member("hex", Str(HexText(bytes)))], 0, "hex");
      HexCarriesBytes(Some(Wrapped(id, VerifyReply(params, truncate, o, mem))), bytes);
    } else {
      RefusalFails(id, o.wording, params, ReadError(address, size));
    }
  }

  // ---------------------------------------------------------------- resolve

  /** The offsets a request gives: none unless they are an array. */
  function OffsetsGiven(params: Json): seq<Address> {
    match Get(params, "offsets")
    case Some(Arr(items)) => Offsets(items)
    case _ => []
  }

  /** The integers of the array in their order; what is no integer is passed over. */
  lemma {:induction false} OffsetsOfParts(xs: seq<Json>, ys: seq<Json>)
    ensures Offsets(xs + ys) == Offsets(xs) + Offsets(ys)
  {
    if xs == [] {
      assert xs + ys == ys;
    } else {
      assert (xs + ys)[1..] == xs[1..] + ys;
      OffsetsOfParts(xs[1..], ys);
      Associate(if xs[0].Int? then [Wrap(xs[0].integer)] else [], Offsets(xs[1..]), Offsets(ys));
    }
  }

  lemma OffsetsOfOne(x: Json)
    ensures Offsets([x]) == if x.Int? then [Wrap(x.integer)] else []
  {
    assert Offsets([x][1..]) == [];
  }

  ghost predicate ResolveOutcome(a: Option<Json>, params: Json, truncate: Truncation, mem: Memory) {
    var base, offsets := AddressIn(params, "base", truncate), OffsetsGiven(params);
    if offsets == [] then FailsWith(a, CodeOf(InvalidOffsets))
    else
      match PointerChain.SessionWalk(mem, base, offsets)
      case Failure(e) => FailsWith(a, CodeOf(e))
      case Success(end) => Carries(a, "address", Int(Signed64(end)))
  }

  lemma ResolveIsAnswered(id: string, params: Json, truncate: Truncation, o: Outside, mem: Memory)
    ensures ResolveOutcome(Some(Wrapped(id, ResolveReply(params, truncate, o, mem))), params, truncate, mem)
  {
    var base, offsets := AddressIn(params, "base", truncate), OffsetsGiven(params);
    var walk := PointerChain.SessionWalk(mem, base, offsets);
    if offsets == [] {
      RefusalFails(id, o.wording, params, InvalidOffsets);
    } else if walk.Failure? {
      RefusalFails(id, o.wording, params, walk.error);
    } else {
      PlainCarries(id, [Member("address", Int(Signed64(walk.value)))], 0, "address");
    }
  }

  // ---------------------------------------------------------------- preview, apply and kill_switch

  /** after is the agent once the preview is over. */
  ghost predicate PreviewOutcome(a: Option<Json>, params: Json, verdict: Result<()>, issued: Int64, after: map<string, Token>) {
    var id := RequestId(params);
    match verdict
    case Failure(e) => FailsWith(a, CodeOf(e))
    case Success(_) =>
      && id in after
      && Carries(a, "approval_token", Str(after[id].requestId)) && Carries(a, "target", Str(after[id].alias))
      && Carries(a, "issued_at_ms", Int(issued)) && after[id].issuedAt == issued
      && Carries(a, "expires_at_ms", Int(Signed64(after[id].expiresAt))) && after[id].expiresAt == issued + 5 * 60 * 1000
  }

  lemma PreviewCarries(id: string, params: Json, o: Outside)
    ensures var a := Some(Wrapped(id, PreviewReply(params, o, Success(()))));
            && Carries(a, "approval_token", Str(RequestId(params))) && Carries(a, "issued_at_ms", Int(o.issued))
            && Carries(a, "expires_at_ms", Int(Signed64(o.issued as int + 300_000)))
            && Carries(a, "target", Str(GetString(params, "target_alias", "")))
  {
    var m := PreviewReply(params, o, Success(())).members;
    PlainCarries(id, m, 0, "approval_token");
    PlainCarries(id, m, 1, "issued_at_ms");
    PlainCarries(id, m, 2, "expires_at_ms");
    PlainCarries(id, m, 3, "target");
  }

  lemma PreviewIsAnswered(id: string, c: Setting, s: Agent, params: Json, o: Outside)
    ensures PreviewOutcome(Some(Wrapped(id, PreviewReply(params, o, Verdict(s.gate, c.manifests, PreviewAttempt(c, params, o.at))))),
                           params, Verdict(s.gate, c.manifests, PreviewAttempt(c, params, o.at)), o.issued,
                           AfterPreview(c, s, params, o.at, o.issued).pending)
  {
    var verdict := Verdict(s.gate, c.manifests, PreviewAttempt(c, params, o.at));
    if verdict.Failure? {
      RefusalFails(id, o.wording, params, verdict.error);
    } else {
      PreviewCarries(id, params, o);
    }
  }

  /** The bytes of an apply can be written at its address, and the backend writes them all. */
  predicate WritesInFull(address: Address, bytes: seq<Byte>, written: FreezeProtocol.Outcome) {
    1 <= |bytes| <= MAX_TRANSFER && address + |bytes| < ADDRESS_SPACE
    && written.Wrote? && written.count >= |bytes|
  }

  /** Why they are not. */
  function WriteError(address: Address, bytes: seq<Byte>, written: FreezeProtocol.Outcome): ErrorCode {
    if |bytes| == 0 || |bytes| > MAX_TRANSFER then InvalidSize
    else if address + |bytes| >= ADDRESS_SPACE then InvalidAddress
    else if written.Failed? then WriteFailed
    else PartialWrite
  }

  ghost predicate WriteOutcome(a: Option<Json>, address: Address, bytes: seq<Byte>, written: FreezeProtocol.Outcome, after: Memory) {
    if WritesInFull(address, bytes, written) then
      && Carries(a, "bytes_written", Int(|bytes|)) && Carries(a, "address", Int(Signed64(address)))
      && Load(after, address, |bytes|) == Success(bytes)
    else FailsWith(a, CodeOf(WriteError(address, bytes, written)))
  }

  lemma WrittenOrRefused(params: Json, truncate: Truncation, o: Outside, bytes: seq<Byte>)
    ensures var address, reply := AddressIn(params, "address", truncate), WrittenReply(params, truncate, o, bytes);
            if WritesInFull(address, bytes, o.written)
            then reply == Obj([Member("bytes_written", Int(Signed64(|bytes|))), Member("address", Int(Signed64(address)))])
            else
              var e := WriteError(address, bytes, o.written);
              reply == Refuse(o.wording, params, e) || reply == RefusePlain(o.wording, params, e)
  {
  }

  lemma WriteCarries(id: string, n: nat, address: Address)
    requires n <= MAX_TRANSFER
    ensures var a := Some(Wrapped(id, Obj([Member("bytes_written", Int(Signed64(n))), Member("address", Int(Signed64(address)))])));
            Carries(a, "bytes_written", Int(n)) && Carries(a, "address", Int(Signed64(address)))
  {
    SignedTellsNumber(n);
    var m := [Member("bytes_written", Int(Signed64(n))), Member("address", Int(Signed64(address)))];
    PlainCarries(id, m, 0, "bytes_written");
    PlainCarries(id, m, 1, "address");
  }

  lemma FullWriteIsLoaded(mem: Memory, address: Address, bytes: seq<Byte>, written: FreezeProtocol.Outcome)
    requires WritesInFull(address, bytes, written)
    ensures Load(WriteBytes(mem, address, bytes, written), address, |bytes|) == Success(bytes)
  {
    WriteBytesEffect(mem, address, bytes, FreezeProtocol.Clip(written, |bytes|));
  }

  lemma WriteIsAnswered(id: string, params: Json, truncate: Truncation, o: Outside, mem: Memory, bytes: seq<Byte>)
    ensures var address := AddressIn(params, "address", truncate);
            WriteOutcome(Some(Wrapped(id, WrittenReply(params, truncate, o, bytes))), address, bytes, o.written,
                         WriteBytes(mem, address, bytes, o.written))
  {
    var address := AddressIn(params, "address", truncate);
    WrittenOrRefused(params, truncate, o, bytes);
    if WritesInFull(address, bytes, o.written) {
      FullWriteIsLoaded(mem, address, bytes, o.written);
      WriteCarries(id, |bytes|, address);
    } else {
      RefusalFails(id, o.wording, params, WriteError(address, bytes, o.written));
    }
  }

  /** The agent has no answer when its handler throws. */
  function Wrapping(id: string, result: Option<Json>): Option<Json> {
    match result
    case None => None
    case Some(r) => Some(Wrapped(id, r))
  }

  /** before is the agent when the apply looks for its approval, after is the memory once the apply is over. */
  ghost predicate ApplyOutcome(a: Option<Json>, c: Setting, before: Agent, params: Json, o: Outside, after: Memory) {
    var step := Apply(params, o.at, o.written);
    if !Consumes(before, step) then FailsWith(a, CodeOf(PolicyDenied))
    else
      match Verdict(before.gate, c.manifests, ApplyAttempt(c, before.pending[RequestId(params)], params, o.at))
      case Failure(e) => FailsWith(a, CodeOf(e))
      case Success(_) =>
        match ValueIn(params)
        case OddLength => FailsWith(a, CodeOf(InvalidString))
        case Malformed => a.None?
        case Bytes(bytes) => WriteOutcome(a, AddressIn(params, "address", c.truncate), bytes, o.written, after)
  }

  lemma AuthorisedIsAnswered(id: string, c: Setting, s: Agent, params: Json, o: Outside)
    requires Authorised(c, s, Apply(params, o.at, o.written))
    ensures ApplyOutcome(Wrapping(id, AuthorisedReply(params, c.truncate, o)), c, s, params, o,
                         AfterApply(c, s, params, o.at, o.written).Memory())
  {
    match ValueIn(params)
    case OddLength => RefusalFails(id, o.wording, params, InvalidString);
    case Malformed =>
    case Bytes(bytes) => WriteIsAnswered(id, params, c.truncate, o, s.Memory(), bytes);
  }

  lemma ApplyIsAnswered(id: string, c: Setting, s: Agent, params: Json, o: Outside)
    ensures ApplyOutcome(Wrapping(id, ApplyReply(c, s, params, o)), c, s, params, o,
                         AfterApply(c, s, params, o.at, o.written).Memory())
  {
    if !Consumes(s, Apply(params, o.at, o.written)) {
      RefusalFails(id, o.wording, params, PolicyDenied);
    } else {
      var verdict := Verdict(s.gate, c.manifests, ApplyAttempt(c, s.pending[RequestId(params)], params, o.at));
      if verdict.Failure? {
        RefusalFails(id, o.wording, params, verdict.error);
      } else {
        AuthorisedIsAnswered(id, c, s, params, o);
      }
    }
  }

  /** kill_switch tells the state it leaves the switch in. */
  lemma SwitchIsAnswered(id: string, s: Agent, params: Json)
    ensures Carries(Some(Wrapped(id, SwitchReply(params))), "engaged", Bool(AfterSwitch(s, params).gate.killed))
  {
    PlainCarries(id, SwitchReply(params).members, 0, "engaged");
  }
}
