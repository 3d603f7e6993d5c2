/**
  How the agent reads the parameters of a request: whatever a client writes under the names of the protocol is
  what the policy and the freeze manager are asked about, and what it leaves out has its default.
*/
module AgentRequests {
  import opened Common
  import opened ByteMemory
  import opened JsonCodec
  import opened PolicyGate
  import opened HexValues
  import opened AgentApprovals
  import opened AgentMessages
  import opened AgentOutcomes
  import FreezeProtocol

  // ---------------------------------------------------------------- capabilities

  const CAPABILITIES: seq<string> := ["read", "write", "freeze", "unfreeze", "rollback", "parse"]

  /** Only the name write asks for writing, every name gives a known capability, and an unknown one gives that of read. */
  lemma CapabilityIsNamed(name: string)
    ensures Known(CapabilityNamed(name)) && (CanWrite(CapabilityNamed(name)) <==> name == "write")
    ensures CapabilityNamed(name) == CapabilityNamed("read") <==> name == "read" || name !in CAPABILITIES
  {
    assert CAP_READ & CAP_WRITE == 0 && CAP_FREEZE & CAP_WRITE == 0 && CAP_UNFREEZE & CAP_WRITE == 0;
    assert CAP_ROLLBACK & CAP_WRITE == 0 && CAP_PARSE & CAP_WRITE == 0 && CAP_WRITE & CAP_WRITE != 0;
  }

  /** Different names give different capabilities. */
  lemma NamesAreDistinct(a: string, b: string)
    requires a in CAPABILITIES && b in CAPABILITIES && CapabilityNamed(a) == CapabilityNamed(b)
    ensures a == b
  {
  }

  // ---------------------------------------------------------------- mutation requests

  /** The parameters that ask for a request; capability is given by its name. */
  function MutationParams(q: MutationRequest, capability: string): Json {
    Obj([ Member("request_id", Str(q.requestId)), Member("target_alias", Str(q.alias)),
          Member("capability", Str(capability)), Member("preview", Bool(q.preview)), Member("approved", Bool(q.approved)),
          Member("expected_current_hash", Str(q.expectedCurrentHash)), Member("address", Int(Signed64(q.address))),
          Member("size", Int(Signed64(q.size))), Member("value_repr", Str(q.valueRepr)) ])
  }

  lemma TextsAreFound(q: MutationRequest, capability: string)
    ensures var p := MutationParams(q, capability);
            && Get(p, "request_id") == Some(Str(q.requestId)) && Get(p, "target_alias") == Some(Str(q.alias))
            && Get(p, "capability") == Some(Str(capability))
            && Get(p, "expected_current_hash") == Some(Str(q.expectedCurrentHash)) && Get(p, "value_repr") == Some(Str(q.valueRepr))
  {
    var m := MutationParams(q, capability).members;
    LookupAt(m, 0, "request_id");
    LookupAt(m, 1, "target_alias");
    LookupAt(m, 2, "capability");
    LookupAt(m, 5, "expected_current_hash");
    LookupAt(m, 8, "value_repr");
  }

  lemma ValuesAreFound(q: MutationRequest, capability: string)
    ensures var p := MutationParams(q, capability);
            && Get(p, "preview") == Some(Bool(q.preview)) && Get(p, "approved") == Some(Bool(q.approved))
            && Get(p, "address") == Some(Int(Signed64(q.address))) && Get(p, "size") == Some(Int(Signed64(q.size)))
  {
    var m := MutationParams(q, capability).members;
    LookupAt(m, 3, "preview");
    LookupAt(m, 4, "approved");
    LookupAt(m, 6, "address");
    LookupAt(m, 7, "size");
  }

  /** Every request of 64-bit size can be asked for, and is read as it was asked. */
  lemma MutationReadsBack(q: MutationRequest, capability: string, operation: string, truncate: Truncation)
    requires CapabilityNamed(capability) == q.capability && q.size < ADDRESS_SPACE
    ensures MakeRequest(MutationParams(q, capability), operation, truncate) == q
  {
    TextsAreFound(q, capability);
    ValuesAreFound(q, capability);
    SignedTellsNumber(q.address);
    SignedTellsNumber(q.size);
  }

  /** Without parameters it is a request to read nothing, not approved and named after the operation. */
  lemma MutationDefaults(operation: string, truncate: Truncation)
    ensures MakeRequest(Obj([]), operation, truncate)
         == MutationRequest("", "", CapabilityNamed("read"), false, false, "", 0, 0, operation)
  {
    NoSuchKey([], "capability");
  }

  // ---------------------------------------------------------------- freezes

  /** The parameters that ask for a freeze. */
  function FreezeParams(r: FreezeProtocol.FreezeRequest): Json
    requires -MAX_INT64 - 1 <= r.interval <= MAX_INT64
  {
    Obj([ Member("id", Str(r.id)), Member("address", Int(Signed64(r.address))), Member("type", Str(r.typeName)),
          Member("value", Int(Signed64(r.value))), Member("interval_ms", Int(r.interval)), Member("size", Int(Signed64(r.size))) ])
  }

  /** Every freeze of 64-bit numbers can be asked for, and is read as it was asked. */
  lemma FreezeReadsBack(r: FreezeProtocol.FreezeRequest, truncate: Truncation)
    requires -MAX_INT64 - 1 <= r.interval <= MAX_INT64 && r.value < ADDRESS_SPACE && r.size < ADDRESS_SPACE
    ensures FreezeRequestOf(FreezeParams(r), truncate) == r
  {
    var m := FreezeParams(r).members;
    LookupAt(m, 0, "id");
    LookupAt(m, 1, "address");
    LookupAt(m, 2, "type");
    LookupAt(m, 3, "value");
    LookupAt(m, 4, "interval_ms");
    LookupAt(m, 5, "size");
    SignedTellsNumber(r.address);
    SignedTellsNumber(r.value);
    SignedTellsNumber(r.size);
  }

  /** Without parameters it is a freeze of a 32-bit number every 50 milliseconds. */
  lemma FreezeDefaults(truncate: Truncation)
    ensures var r := FreezeRequestOf(Obj([]), truncate);
            && r.id == "" && r.address == 0 && r.value == 0 && r.interval == 50 && r.size == 0
            && FreezeProtocol.SizeForType(r.typeName) == 4 && r.typeName[0] == 'u'
  {
    NoSuchKey([], "id");
  }

  // ---------------------------------------------------------------- a sign or a space in value_hex

  /** A space or a plus sign in front of a digit counts as a zero, a minus sign negates the byte, and what follows a digit is ignored. */
  lemma SignedPair(c: char, other: char)
    requires Nibble(c) >= 0 && Nibble(other) < 0
    ensures HexPair('+', c) == HexPair(' ', c) == HexPair('0', c) == HexPair(c, other)
    ensures HexPair('-', c).Some? && (HexPair('-', c).value as int + HexPair('+', c).value) % 256 == 0
  {
  }
}
