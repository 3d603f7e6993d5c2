/**
  Policy: the ordered gate in front of every mutation, with its kill switch, its per-alias limiter and
  its audit stream. Each call reads the clock up to three times; the readings are parameters.
*/
module PolicyGate {
  import opened Common
  import opened ByteMemory
  import opened RateLimit

  const MAX_PER_MINUTE: nat := 120

  datatype Architecture = Unknown | X86 | X64

  datatype Identity = Identity(pid: nat, startTime: nat, imagePath: string, imageSha256: string, architecture: Architecture)

  datatype Manifest = Manifest(alias: string, imagePath: string, imageSha256: string, architecture: string, allowWrite: bool)

  /** Capabilities are the bits of a word. */
  type Capability = bv32
  const CAP_READ: Capability := 1
  const CAP_WRITE: Capability := 2
  const CAP_FREEZE: Capability := 4
  const CAP_UNFREEZE: Capability := 8
  const CAP_ROLLBACK: Capability := 16
  const CAP_PARSE: Capability := 32
  const CAP_ALL: Capability := CAP_READ | CAP_WRITE | CAP_FREEZE | CAP_UNFREEZE | CAP_ROLLBACK | CAP_PARSE

  predicate CanWrite(c: Capability) {
    c & CAP_WRITE != 0
  }

  predicate Known(c: Capability) {
    c & !CAP_ALL == 0
  }

  datatype MutationRequest = MutationRequest(
    requestId: string, alias: string, capability: Capability, preview: bool, approved: bool,
    expectedCurrentHash: string, address: Address, size: nat, valueRepr: string)

  datatype Token = Token(requestId: string, alias: string, issuedAt: int, expiresAt: int)

  datatype Decision = Deny | Preview | Allow

  datatype AuditEvent = AuditEvent(
    requestId: string, alias: string, pid: nat, operation: string, capability: Capability,
    decision: Decision, timestamp: int)

  /** The clock as one call sees it: at the token check, at the limiter and when the event is stamped. */
  datatype Readings = Readings(token: int, limiter: int, stamp: int)

  predicate Matches(m: Manifest, id: Identity) {
    if id.pid == 0 then false
    else if id.imagePath != m.imagePath then false
    else if m.imageSha256 != "" && id.imageSha256 != "" && id.imageSha256 != m.imageSha256 then false
    else if m.architecture == "x86" then id.architecture == X86
    else if m.architecture == "x64" then id.architecture == X64
    else true
  }

  /** The name under which an architecture is reported. */
  function ArchitectureName(a: Architecture): string {
    match a
    case X86 => "x86"
    case X64 => "x64"
    case Unknown => "unknown"
  }

  /** A running process at the path of the manifest, whose hash and architecture do not contradict it as far as both are given. */
  lemma MatchesIff(m: Manifest, id: Identity)
    ensures Matches(m, id) <==>
              && id.pid != 0 && id.imagePath == m.imagePath
              && (m.imageSha256 != "" && id.imageSha256 != "" ==> m.imageSha256 == id.imageSha256)
              && (m.architecture in {"x86", "x64"} ==> m.architecture == ArchitectureName(id.architecture))
  {
  }

  /** The first manifest with the alias. */
  function FindManifest(manifests: seq<Manifest>, alias: string): Option<Manifest> {
    if manifests == [] then None
    else if manifests[0].alias == alias then Some(manifests[0])
    else FindManifest(manifests[1..], alias)
  }

  /** It is that of the first position with the alias, and there is none only when no manifest has the alias. */
  lemma {:induction false} FoundManifestIsFirst(manifests: seq<Manifest>, alias: string)
    ensures FindManifest(manifests, alias).None? <==> forall m | m in manifests :: m.alias != alias
    ensures FindManifest(manifests, alias).Some? ==>
              exists i :: 0 <= i < |manifests| && manifests[i] == FindManifest(manifests, alias).value && manifests[i].alias == alias
                          && forall j | 0 <= j < i :: manifests[j].alias != alias
  {
    if manifests != [] && manifests[0].alias != alias {
      FoundManifestIsFirst(manifests[1..], alias);
      assert manifests == [manifests[0]] + manifests[1..];
      var r := FindManifest(manifests[1..], alias);
      if r.Some? {
        var i :| 0 <= i < |manifests[1..]| && manifests[1..][i] == r.value && manifests[1..][i].alias == alias
                 && forall j | 0 <= j < i :: manifests[1..][j].alias != alias;
        assert manifests[i + 1] == r.value;
        assert forall j | 0 < j < i + 1 :: manifests[j] == manifests[1..][j - 1];
      }
    }
  }

  // ---------------------------------------------------------------- the gate as ordered checks

  /** A check that must pass before the ones after it are looked at. */
  function Need(passed: bool, error: ErrorCode, later: Option<ErrorCode>): Option<ErrorCode> {
    if passed then later else Some(error)
  }

  /** What every request must meet, in this order. */
  function RequestFault(killed: bool, manifests: seq<Manifest>, id: Identity, q: MutationRequest): Option<ErrorCode> {
    var m := FindManifest(manifests, q.alias);
    Need(!killed, PolicyDenied,
    Need(m.Some?, PolicyDenied,
    Need(m.Some? && Matches(m.value, id), TargetIdentityMismatch,
    Need(!CanWrite(q.capability) || (m.Some? && m.value.allowWrite), PolicyDenied,
    Need(Known(q.capability), CapabilityMissing,
    Need(q.address != 0, InvalidAddress,
    Need(1 <= q.size <= MAX_TRANSFER, InvalidSize,
    Need(q.expectedCurrentHash != "", PolicyDenied, None))))))))
  }

  /** What a request that is not a preview must meet besides, before the limiter is asked. */
  function ApprovalFault(q: MutationRequest, token: Option<Token>, now: int): Option<ErrorCode> {
    Need(q.approved, ApprovalRequired,
    Need(token.Some? ==> token.value.requestId == q.requestId, PolicyDenied,
    Need(token.Some? ==> token.value.alias == q.alias, PolicyDenied,
    Need(token.Some? ==> token.value.issuedAt <= now <= token.value.expiresAt, PolicyDenied, None))))
  }

  /** The state of a policy: its kill switch, its limiter and the events its sink has received. */
  datatype Gate = Gate(killed: bool, windows: Windows, events: seq<AuditEvent>)

  datatype Attempt = Attempt(identity: Identity, request: MutationRequest, token: Option<Token>, at: Readings)

  /** Some(error) when the call is refused before the limiter is asked. */
  function Refusal(g: Gate, manifests: seq<Manifest>, a: Attempt): Option<ErrorCode> {
    var basic := RequestFault(g.killed, manifests, a.identity, a.request);
    if basic.Some? then basic
    else if a.request.preview then None
    else ApprovalFault(a.request, a.token, a.at.token)
  }

  predicate AsksLimiter(g: Gate, manifests: seq<Manifest>, a: Attempt) {
    Refusal(g, manifests, a).None? && !a.request.preview
  }

  predicate LimiterAdmits(g: Gate, a: Attempt) {
    Admits(WindowOf(g.windows, a.request.alias), a.at.limiter, MAX_PER_MINUTE)
  }

  function Verdict(g: Gate, manifests: seq<Manifest>, a: Attempt): Result<()> {
    var refusal := Refusal(g, manifests, a);
    if refusal.Some? then Failure(refusal.value)
    else if AsksLimiter(g, manifests, a) && !LimiterAdmits(g, a) then Failure(RateLimited)
    else Success(())
  }

  function DecisionOf(g: Gate, manifests: seq<Manifest>, a: Attempt): Decision {
    if Verdict(g, manifests, a).Failure? then Deny else if a.request.preview then Preview else Allow
  }

  function EventOf(g: Gate, manifests: seq<Manifest>, a: Attempt): AuditEvent {
    var q := a.request;
    AuditEvent(q.requestId, q.alias, a.identity.pid, q.valueRepr, q.capability, DecisionOf(g, manifests, a), a.at.stamp)
  }

  function AfterAttempt(g: Gate, manifests: seq<Manifest>, a: Attempt): Gate {
    var alias := a.request.alias;
    var windows :=
      if AsksLimiter(g, manifests, a)
      then g.windows[alias := AfterCall(WindowOf(g.windows, alias), a.at.limiter, MAX_PER_MINUTE)]
      else g.windows;
    g.(windows := windows, events := g.events + [EventOf(g, manifests, a)])
  }

  class KillSwitch {
    var isEngaged: bool
    var reason: string

    constructor ()
      ensures !isEngaged && reason == ""
    {
      isEngaged, reason := false, "";
    }

    method Engage(why: string)
      modifies this
      ensures isEngaged && reason == why
    {
      reason := why;
      isEngaged := true;
    }

    method Release()
      modifies this
      ensures !isEngaged && reason == ""
    {
      isEngaged := false;
      reason := "";
    }
  }

  class Policy {
    const manifests: seq<Manifest>
    const limiter: RateLimiter
    const killSwitch: KillSwitch
    var events: seq<AuditEvent>

    ghost predicate Valid() {
      limiter.maxPerMinute == MAX_PER_MINUTE
    }

    ghost function View(): Gate
      reads this, limiter, killSwitch
    {
      Gate(killSwitch.isEngaged, limiter.windows, events)
    }

    constructor (manifests: seq<Manifest>)
      ensures Valid() && this.manifests == manifests && fresh(limiter) && fresh(killSwitch)
      ensures View() == Gate(false, map[], [])
    {
      this.manifests := manifests;
      limiter := new RateLimiter(MAX_PER_MINUTE);
      killSwitch := new KillSwitch();
      events := [];
    }

    /** The lambda deny. */
    method Refuse(a: Attempt, error: ErrorCode) returns (r: Result<()>)
      modifies this
      ensures r == Failure(error)
      ensures events == old(events) + [AuditEvent(a.request.requestId, a.request.alias, a.identity.pid, a.request.valueRepr,
                                                  a.request.capability, Deny, a.at.stamp)]
    {
      Emit(a, Deny);
      return Failure(error);
    }

    method Emit(a: Attempt, decision: Decision)
      modifies this
      ensures events == old(events) + [AuditEvent(a.request.requestId, a.request.alias, a.identity.pid, a.request.valueRepr,
                                                  a.request.capability, decision, a.at.stamp)]
    {
      events := events + [AuditEvent(a.request.requestId, a.request.alias, a.identity.pid, a.request.valueRepr,
                                     a.request.capability, decision, a.at.stamp)];
    }

    method AuthorizeWithToken(a: Attempt) returns (r: Result<()>)
      requires Valid()
      modifies this, limiter
      ensures r == Verdict(old(View()), manifests, a)
      ensures View() == AfterAttempt(old(View()), manifests, a)
    {
      var q := a.request;
      if killSwitch.isEngaged {
        r := Refuse(a, PolicyDenied);
        return;
      }
      var manifest := FindManifest(manifests, q.alias);
      if manifest.None? {
        r := Refuse(a, PolicyDenied);
        return;
      }
      if !Matches(manifest.value, a.identity) {
        r := Refuse(a, TargetIdentityMismatch);
        return;
      }
      if CanWrite(q.capability) && !manifest.value.allowWrite {
        r := Refuse(a, PolicyDenied);
        return;
      }
      if !Known(q.capability) {
        r := Refuse(a, CapabilityMissing);
        return;
      }
      if q.address == 0 {
        r := Refuse(a, InvalidAddress);
        return;
      }
      if q.size == 0 || q.size > MAX_TRANSFER {
        r := Refuse(a, InvalidSize);
        return;
      }
      if q.expectedCurrentHash == "" {
        r := Refuse(a, PolicyDenied);
        return;
      }
      if q.preview {
        Emit(a, Preview);
        return Success(());
      }
      r := AuthorizeApproved(a);
    }

    /** The part of the gate behind the preview exit. */
    method AuthorizeApproved(a: Attempt) returns (r: Result<()>)
      requires Valid() && !a.request.preview
      requires RequestFault(killSwitch.isEngaged, manifests, a.identity, a.request).None?
      modifies this, limiter
      ensures r == Verdict(old(View()), manifests, a)
      ensures View() == AfterAttempt(old(View()), manifests, a)
    {
      var q := a.request;
      if !q.approved {
        r := Refuse(a, ApprovalRequired);
        return;
      }
      if a.token.Some? {
        var token := a.token.value;
        if token.requestId != q.requestId {
          r := Refuse(a, PolicyDenied);
          return;
        }
        if token.alias != q.alias {
          r := Refuse(a, PolicyDenied);
          return;
        }
        if a.at.token < token.issuedAt || a.at.token > token.expiresAt {
          r := Refuse(a, PolicyDenied);
          return;
        }
      }
      r := limiter.Allow(q.alias, a.at.limiter);
      if r.Failure? {
        r := Refuse(a, RateLimited);
        return;
      }
      Emit(a, Allow);
    }
  }

  // ---------------------------------------------------------------- what the gate lets through

  /** What every request must meet, without an order. */
  predicate Sound(killed: bool, manifests: seq<Manifest>, id: Identity, q: MutationRequest) {
    var m := FindManifest(manifests, q.alias);
    && !killed
    && m.Some? && Matches(m.value, id)
    && (CanWrite(q.capability) ==> m.value.allowWrite)
    && Known(q.capability)
    && q.address != 0 && 1 <= q.size <= MAX_TRANSFER
    && q.expectedCurrentHash != ""
  }

  /** The conditions of a successful call, without an order. */
  predicate Acceptable(g: Gate, manifests: seq<Manifest>, a: Attempt) {
    && Sound(g.killed, manifests, a.identity, a.request)
    && (a.request.preview || (a.request.approved && TokenFits(a) && LimiterAdmits(g, a)))
  }

  /** A token, when there is one, was issued for this request and alias and is within its time. */
  predicate TokenFits(a: Attempt) {
    a.token.Some? ==>
      var t := a.token.value;
      t.requestId == a.request.requestId && t.alias == a.request.alias && t.issuedAt <= a.at.token <= t.expiresAt
  }

  lemma AcceptedIff(g: Gate, manifests: seq<Manifest>, a: Attempt)
    ensures Verdict(g, manifests, a).Success? <==> Acceptable(g, manifests, a)
  {
    NoFaultIff(g.killed, manifests, a.identity, a.request);
    assert ApprovalFault(a.request, a.token, a.at.token).None? <==> a.request.approved && TokenFits(a);
  }

  lemma NoFaultIff(killed: bool, manifests: seq<Manifest>, id: Identity, q: MutationRequest)
    ensures RequestFault(killed, manifests, id, q).None? <==> Sound(killed, manifests, id, q)
  {
  }

  predicate MayWrite(manifests: seq<Manifest>, q: MutationRequest) {
    CanWrite(q.capability) ==> FindManifest(manifests, q.alias).Some? && FindManifest(manifests, q.alias).value.allowWrite
  }

  /** The code of a refusal tells its cause, and no other cause hides an engaged switch or an exhausted limit. */
  lemma RefusalTellsCause(g: Gate, manifests: seq<Manifest>, a: Attempt)
    requires Verdict(g, manifests, a).Failure?
    ensures var e, q, m := Verdict(g, manifests, a).error, a.request, FindManifest(manifests, a.request.alias);
            match e
            case PolicyDenied =>
              g.killed || m.None? || !MayWrite(manifests, q) || q.expectedCurrentHash == "" || (!q.preview && !TokenFits(a))
            case TargetIdentityMismatch => m.Some? && !Matches(m.value, a.identity)
            case CapabilityMissing => !Known(q.capability)
            case InvalidAddress => q.address == 0
            case InvalidSize => !(1 <= q.size <= MAX_TRANSFER)
            case ApprovalRequired => !q.preview && !q.approved
            case RateLimited => !q.preview && !LimiterAdmits(g, a)
            case _ => false
    ensures g.killed ==> Verdict(g, manifests, a).error == PolicyDenied
    ensures Verdict(g, manifests, a).error == RateLimited <==>
              Sound(g.killed, manifests, a.identity, a.request) && !a.request.preview && a.request.approved && TokenFits(a)
  {
    NoFaultIff(g.killed, manifests, a.identity, a.request);
  }
}
