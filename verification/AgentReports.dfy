/**
  What the answers of the freeze methods, of status, inspect and parse carry: the same laws for the handlers that
  call the freeze manager and for those that report what the agent knows.
*/
module AgentReports {
  import opened Common
  import opened ByteMemory
  import opened JsonCodec
  import opened PolicyGate
  import opened AgentApprovals
  import opened AgentMessages
  import opened AgentOutcomes
  import opened FreezeProtocol
  import CheatTables

  predicate Registered(s: FreezeProtocol.State, id: string) {
    Find(s.entries, id) < |s.entries|
  }

  // ---------------------------------------------------------------- freeze, unfreeze and restore

  /** The size a freeze asks for, or that of its type. */
  function FrozenSize(params: Json, truncate: Truncation): nat {
    var size := Wrap(GetInt(params, "size", 0, truncate));
    if size != 0 then size else SizeForType(GetString(params, "type", "uint32"))
  }

  /** Why a freeze is refused, if it is. */
  function FreezeFault(s: FreezeProtocol.State, id: string, address: Address, size: nat): Option<ErrorCode> {
    if address == 0 then Some(InvalidAddress)
    else if !(1 <= size <= 8) then Some(InvalidType)
    else if id == "" || Registered(s, id) then Some(InvalidEntryId)
    else if !CanRead(s.mem, address, size) then Some(ReadError(address, size))
    else None
  }

  /** What a freeze that is not refused registers: the bytes that stand there, and what to write over them. */
  ghost predicate Registers(s: FreezeProtocol.State, params: Json, truncate: Truncation, e: Entry) {
    var address, size := AddressIn(params, "address", truncate), FrozenSize(params, truncate);
    var interval := GetInt(params, "interval_ms", 50, truncate);
    && e.request.id == GetString(params, "id", "") && e.request.address == address && e.request.size == size
    && e.request.value == AddressIn(params, "value", truncate)
    && e.request.interval == (if interval >= 1 then interval else 50)
    && Load(s.mem, address, size) == Success(e.original)
  }

  lemma FreezeIsDecided(s: FreezeProtocol.State, params: Json, truncate: Truncation)
    ensures var id, address, size := GetString(params, "id", ""), AddressIn(params, "address", truncate), FrozenSize(params, truncate);
            match Snapshot(s, FreezeRequestOf(params, truncate))
            case Failure(e) => FreezeFault(s, id, address, size) == Some(e)
            case Success(entry) => FreezeFault(s, id, address, size).None? && Registers(s, params, truncate, entry)
  {
    LoadIffCanRead(s.mem, AddressIn(params, "address", truncate), FrozenSize(params, truncate));
  }

  ghost predicate FreezeOutcome(a: Option<Json>, s: FreezeProtocol.State, params: Json, truncate: Truncation) {
    var id := GetString(params, "id", "");
    match FreezeFault(s, id, AddressIn(params, "address", truncate), FrozenSize(params, truncate))
    case Some(e) => FailsWith(a, CodeOf(e))
    case None => Carries(a, "active", Bool(true)) && Carries(a, "id", Str(id))
  }

  lemma FreezeCarries(own: string, id: string)
    ensures var a := Some(Wrapped(own, Obj([Member("active", Bool(true)), Member("id", Str(id))])));
            Carries(a, "active", Bool(true)) && Carries(a, "id", Str(id))
  {
    var m := [Member("active", Bool(true)), Member("id", Str(id))];
    PlainCarries(own, m, 0, "active");
    PlainCarries(own, m, 1, "id");
  }

  lemma FreezeIsAnswered(id: string, s: FreezeProtocol.State, params: Json, truncate: Truncation, wording: Wording, written: Outcome)
    ensures FreezeOutcome(Some(Wrapped(id, ManagerReply(s, Method.Freeze, params, truncate, wording, written))), s, params, truncate)
  {
    FreezeIsDecided(s, params, truncate);
    var snapshot := Snapshot(s, FreezeRequestOf(params, truncate));
    if snapshot.Failure? {
      RefusalFails(id, wording, params, snapshot.error);
    } else {
      FreezeCarries(id, GetString(params, "id", ""));
    }
  }

  ghost predicate UnfreezeOutcome(a: Option<Json>, s: FreezeProtocol.State, params: Json) {
    if Registered(s, GetString(params, "id", "")) then Carries(a, "unfrozen", Bool(true)) else FailsWith(a, CodeOf(SnapshotMissing))
  }

  lemma UnfreezeIsAnswered(id: string, s: FreezeProtocol.State, params: Json, truncate: Truncation, wording: Wording, written: Outcome)
    ensures UnfreezeOutcome(Some(Wrapped(id, ManagerReply(s, Unfreeze, params, truncate, wording, written))), s, params)
  {
    if Registered(s, GetString(params, "id", "")) {
      PlainCarries(id, [Member("unfrozen", Bool(true))], 0, "unfrozen");
    } else {
      RefusalFails(id, wording, params, SnapshotMissing);
    }
  }

  /** Why a restore fails, if it does: it must find the freeze and write the saved bytes back in full. */
  function RestoreFault(s: FreezeProtocol.State, id: string, written: Outcome): Option<ErrorCode> {
    var i := Find(s.entries, id);
    if id == "" then Some(InvalidEntryId)
    else if !Registered(s, id) then Some(SnapshotMissing)
    else if written.Failed? then Some(WriteFailed)
    else if written.count < |s.entries[i].original| then Some(PartialWrite)
    else None
  }

  ghost predicate RestoreOutcome(a: Option<Json>, s: FreezeProtocol.State, params: Json, written: Outcome) {
    match RestoreFault(s, GetString(params, "freeze_id", ""), written)
    case Some(e) => FailsWith(a, CodeOf(e))
    case None => Carries(a, "restored", Bool(true))
  }

  lemma RestoreIsAnswered(id: string, s: FreezeProtocol.State, params: Json, truncate: Truncation, wording: Wording, written: Outcome)
    ensures RestoreOutcome(Some(Wrapped(id, ManagerReply(s, Restore, params, truncate, wording, written))), s, params, written)
  {
    var fault := RestoreFault(s, GetString(params, "freeze_id", ""), written);
    if fault.Some? {
      RefusalFails(id, wording, params, fault.value);
    } else {
      PlainCarries(id, [Member("restored", Bool(true))], 0, "restored");
    }
  }

  // ---------------------------------------------------------------- status

  /** The object tells the id, the activity and the counters of the freeze. */
  predicate Shows(v: Json, e: Entry) {
    && Get(v, "id") == Some(Str(e.request.id)) && Get(v, "active") == Some(Bool(e.active))
    && Get(v, "successful_rewrites") == Some(Int(Signed64(e.okCount)))
    && Get(v, "failed_rewrites") == Some(Int(Signed64(e.failCount)))
  }

  lemma StatusShows(e: Entry)
    ensures Shows(StatusObject(StatusOf(e)), e)
  {
    var m := StatusObject(StatusOf(e)).members;
    LookupAt(m, 0, "id");
    LookupAt(m, 1, "active");
    LookupAt(m, 2, "successful_rewrites");
    LookupAt(m, 3, "failed_rewrites");
  }

  lemma {:induction false} StatusObjectAt(statuses: seq<FreezeStatus>, k: nat)
    requires k < |statuses|
    ensures |StatusObjects(statuses)| == |statuses| && StatusObjects(statuses)[k] == StatusObject(statuses[k])
    decreases |statuses|
  {
    if |statuses| > 1 {
      StatusObjectAt(statuses[1..], if k > 0 then k - 1 else 0);
    }
  }

  /** Item k shows the freeze at position order[k]. */
  predicate ShowsInOrder(items: seq<Json>, entries: seq<Entry>, order: seq<nat>) {
    |items| == |order| && forall k | 0 <= k < |order| :: order[k] < |entries| && Shows(items[k], entries[order[k]])
  }

  ghost predicate ShowsOne(a: Option<Json>, e: Entry) {
    exists v :: Carries(a, "freeze", v) && Shows(v, e)
  }

  /** Every freeze is shown exactly once. */
  ghost predicate ShowsAll(a: Option<Json>, entries: seq<Entry>) {
    exists items, order :: Carries(a, "freezes", Arr(items)) && Visited(entries, {}, order) && ShowsInOrder(items, entries, order)
  }

  ghost predicate StatusOutcome(a: Option<Json>, s: FreezeProtocol.State, params: Json) {
    var id := GetString(params, "id", "");
    if id == "" then ShowsAll(a, s.entries)
    else if Registered(s, id) then ShowsOne(a, s.entries[Find(s.entries, id)])
    else FailsWith(a, CodeOf(SnapshotMissing))
  }

  lemma OneIsShown(id: string, params: Json, wording: Wording, e: Entry)
    ensures ShowsOne(Some(Wrapped(id, OneStatusReply(params, wording, Success(StatusOf(e))))), e)
  {
    StatusShows(e);
    PlainCarries(id, [Member("freeze", StatusObject(StatusOf(e)))], 0, "freeze");
  }

  lemma AllAreShown(id: string, entries: seq<Entry>, order: seq<nat>, statuses: seq<FreezeStatus>)
    requires Visited(entries, {}, order)
    requires |statuses| == |order| && forall k | 0 <= k < |order| :: statuses[k] == StatusOf(entries[order[k]])
    ensures ShowsAll(Some(Wrapped(id, AllStatusReply(statuses))), entries)
  {
    var items := StatusObjects(statuses);
    forall k | 0 <= k < |order| ensures |items| == |order| && Shows(items[k], entries[order[k]]) {
      StatusObjectAt(statuses, k);
      StatusShows(entries[order[k]]);
    }
    PlainCarries(id, [Member("freezes", Arr(items))], 0, "freezes");
    assert Carries(Some(Wrapped(id, AllStatusReply(statuses))), "freezes", Arr(items));
    assert ShowsInOrder(items, entries, order);
  }

  lemma AllStatusIsAnswered(id: string, params: Json, o: Outside, s: FreezeProtocol.State)
    requires GetString(params, "id", "") == ""
    ensures ShowsAll(Some(Wrapped(id, StatusReply(params, o, s))), s.entries)
  {
    if Visited(s.entries, {}, o.listing) {
      AllAreShown(id, s.entries, o.listing, Listed(s.entries, o.listing));
    } else {
      var n := |s.entries|;
      var order: seq<nat> := seq(n, i requires 0 <= i < n => i);
      forall k: nat | k < n ensures k in order {
        assert order[k] == k;
      }
      AllAreShown(id, s.entries, order, seq(n, i requires 0 <= i < n => StatusOf(s.entries[i])));
    }
  }

  lemma StatusIsAnswered(id: string, params: Json, o: Outside, s: FreezeProtocol.State)
    ensures StatusOutcome(Some(Wrapped(id, StatusReply(params, o, s))), s, params)
  {
    var name := GetString(params, "id", "");
    if name == "" {
      AllStatusIsAnswered(id, params, o, s);
    } else if Registered(s, name) {
      OneIsShown(id, params, o.wording, s.entries[Find(s.entries, name)]);
    } else {
      RefusalFails(id, o.wording, params, SnapshotMissing);
    }
  }

  // ---------------------------------------------------------------- inspect

  predicate ShowsTarget(v: Json, t: Identity) {
    && Get(v, "pid") == Some(Int(Signed64(t.pid))) && Get(v, "start_time") == Some(Int(Signed64(t.startTime)))
    && Get(v, "image_path") == Some(Str(t.imagePath)) && Get(v, "image_sha256") == Some(Str(t.imageSha256))
    && Get(v, "architecture") == Some(Str(ArchitectureName(t.architecture)))
  }

  /** The agent says that it reads, and that it does not write without asking the policy. */
  predicate OnlyReads(v: Json) {
    && Get(v, "read") == Some(Bool(true)) && Get(v, "write") == Some(Bool(false))
    && Get(v, "freeze") == Some(Bool(false)) && Get(v, "rollback") == Some(Bool(false))
  }

  ghost predicate InspectOutcome(a: Option<Json>, t: Identity) {
    exists target, caps :: Carries(a, "target", target) && ShowsTarget(target, t) && Carries(a, "capabilities", caps) && OnlyReads(caps)
  }

  lemma TargetIsShown(t: Identity)
    ensures ShowsTarget(InspectReply(t).members[0].value, t)
  {
    var m := InspectReply(t).members[0].value.members;
    LookupAt(m, 0, "pid");
    LookupAt(m, 1, "image_path");
    LookupAt(m, 2, "image_sha256");
    LookupAt(m, 3, "architecture");
    LookupAt(m, 4, "start_time");
  }

  lemma CapabilitiesAreShown(t: Identity)
    ensures OnlyReads(InspectReply(t).members[1].value)
  {
    var m := InspectReply(t).members[1].value.members;
    LookupAt(m, 0, "read");
    LookupAt(m, 1, "write");
    LookupAt(m, 2, "freeze");
    LookupAt(m, 3, "rollback");
  }

  lemma InspectIsAnswered(id: string, t: Identity)
    ensures InspectOutcome(Some(Wrapped(id, InspectReply(t))), t)
  {
    var m := InspectReply(t).members;
    TargetIsShown(t);
    CapabilitiesAreShown(t);
    PlainCarries(id, m, 0, "target");
    PlainCarries(id, m, 1, "capabilities");
  }

  // ---------------------------------------------------------------- parse

  predicate ShowsSupported(v: Json, e: CheatTables.CheatEntry, hotkeys: seq<Int64>) {
    && Get(v, "id") == Some(Str(e.id)) && Get(v, "description") == Some(Str(e.description))
    && Get(v, "address") == Some(Int(Signed64(e.address))) && Get(v, "type") == Some(Str(TypeName(e.variableType)))
    && Get(v, "is_signed") == Some(Bool(e.signed)) && Get(v, "hotkeys") == Some(Arr(Integers(hotkeys)))
  }

  predicate ShowsRefused(v: Json, e: CheatTables.CheatEntry, why: CheatTables.Reason -> string) {
    && Get(v, "id") == Some(Str(e.id))
    && (e.reason.Some? ==> Get(v, "reason") == Some(Str(why(e.reason.value))))
  }

  lemma SupportedIsShown(e: CheatTables.CheatEntry, o: Outside)
    ensures |SupportedObjects([e], o)| == 1 && ShowsSupported(SupportedObjects([e], o)[0], e, o.hotkeys(e))
  {
    var m := SupportedObjects([e], o)[0].members;
    LookupAt(m, 0, "id");
    LookupAt(m, 1, "description");
    LookupAt(m, 2, "address");
    LookupAt(m, 3, "type");
    LookupAt(m, 4, "is_signed");
    LookupAt(m, 5, "hotkeys");
  }

  lemma RefusedIsShown(e: CheatTables.CheatEntry, o: Outside)
    ensures |UnsupportedObjects([e], o)| == 1 && ShowsRefused(UnsupportedObjects([e], o)[0], e, o.why)
  {
    var m := UnsupportedObjects([e], o)[0].members;
    LookupAt(m, 0, "id");
    LookupAt(m, 1, "reason");
  }

  lemma {:induction false} SupportedAt(entries: seq<CheatTables.CheatEntry>, o: Outside, k: nat)
    requires k < |entries|
    ensures |SupportedObjects(entries, o)| == |entries|
    ensures ShowsSupported(SupportedObjects(entries, o)[k], entries[k], o.hotkeys(entries[k]))
    decreases |entries|
  {
    SupportedIsShown(entries[0], o);
    assert SupportedObjects(entries, o)[0] == SupportedObjects([entries[0]], o)[0];
    if |entries| > 1 {
      SupportedAt(entries[1..], o, if k > 0 then k - 1 else 0);
    }
  }

  lemma {:induction false} UnsupportedAt(entries: seq<CheatTables.CheatEntry>, o: Outside, k: nat)
    requires k < |entries|
    ensures |UnsupportedObjects(entries, o)| == |entries|
    ensures ShowsRefused(UnsupportedObjects(entries, o)[k], entries[k], o.why)
    decreases |entries|
  {
    RefusedIsShown(entries[0], o);
    assert UnsupportedObjects(entries, o)[0] == UnsupportedObjects([entries[0]], o)[0];
    if |entries| > 1 {
      UnsupportedAt(entries[1..], o, if k > 0 then k - 1 else 0);
    }
  }

  lemma {:induction false} IntegerAt(numbers: seq<Int64>, k: nat)
    requires k < |numbers|
    ensures |Integers(numbers)| == |numbers| && Integers(numbers)[k] == Int(numbers[k])
    decreases |numbers|
  {
    if |numbers| > 1 {
      IntegerAt(numbers[1..], if k > 0 then k - 1 else 0);
    }
  }

  lemma {:induction false} TextAt(lines: seq<string>, k: nat)
    requires k < |lines|
    ensures |Texts(lines)| == |lines| && Texts(lines)[k] == Str(lines[k])
    decreases |lines|
  {
    if |lines| > 1 {
      TextAt(lines[1..], if k > 0 then k - 1 else 0);
    }
  }

  predicate SupportedListed(items: seq<Json>, entries: seq<CheatTables.CheatEntry>, hotkeys: CheatTables.CheatEntry -> seq<Int64>) {
    |items| == |entries| && forall k | 0 <= k < |items| :: ShowsSupported(items[k], entries[k], hotkeys(entries[k]))
  }

  predicate RefusedListed(items: seq<Json>, entries: seq<CheatTables.CheatEntry>, why: CheatTables.Reason -> string) {
    |items| == |entries| && forall k | 0 <= k < |items| :: ShowsRefused(items[k], entries[k], why)
  }

  predicate LinesListed(items: seq<Json>, lines: seq<string>) {
    |items| == |lines| && forall k | 0 <= k < |items| :: items[k] == Str(lines[k])
  }

  ghost predicate ListsSupported(a: Option<Json>, table: CheatTables.CheatTable, o: Outside) {
    exists items :: Carries(a, "supported", Arr(items)) && SupportedListed(items, table.entries, o.hotkeys)
  }

  ghost predicate ListsRefused(a: Option<Json>, table: CheatTables.CheatTable, o: Outside) {
    exists items :: Carries(a, "unsupported", Arr(items)) && RefusedListed(items, table.unsupported, o.why)
  }

  ghost predicate ListsDiagnostics(a: Option<Json>, o: Outside) {
    exists items :: Carries(a, "diagnostics", Arr(items)) && LinesListed(items, o.diagnostics)
  }

  /** Every entry of the table in its place, supported or not. */
  ghost predicate ParseOutcome(a: Option<Json>, params: Json, o: Outside) {
    match CheatTables.TableOf(GetString(params, "xml", ""), o.parse)
    case Failure(e) => FailsWith(a, CodeOf(e))
    case Success(table) => ListsSupported(a, table, o) && ListsRefused(a, table, o) && ListsDiagnostics(a, o)
  }

  lemma ListsAreShown(table: CheatTables.CheatTable, o: Outside)
    ensures SupportedListed(SupportedObjects(table.entries, o), table.entries, o.hotkeys)
    ensures RefusedListed(UnsupportedObjects(table.unsupported, o), table.unsupported, o.why)
    ensures LinesListed(Texts(o.diagnostics), o.diagnostics)
  {
    forall k | 0 <= k < |table.entries|
      ensures |SupportedObjects(table.entries, o)| == |table.entries|
      ensures ShowsSupported(SupportedObjects(table.entries, o)[k], table.entries[k], o.hotkeys(table.entries[k]))
    {
      SupportedAt(table.entries, o, k);
    }
    forall k | 0 <= k < |table.unsupported|
      ensures |UnsupportedObjects(table.unsupported, o)| == |table.unsupported|
      ensures ShowsRefused(UnsupportedObjects(table.unsupported, o)[k], table.unsupported[k], o.why)
    {
      UnsupportedAt(table.unsupported, o, k);
    }
    forall k | 0 <= k < |o.diagnostics| ensures |Texts(o.diagnostics)| == |o.diagnostics| && Texts(o.diagnostics)[k] == Str(o.diagnostics[k]) {
      TextAt(o.diagnostics, k);
    }
  }

  lemma TableIsShown(id: string, table: CheatTables.CheatTable, o: Outside)
    ensures var a := Some(Wrapped(id, TableObject(table, o)));
            ListsSupported(a, table, o) && ListsRefused(a, table, o) && ListsDiagnostics(a, o)
  {
    ListsAreShown(table, o);
    var m := TableObject(table, o).members;
    PlainCarries(id, m, 0, "supported");
    PlainCarries(id, m, 1, "unsupported");
    PlainCarries(id, m, 2, "diagnostics");
  }

  lemma ParseIsAnswered(id: string, params: Json, o: Outside)
    ensures ParseOutcome(Some(Wrapped(id, ParseReply(params, o))), params, o)
  {
    match CheatTables.TableOf(GetString(params, "xml", ""), o.parse)
    case Failure(e) => RefusalFails(id, o.wording, params, e);
    case Success(table) => TableIsShown(id, table, o);
  }
}
