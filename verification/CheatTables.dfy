/**
  Building a cheat table from its XML: every CheatEntry child becomes one entry, filed as supported or as
  unsupported. The conversion of text to integers is a parameter.
*/
module CheatTables {
  import opened Common
  import opened ByteMemory
  import opened JsonCodec
  import opened XmlGrammar
  import opened XmlText
  import XmlRoundTrip

  datatype VariableType =
    | UInt8 | Int8 | UInt16 | Int16 | UInt32 | Int32 | UInt64 | Int64Type
    | Float32 | Float64 | StringType | BytesType

  /** Why an entry is not supported. */
  datatype Reason = UnknownType | Script | Injection | RawBytes

  datatype CheatEntry = CheatEntry(
    id: string, description: string, section: string, address: Address, offsets: seq<Address>,
    variableType: Option<VariableType>, signed: bool, reason: Option<Reason>)

  datatype CheatTable = CheatTable(entries: seq<CheatEntry>, unsupported: seq<CheatEntry>)

  type ParseInt = string -> Option<Int64>

  // ---------------------------------------------------------------- looking things up

  /** The first child with the name. */
  function FindChild(children: seq<Xml>, name: string): (r: Option<Xml>)
    ensures r.Some? ==> r.value in children && r.value.name == name
    ensures r.None? <==> forall c | c in children :: c.name != name
  {
    if children == [] then None
    else
      assert children == [children[0]] + children[1..];
      if children[0].name == name then Some(children[0]) else FindChild(children[1..], name)
  }

  predicate Has(x: Xml, name: string) {
    FindChild(x.children, name).Some?
  }

  /** The text of the first child with the name, or nothing. */
  function ChildText(x: Xml, name: string): string {
    match FindChild(x.children, name)
    case Some(child) => child.text
    case None => ""
  }

  function AttributeOf(x: Xml, name: string): string {
    if name in x.attrs then x.attrs[name] else ""
  }

  /** build_entry_id */
  function EntryId(x: Xml, index: nat): string {
    if AttributeOf(x, "ID") != "" then "id:" + AttributeOf(x, "ID")
    else if ChildText(x, "ID") != "" then "id:" + ChildText(x, "ID")
    else if AttributeOf(x, "Description") != "" then "desc:" + AttributeOf(x, "Description")
    else if ChildText(x, "Description") != "" then "desc:" + ChildText(x, "Description")
    else "anon:" + ShowNat(index)
  }

  // ---------------------------------------------------------------- types

  function ToLower(c: char): char {
    if 'A' <= c <= 'Z' then (c as int - 'A' as int + 'a' as int) as char else c
  }

  function Lower(s: string): (r: string)
    ensures |r| == |s|
  {
    if s == "" then "" else [ToLower(s[0])] + Lower(s[1..])
  }

  function TrimEnd(s: string): string {
    if s != "" && IsSpace(s[|s| - 1]) then TrimEnd(s[..|s| - 1]) else s
  }

  /** A type, whether it is signed, and the names it goes by. */
  datatype TypeNames = TypeNames(names: seq<string>, variableType: VariableType, signed: bool)

  const TYPES: nat := 12

  function TypeAt(k: nat): TypeNames {
    match k
    case 0 => TypeNames(["byte", "uint8", "1 byte"], UInt8, false)
    case 1 => TypeNames(["char", "int8", "signed byte"], Int8, true)
    case 2 => TypeNames(["2 bytes", "2 byte", "word", "uint16"], UInt16, false)
    case 3 => TypeNames(["short", "int16", "signed 2 bytes"], Int16, true)
    case 4 => TypeNames(["4 bytes", "4 byte", "dword", "uint32"], UInt32, false)
    case 5 => TypeNames(["int", "int32", "long", "signed 4 bytes"], Int32, true)
    case 6 => TypeNames(["8 bytes", "8 byte", "qword", "uint64"], UInt64, false)
    case 7 => TypeNames(["int64", "signed 8 bytes"], Int64Type, true)
    case 8 => TypeNames(["float", "float32", "single"], Float32, false)
    case 9 => TypeNames(["double", "float64"], Float64, false)
    case 10 => TypeNames(["string"], StringType, false)
    case _ => TypeNames(["bytes", "array of bytes"], BytesType, false)
  }

  function TypeFrom(name: string, k: nat): Option<TypeNames>
    decreases TYPES - k
  {
    if k >= TYPES then None else if name in TypeAt(k).names then Some(TypeAt(k)) else TypeFrom(name, k + 1)
  }

  /** parse_variable_type, in any case and with white space around the name. */
  function TypeNamed(text: string): Option<TypeNames> {
    TypeFrom(TrimEnd(SkipSpace(Lower(text))), 0)
  }

  /** The element that carries the address, the offsets and the type. */
  function Variable(x: Xml): Xml {
    match FindChild(x.children, "Variable")
    case Some(v) => v
    case None => x
  }

  /** DisplayAs counts before VariableType, and that before Type. */
  function TypeText(x: Xml): string {
    if Has(Variable(x), "DisplayAs") then ChildText(Variable(x), "DisplayAs")
    else if ChildText(x, "VariableType") != "" then ChildText(x, "VariableType")
    else ChildText(Variable(x), "Type")
  }

  // ---------------------------------------------------------------- one entry

  const SCRIPTS: seq<string> := ["AssemblerScript", "AutoAssembler", "AA", "AAScript", "LuaScript"]
  const INJECTIONS: seq<string> := ["Inject", "LoadLibrary", "ShellExecute", "DllInjection"]
  const RAW_BYTES: seq<string> := ["ByteArray", "Bytes"]

  predicate HasAny(x: Xml, names: seq<string>) {
    names != [] && (Has(x, names[0]) || HasAny(x, names[1..]))
  }

  /** The first reason to refuse an entry. */
  function RefusalOf(x: Xml): Option<Reason> {
    if TypeNamed(TypeText(x)).None? then Some(UnknownType)
    else if HasAny(x, SCRIPTS) then Some(Script)
    else if HasAny(x, INJECTIONS) then Some(Injection)
    else if HasAny(x, RAW_BYTES) then Some(RawBytes)
    else None
  }

  function Number(text: string, parse: ParseInt): Option<Address> {
    match parse(text)
    case Some(n) => Some(Wrap(n))
    case None => None
  }

  function IndexOf(s: string, c: char): (i: nat)
    ensures i <= |s| && (i < |s| ==> s[i] == c)
  {
    if s == "" || s[0] == c then 0 else 1 + IndexOf(s[1..], c)
  }

  /** The address, and the module name when the address is given as module plus offset. */
  function AddressOf(v: Xml, parse: ParseInt): (Address, string) {
    var own := if AttributeOf(v, "Address") != "" then Number(AttributeOf(v, "Address"), parse) else None;
    if own.Some? && own.value != 0 then (own.value, "")
    else
      match FindChild(v.children, "Address")
      case None => (0, "")
      case Some(node) =>
        var plus := IndexOf(node.text, '+');
        match Number(node.text, parse)
        case Some(a) => (a, "")
        case None =>
          if plus == |node.text| then (0, "")
          else
            match Number(node.text[plus + 1..], parse)
            case Some(a) => (a, node.text[..plus])
            case None => (0, "")
  }

  function OffsetsIn(children: seq<Xml>, parse: ParseInt): seq<Address> {
    if children == [] then []
    else
      var last := |children| - 1;
      var n := if children[last].name == "Offset" then Number(children[last].text, parse) else None;
      OffsetsIn(children[..last], parse) + if n.Some? then [n.value] else []
  }

  function OffsetsOf(v: Xml, parse: ParseInt): seq<Address> {
    match FindChild(v.children, "Offsets")
    case None => []
    case Some(node) =>
      var own := Number(node.text, parse);
      (if own.Some? then [own.value] else []) + OffsetsIn(node.children, parse)
  }

  /** ShowAsSigned counts only for an entry whose type is unknown: a known type sets its own sign. */
  function SignedOf(x: Xml, parse: ParseInt): bool {
    match TypeNamed(TypeText(x))
    case Some(t) => t.signed
    case None => var n := parse(ChildText(x, "ShowAsSigned")); Has(x, "ShowAsSigned") && n.Some? && n.value != 0
  }

  function SectionOf(x: Xml, moduleName: string, parse: ParseInt): string {
    var own := ChildText(x, "Section");
    if RefusalOf(x).None? && Has(x, "Color") && parse(ChildText(x, "Color")).Some? then "color:0x" + ChildText(x, "Color")
    else if own == "" then moduleName
    else own
  }

  function EntryOf(x: Xml, index: nat, parse: ParseInt): CheatEntry {
    var found, t := AddressOf(Variable(x), parse), TypeNamed(TypeText(x));
    CheatEntry(
      EntryId(x, index),
      if "Description" in x.attrs then x.attrs["Description"] else ChildText(x, "Description"),
      SectionOf(x, found.1, parse), found.0, OffsetsOf(Variable(x), parse),
      if t.Some? then Some(t.value.variableType) else None, SignedOf(x, parse), RefusalOf(x))
  }

  // ---------------------------------------------------------------- the table

  /** The CheatEntry elements, in document order. */
  function Cheats(children: seq<Xml>): seq<Xml> {
    if children == [] then []
    else
      var last := |children| - 1;
      Cheats(children[..last]) + if children[last].name == "CheatEntry" then [children[last]] else []
  }

  function File(table: CheatTable, e: CheatEntry): CheatTable {
    if e.reason.None? then table.(entries := table.entries + [e]) else table.(unsupported := table.unsupported + [e])
  }

  /** Each CheatEntry element filed, with its number as its index. */
  function Filed(cheats: seq<Xml>, read: (Xml, nat) -> CheatEntry): CheatTable {
    if cheats == [] then CheatTable([], [])
    else
      var last := |cheats| - 1;
      File(Filed(cheats[..last], read), read(cheats[last], last))
  }

  function Reader(parse: ParseInt): (Xml, nat) -> CheatEntry {
    (x: Xml, index: nat) => EntryOf(x, index, parse)
  }

  /** parse_string without the title, the version and the diagnostics. */
  function TableOf(text: string, parse: ParseInt): Result<CheatTable> {
    match ParseRoot(Sanitized(text))
    case Failure(e) => Failure(e)
    case Success(root) =>
      if root.name != "CheatTable" then Failure(ParseFailed)
      else
        match FindChild(root.children, "CheatEntries")
        case None => Success(CheatTable([], []))
        case Some(node) => Success(Filed(Cheats(node.children), Reader(parse)))
  }

  function SanitizedChar(c: char): char {
    if c == '\t' || c == '\n' || c == '\r' then c else if c < ' ' then ' ' else c
  }

  function Sanitized(s: string): (r: string)
    ensures |r| == |s|
  {
    if s == "" then "" else Sanitized(s[..|s| - 1]) + [SanitizedChar(s[|s| - 1])]
  }

  method Sanitize(input: string) returns (out: string)
    ensures out == Sanitized(input)
  {
    out := "";
    for i := 0 to |input|
      invariant out == Sanitized(input[..i])
    {
      assert input[..i + 1][..i] == input[..i];
      out := out + [SanitizedChar(input[i])];
    }
    assert input[..|input|] == input;
  }

  /** The offsets loop. */
  method ReadOffsets(v: Xml, parse: ParseInt) returns (offsets: seq<Address>)
    ensures offsets == OffsetsOf(v, parse)
  {
    offsets := [];
    var node := FindChild(v.children, "Offsets");
    if node.None? {
      return;
    }
    var own := Number(node.value.text, parse);
    if own.Some? {
      offsets := [own.value];
    }
    ghost var first := offsets;
    var subs := node.value.children;
    for i := 0 to |subs|
      invariant offsets == first + OffsetsIn(subs[..i], parse)
    {
      assert subs[..i + 1][..i] == subs[..i];
      if subs[i].name == "Offset" {
        var n := Number(subs[i].text, parse);
        if n.Some? {
          offsets := offsets + [n.value];
        }
      }
    }
    assert subs[..|subs|] == subs;
  }

  /** The body of the entry loop: the first check that fails gives the reason. */
  method ReadEntry(child: Xml, index: nat, parse: ParseInt) returns (entry: CheatEntry)
    ensures entry == EntryOf(child, index, parse)
  {
    var variable := Variable(child);
    var found := AddressOf(variable, parse);
    var offsets := ReadOffsets(variable, parse);
    var t := TypeNamed(TypeText(child));
    var reason := None;
    if t.None? {
      reason := Some(UnknownType);
    } else if HasAny(child, SCRIPTS) {
      reason := Some(Script);
    } else if HasAny(child, INJECTIONS) {
      reason := Some(Injection);
    } else if HasAny(child, RAW_BYTES) {
      reason := Some(RawBytes);
    }
    assert reason == RefusalOf(child);
    var description := if "Description" in child.attrs then child.attrs["Description"] else ChildText(child, "Description");
    return CheatEntry(EntryId(child, index), description, SectionOf(child, found.1, parse), found.0, offsets,
                      if t.Some? then Some(t.value.variableType) else None, SignedOf(child, parse), reason);
  }

  ghost predicate ReadsAs(read: (Xml, nat) -> CheatEntry, parse: ParseInt) {
    forall x: Xml, i: nat {:trigger EntryOf(x, i, parse)} :: read(x, i) == EntryOf(x, i, parse)
  }

  /** One turn of the entry loop, for a CheatEntry element. */
  method FileEntry(table: CheatTable, child: Xml, index: nat, parse: ParseInt, ghost before: seq<Xml>, ghost read: (Xml, nat) -> CheatEntry)
    returns (r: CheatTable)
    requires ReadsAs(read, parse) && index == |before| && table == Filed(before, read)
    ensures r == Filed(before + [child], read)
  {
    var entry := ReadEntry(child, index, parse);
    FiledNext(before, child, read);
    if entry.reason.Some? {
      r := table.(unsupported := table.unsupported + [entry]);
    } else {
      r := table.(entries := table.entries + [entry]);
    }
  }

  /** The entry loop. */
  method FileEntries(children: seq<Xml>, parse: ParseInt, ghost read: (Xml, nat) -> CheatEntry) returns (table: CheatTable)
    requires ReadsAs(read, parse)
    ensures table == Filed(Cheats(children), read)
  {
    table := CheatTable([], []);
    var index := 0;
    for i := 0 to |children|
      invariant index == |Cheats(children[..i])|
      invariant table == Filed(Cheats(children[..i]), read)
    {
      CheatsNext(children, i);
      if children[i].name == "CheatEntry" {
        table := FileEntry(table, children[i], index, parse, Cheats(children[..i]), read);
        index := index + 1;
      }
    }
    assert children[..|children|] == children;
  }

  lemma CheatsNext(children: seq<Xml>, i: nat)
    requires i < |children|
    ensures var before := Cheats(children[..i]);
            Cheats(children[..i + 1]) == if children[i].name == "CheatEntry" then before + [children[i]] else before
  {
    assert children[..i + 1][..i] == children[..i];
  }

  lemma FiledNext(cheats: seq<Xml>, x: Xml, read: (Xml, nat) -> CheatEntry)
    ensures Filed(cheats + [x], read) == File(Filed(cheats, read), read(x, |cheats|))
  {
    var all, last := cheats + [x], |cheats|;
    assert all != [] && |all| - 1 == last && all[..last] == cheats && all[last] == x;
    assert Filed(all, read) == File(Filed(all[..last], read), read(all[last], last));
  }

  method ParseString(text: string, parse: ParseInt) returns (r: Result<CheatTable>)
    ensures r == TableOf(text, parse)
  {
    var cleaned := Sanitize(text);
    var root := ReadXml(cleaned);
    if root.Failure? {
      return Failure(root.error);
    }
    if root.value.name != "CheatTable" {
      return Failure(ParseFailed);
    }
    var entries := FindChild(root.value.children, "CheatEntries");
    if entries.None? {
      return Success(CheatTable([], []));
    }
    var table := FileEntries(entries.value.children, parse, Reader(parse));
    return Success(table);
  }

  // ---------------------------------------------------------------- the partition

  /** An entry is supported when its type is known and it has none of the refused children. */
  predicate Supported(x: Xml) {
    TypeNamed(TypeText(x)).Some?
    && forall child | child in x.children :: child.name !in SCRIPTS && child.name !in INJECTIONS && child.name !in RAW_BYTES
  }

  lemma {:induction false} HasAnyIff(x: Xml, names: seq<string>)
    ensures HasAny(x, names) <==> exists child :: child in x.children && child.name in names
  {
    if names != [] {
      HasAnyIff(x, names[1..]);
      assert names == [names[0]] + names[1..];
    }
  }

  lemma RefusedIff(x: Xml)
    ensures RefusalOf(x).None? <==> Supported(x)
  {
    HasAnyIff(x, SCRIPTS);
    HasAnyIff(x, INJECTIONS);
    HasAnyIff(x, RAW_BYTES);
  }

  predicate Rising(positions: seq<nat>) {
    forall i, j | 0 <= i < j < |positions| :: positions[i] < positions[j]
  }

  /** The entries are those of the cheats at the given positions. */
  predicate EntriesAt(entries: seq<CheatEntry>, cheats: seq<Xml>, positions: seq<nat>, read: (Xml, nat) -> CheatEntry) {
    && |entries| == |positions|
    && forall i | 0 <= i < |positions| :: positions[i] < |cheats| && entries[i] == read(cheats[positions[i]], positions[i])
  }

  function Side(table: CheatTable, supported: bool): seq<CheatEntry> {
    if supported then table.entries else table.unsupported
  }

  lemma EntriesAtNext(entries: seq<CheatEntry>, cheats: seq<Xml>, positions: seq<nat>, read: (Xml, nat) -> CheatEntry)
    requires cheats != [] && EntriesAt(entries, cheats[..|cheats| - 1], positions, read)
    ensures var last := |cheats| - 1;
            && EntriesAt(entries, cheats, positions, read)
            && EntriesAt(entries + [read(cheats[last], last)], cheats, positions + [last], read)
  {
  }

  lemma RisingNext(positions: seq<nat>, last: nat)
    requires Rising(positions) && forall k | k in positions :: k < last
    ensures Rising(positions + [last])
  {
    assert forall i | 0 <= i < |positions| :: positions[i] in positions;
  }

  /** Filing keeps the order of either side. */
  lemma {:induction false} SideKeepsOrder(cheats: seq<Xml>, read: (Xml, nat) -> CheatEntry, supported: bool) returns (positions: seq<nat>)
    ensures Rising(positions)
    ensures EntriesAt(Side(Filed(cheats, read), supported), cheats, positions, read)
    ensures forall k: nat :: k in positions <==> k < |cheats| && (read(cheats[k], k).reason.None? <==> supported)
  {
    positions := [];
    if cheats != [] {
      var last := |cheats| - 1;
      positions := SideKeepsOrder(cheats[..last], read, supported);
      EntriesAtNext(Side(Filed(cheats[..last], read), supported), cheats, positions, read);
      if read(cheats[last], last).reason.None? <==> supported {
        RisingNext(positions, last);
        positions := positions + [last];
      }
    }
  }

  lemma {:induction false} NothingIsLost(cheats: seq<Xml>, read: (Xml, nat) -> CheatEntry)
    ensures |Filed(cheats, read).entries| + |Filed(cheats, read).unsupported| == |cheats|
  {
    if cheats != [] {
      NothingIsLost(cheats[..|cheats| - 1], read);
    }
  }

  /**
    Every CheatEntry element lands in exactly one of the two lists, in document order: among the entries if
    and only if it is supported.
  */
  lemma Partition(cheats: seq<Xml>, parse: ParseInt) returns (supported: seq<nat>, refused: seq<nat>)
    ensures Rising(supported) && Rising(refused)
    ensures EntriesAt(Filed(cheats, Reader(parse)).entries, cheats, supported, Reader(parse))
    ensures EntriesAt(Filed(cheats, Reader(parse)).unsupported, cheats, refused, Reader(parse))
    ensures forall k: nat :: k in supported <==> k < |cheats| && Supported(cheats[k])
    ensures forall k: nat :: k in refused <==> k < |cheats| && !Supported(cheats[k])
    ensures |supported| + |refused| == |cheats|
  {
    supported := SideKeepsOrder(cheats, Reader(parse), true);
    refused := SideKeepsOrder(cheats, Reader(parse), false);
    NothingIsLost(cheats, Reader(parse));
    forall k: nat | k < |cheats| ensures Reader(parse)(cheats[k], k).reason.None? <==> Supported(cheats[k]) {
      ReasonIff(cheats[k], k, parse);
    }
  }

  lemma ReasonIff(x: Xml, index: nat, parse: ParseInt)
    ensures Reader(parse)(x, index).reason.None? <==> Supported(x)
  {
    RefusedIff(x);
  }

  /** The sign of an entry whose type is known comes from its type alone; ShowAsSigned has no say. */
  lemma SignComesFromType(x: Xml, index: nat, parse: ParseInt)
    ensures var e := EntryOf(x, index, parse);
            e.variableType.Some? ==> (e.signed <==> e.variableType.value in {Int8, Int16, Int32, Int64Type})
  {
    SignOfType(TrimEnd(SkipSpace(Lower(TypeText(x)))), 0);
  }

  lemma {:induction false} SignOfType(name: string, k: nat)
    ensures var t := TypeFrom(name, k);
            t.Some? ==> (t.value.signed <==> t.value.variableType in {Int8, Int16, Int32, Int64Type})
    decreases TYPES - k
  {
    if k < TYPES {
      SignOfType(name, k + 1);
    }
  }

  // ---------------------------------------------------------------- from a printed file to its table

  predicate WithoutControls(s: string) {
    forall c | c in s :: c >= ' ' || c == '\t' || c == '\n' || c == '\r'
  }

  lemma {:induction false} SanitizingKeeps(s: string)
    requires WithoutControls(s)
    ensures Sanitized(s) == s
  {
    if s != "" {
      var last := |s| - 1;
      assert s[last] in s && forall c | c in s[..last] :: c in s;
      SanitizingKeeps(s[..last]);
      assert s == s[..last] + [s[last]];
    }
  }

  /** The table of a printed file is the filing of its CheatEntry elements, whatever the layout of the file. */
  lemma PrintedFileGivesTable(f: XmlRoundTrip.File, node: Xml, parse: ParseInt)
    requires XmlRoundTrip.GoodFile(f) && WithoutControls(XmlRoundTrip.ShowFile(f))
    requires f.root.name == "CheatTable"
    requires FindChild(XmlRoundTrip.Tree(f.root).children, "CheatEntries") == Some(node)
    ensures TableOf(XmlRoundTrip.ShowFile(f), parse) == Success(Filed(Cheats(node.children), Reader(parse)))
  {
    SanitizingKeeps(XmlRoundTrip.ShowFile(f));
    XmlRoundTrip.FileReadsBack(f);
  }
}
