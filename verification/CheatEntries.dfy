/**
  What a cheat-table file says about its entries. A list of entries written as a file, in any layout, with any
  way to write numbers that the reader's conversion understands, is read back as the same entries in their order.
*/
module CheatEntries {
  import opened Common
  import opened ByteMemory
  import opened JsonCodec
  import opened XmlGrammar
  import opened CheatTables
  import XmlRoundTrip
  import XmlReading
  import AgentMessages
  import FreezeProtocol

  // ---------------------------------------------------------------- the names of types

  lemma {:induction false} LowerKeeps(s: string)
    requires forall c | c in s :: ToLower(c) == c
    ensures Lower(s) == s
  {
    if s != "" {
      LowerKeeps(s[1..]);
      assert s == [s[0]] + s[1..];
    }
  }

  lemma {:induction false} LowerOfParts(a: string, b: string)
    ensures Lower(a + b) == Lower(a) + Lower(b)
  {
    if a == "" {
      assert a + b == b;
    } else {
      assert (a + b)[1..] == a[1..] + b;
      LowerOfParts(a[1..], b);
    }
  }

  lemma {:induction false} TrimBlank(s: string, b: string)
    requires Blank(b)
    ensures TrimEnd(s + b) == TrimEnd(s)
    decreases |b|
  {
    if b == "" {
      assert s + b == s;
    } else {
      var last := |b| - 1;
      assert (s + b)[..|s| + last] == s + b[..last];
      assert (s + b)[|s| + last] == b[last] && b[last] in b;
      TrimBlank(s, b[..last]);
    }
  }

  lemma BlankIsLower(b: string)
    requires Blank(b)
    ensures Lower(b) == b
  {
    LowerKeeps(b);
  }

  lemma {:induction false} SkipThenBlank(s: string, b: string)
    requires Blank(b)
    ensures TrimEnd(SkipSpace(s + b)) == TrimEnd(SkipSpace(s))
  {
    if s != "" && IsSpace(s[0]) {
      assert (s + b)[1..] == s[1..] + b;
      SkipThenBlank(s[1..], b);
    } else if s == "" {
      SkipBlank(b, "");
      assert s + b == b && b + "" == b;
    } else {
      TrimBlank(s, b);
    }
  }

  /** A type is known in upper and lower case and with white space around its name. */
  lemma TypeInAnyLayout(before: string, name: string, after: string, other: string)
    requires Blank(before) && Blank(after) && Lower(other) == Lower(name)
    ensures TypeNamed(before + (other + after)) == TypeNamed(name)
  {
    LowerOfParts(before, other + after);
    LowerOfParts(other, after);
    BlankIsLower(before);
    BlankIsLower(after);
    SkipBlank(before, Lower(other) + after);
    SkipThenBlank(Lower(other), after);
  }

  lemma {:induction false} FirstWithName(name: string, j: nat, k: nat)
    requires j <= k < TYPES && name in TypeAt(k).names && forall i | j <= i < k :: name !in TypeAt(i).names
    ensures TypeFrom(name, j) == Some(TypeAt(k))
    decreases k - j
  {
    if j < k {
      FirstWithName(name, j + 1, k);
    }
  }

  lemma NamesOfShortTypes(j: nat, k: nat, name: string)
    requires j < k <= 4 && name in TypeAt(k).names
    ensures name !in TypeAt(j).names
  {
  }

  lemma NamesOfLongTypes(j: nat, k: nat, name: string)
    requires j < k && 5 <= k <= 7 && name in TypeAt(k).names
    ensures name !in TypeAt(j).names
  {
  }

  lemma NamesOfFloats(j: nat, k: nat, name: string)
    requires j < k && 8 <= k <= 9 && name in TypeAt(k).names
    ensures name !in TypeAt(j).names
  {
  }

  lemma NamesOfOtherTypes(j: nat, k: nat, name: string)
    requires j < k && 10 <= k < TYPES && name in TypeAt(k).names
    ensures name !in TypeAt(j).names
  {
  }

  /** No two types share a name. */
  lemma NamesAreApart(j: nat, k: nat, name: string)
    requires j < TYPES && k < TYPES && name in TypeAt(j).names && name in TypeAt(k).names
    ensures j == k
  {
    var low, high := if j < k then j else k, if j < k then k else j;
    if low < high {
      if high <= 4 {
        NamesOfShortTypes(low, high, name);
      } else if high <= 7 {
        NamesOfLongTypes(low, high, name);
      } else if high <= 9 {
        NamesOfFloats(low, high, name);
      } else {
        NamesOfOtherTypes(low, high, name);
      }
    }
  }

  /** The names a type goes by, in any order of asking. */
  lemma TypeIffNamed(text: string, t: TypeNames)
    ensures TypeNamed(text) == Some(t) <==>
              exists k: nat :: k < TYPES && t == TypeAt(k) && TrimEnd(SkipSpace(Lower(text))) in TypeAt(k).names
  {
    var name := TrimEnd(SkipSpace(Lower(text)));
    FoundIsNamed(name, 0);
    if k: nat :| k < TYPES && t == TypeAt(k) && name in TypeAt(k).names {
      forall i: nat | i < k ensures name !in TypeAt(i).names {
        if name in TypeAt(i).names {
          NamesAreApart(i, k, name);
        }
      }
      FirstWithName(name, 0, k);
    }
  }

  lemma {:induction false} FoundIsNamed(name: string, j: nat)
    ensures TypeFrom(name, j).Some? ==> exists k: nat :: k < TYPES && TypeFrom(name, j).value == TypeAt(k) && name in TypeAt(k).names
    decreases TYPES - j
  {
    if j < TYPES {
      FoundIsNamed(name, j + 1);
    }
  }

  lemma NamedAt(name: string, k: nat)
    requires k < TYPES && name in TypeAt(k).names && Lower(name) == name && TrimEnd(SkipSpace(name)) == name
    ensures TypeNamed(name) == Some(TypeAt(k))
  {
    TypeIffNamed(name, TypeAt(k));
  }

  /** The row of a type in the table. */
  function RowOf(t: VariableType): (k: nat)
    ensures k < TYPES && TypeAt(k).variableType == t
  {
    match t
    case UInt8 => 0
    case Int8 => 1
    case UInt16 => 2
    case Int16 => 3
    case UInt32 => 4
    case Int32 => 5
    case UInt64 => 6
    case Int64Type => 7
    case Float32 => 8
    case Float64 => 9
    case StringType => 10
    case BytesType => 11
  }

  function NameOfType(t: VariableType): string {
    AgentMessages.TypeName(Some(t))
  }

  lemma NameIsInRow(t: VariableType)
    ensures NameOfType(t) in TypeAt(RowOf(t)).names
  {
  }

  /** No capitals, and no white space at either end. */
  predicate Bare(name: string) {
    && (forall c | c in name :: ToLower(c) == c)
    && name != "" && !IsSpace(name[0]) && !IsSpace(name[|name| - 1])
  }

  lemma BareStays(name: string)
    requires Bare(name)
    ensures Lower(name) == name && TrimEnd(SkipSpace(name)) == name
  {
    LowerKeeps(name);
  }

  lemma NameIsBare(t: VariableType)
    ensures Bare(NameOfType(t))
  {
  }

  predicate SignedType(t: VariableType) {
    t == Int8 || t == Int16 || t == Int32 || t == Int64Type
  }

  lemma SignOfRow(k: nat)
    requires k < TYPES
    ensures TypeAt(k).signed <==> SignedType(TypeAt(k).variableType)
  {
  }

  /** The name that parse reports for a type is one under which the type is known. */
  lemma TypeNameReadsBack(t: VariableType)
    ensures TypeNamed(NameOfType(t)).Some?
    ensures TypeNamed(NameOfType(t)).value.variableType == t && (TypeNamed(NameOfType(t)).value.signed <==> SignedType(t))
  {
    NameIsInRow(t);
    NameIsBare(t);
    BareStays(NameOfType(t));
    NamedAt(NameOfType(t), RowOf(t));
    SignOfRow(RowOf(t));
  }

  predicate IntegerType(t: VariableType) {
    !t.Float32? && !t.Float64? && !t.StringType? && !t.BytesType?
  }

  lemma BitsInText()
    ensures ShowNat(8) == "8" && ShowNat(16) == "16" && ShowNat(32) == "32" && ShowNat(64) == "64"
  {
    assert ShowNat(1) == "1" && ShowNat(3) == "3" && ShowNat(6) == "6";
  }

  /** The name of an integer type tells its sign and the bits that freezing it takes. */
  lemma NameTellsWidth(t: VariableType)
    requires IntegerType(t)
    ensures NameOfType(t) == (if SignedType(t) then "int" else "uint") + ShowNat(8 * FreezeProtocol.SizeForType(NameOfType(t)))
  {
    BitsInText();
  }

  lemma FloatsAreNamed(name: string)
    requires name == "float" || name == "double"
    ensures Bare(name) && name in TypeAt(if name == "float" then 8 else 9).names
  {
  }

  lemma FloatIsNamed(name: string)
    requires name == "float" || name == "double"
    ensures TypeNamed(name) == Some(TypeAt(if name == "float" then 8 else 9))
  {
    FloatsAreNamed(name);
    BareStays(name);
    NamedAt(name, if name == "float" then 8 else 9);
  }

  lemma FloatBits(name: string)
    requires name == "float" || name == "double"
    ensures NameOfType(TypeAt(if name == "float" then 8 else 9).variableType) == "float" + ShowNat(8 * FreezeProtocol.SizeForType(name))
  {
    BitsInText();
  }

  /** The two names of floating-point numbers that freezing knows are those of types whose name tells the bits as well. */
  lemma FloatNameTellsWidth(name: string)
    requires name == "float" || name == "double"
    ensures TypeNamed(name).Some?
    ensures NameOfType(TypeNamed(name).value.variableType) == "float" + ShowNat(8 * FreezeProtocol.SizeForType(name))
  {
    FloatIsNamed(name);
    FloatBits(name);
  }

  /** So does a name that counts the bytes. */
  lemma BytesTellWidth(n: nat, signed: bool)
    requires n == 2 || n == 4 || n == 8
    ensures var t := TypeNamed((if signed then "signed " else "") + ([(n + '0' as int) as char] + " bytes"));
            t.Some? && IntegerType(t.value.variableType) && FreezeProtocol.SizeForType(NameOfType(t.value.variableType)) == n
            && t.value.signed == signed && SignedType(t.value.variableType) == signed
  {
    var name := (if signed then "signed " else "") + ([(n + '0' as int) as char] + " bytes");
    BytesAreNamed(n, signed, name);
    BareStays(name);
    NamedAt(name, RowOfBytes(n, signed));
    WidthOfRow(n, signed);
  }

  function RowOfBytes(n: nat, signed: bool): (k: nat)
    ensures k < TYPES
  {
    (if n == 2 then 2 else if n == 4 then 4 else 6) + if signed then 1 else 0
  }

  lemma WidthOfRow(n: nat, signed: bool)
    requires n == 2 || n == 4 || n == 8
    ensures var row := TypeAt(RowOfBytes(n, signed));
            && IntegerType(row.variableType) && FreezeProtocol.SizeForType(NameOfType(row.variableType)) == n
            && row.signed == signed && SignedType(row.variableType) == signed
  {
  }

  lemma BytesAreNamed(n: nat, signed: bool, name: string)
    requires (n == 2 || n == 4 || n == 8) && name == (if signed then "signed " else "") + ([(n + '0' as int) as char] + " bytes")
    ensures name in TypeAt(RowOfBytes(n, signed)).names
    ensures Bare(name)
  {
    assert !signed ==> name == (if n == 2 then "2 bytes" else if n == 4 then "4 bytes" else "8 bytes");
    assert signed ==> name == (if n == 2 then "signed 2 bytes" else if n == 4 then "signed 4 bytes" else "signed 8 bytes");
  }

  lemma NamesOfShortTypesAreBare(k: nat, name: string)
    requires k < 4 && name in TypeAt(k).names
    ensures Bare(name)
  {
  }

  lemma NamesOfLongTypesAreBare(k: nat, name: string)
    requires 4 <= k < 8 && name in TypeAt(k).names
    ensures Bare(name)
  {
  }

  lemma NamesOfOthersAreBare(k: nat, name: string)
    requires 8 <= k < TYPES && name in TypeAt(k).names
    ensures Bare(name)
  {
  }

  /** Every name in the table finds its type. */
  lemma EveryNameIsFound(k: nat, name: string)
    requires k < TYPES && name in TypeAt(k).names
    ensures TypeNamed(name) == Some(TypeAt(k))
  {
    if k < 4 {
      NamesOfShortTypesAreBare(k, name);
    } else if k < 8 {
      NamesOfLongTypesAreBare(k, name);
    } else {
      NamesOfOthersAreBare(k, name);
    }
    BareStays(name);
    NamedAt(name, k);
  }

  const WORDS: seq<string> := ["byte", "word", "dword", "qword"]
  const C_TYPES: seq<string> := ["char", "short", "int", "int64"]

  lemma WordsAreNamed(i: nat)
    requires i < 4
    ensures WORDS[i] in TypeAt(2 * i).names && C_TYPES[i] in TypeAt(2 * i + 1).names
  {
  }

  lemma WidthDoubles(i: nat)
    requires i < 4
    ensures var unsigned, signed := TypeAt(2 * i), TypeAt(2 * i + 1);
            var width := FreezeProtocol.SizeForType(NameOfType(unsigned.variableType));
            && !unsigned.signed && signed.signed && FreezeProtocol.SizeForType(NameOfType(signed.variableType)) == width
            && width == (if i == 0 then 1 else 2 * FreezeProtocol.SizeForType(NameOfType(TypeAt(2 * i - 2).variableType)))
  {
  }

  function WidthNamed(name: string): nat {
    match TypeNamed(name)
    case Some(t) => FreezeProtocol.SizeForType(NameOfType(t.variableType))
    case None => 0
  }

  /** A word is twice a byte and so on, without a sign; the names of C have the same widths, with a sign. */
  lemma WordsDouble(i: nat)
    requires i < 4
    ensures WidthNamed(WORDS[i]) == WidthNamed(C_TYPES[i]) == if i == 0 then 1 else 2 * WidthNamed(WORDS[i - 1])
    ensures TypeNamed(WORDS[i]).Some? && !TypeNamed(WORDS[i]).value.signed
    ensures TypeNamed(C_TYPES[i]).Some? && TypeNamed(C_TYPES[i]).value.signed
  {
    WordsAreNamed(i);
    EveryNameIsFound(2 * i, WORDS[i]);
    EveryNameIsFound(2 * i + 1, C_TYPES[i]);
    WidthDoubles(i);
    if i > 0 {
      WordsAreNamed(i - 1);
      EveryNameIsFound(2 * i - 2, WORDS[i - 1]);
    }
  }

  // ---------------------------------------------------------------- an entry as an element

  /** A supported entry: id may be empty, and with a module name the address counts from the module. */
  datatype Listed = Listed(
    id: string, description: string, moduleName: string, address: Address, offsets: seq<Address>, variableType: VariableType)

  type Show = Address -> string

  /** The reader's conversion takes a number that was written back, and does not take nothing for a number. */
  ghost predicate Inverse(parse: ParseInt, show: Show) {
    parse("").None? && forall a: Address {:trigger show(a)} :: Number(show(a), parse) == Some(a)
  }

  function AddressText(d: Listed, show: Show): string {
    if d.moduleName == "" then show(d.address) else d.moduleName + ("+" + show(d.address))
  }

  /** A module name has no plus sign, and module and offset together are no number. */
  predicate Writable(d: Listed, show: Show, parse: ParseInt) {
    d.moduleName != "" ==> '+' !in d.moduleName && parse(AddressText(d, show)).None?
  }

  function Leaf(name: string, text: string): Xml {
    Node(name, text, map[], [])
  }

  function OffsetLeaves(offsets: seq<Address>, show: Show): seq<Xml> {
    seq(|offsets|, i requires 0 <= i < |offsets| => Leaf("Offset", show(offsets[i])))
  }

  /** DisplayAs counts before VariableType, and that before Type. */
  datatype TypePlace = InDisplayAs | InVariableType | InType

  datatype Heading = NoHeading | InSection(text: string) | InColor(text: string)

  /**
    How an entry is laid out: which texts are attributes, in which element the type stands and what the elements
    say that count less, whether there is an element around the variable, and whether the first offset is text.
  */
  datatype Form = Form(
    idInAttr: bool, descriptionInAttr: bool, typeIn: TypePlace, ignored: string, heading: Heading,
    wrapped: bool, addressInAttr: bool, firstInText: bool)

  /** A module name needs an element; a section has a name; a color is a number; what is text must be there. */
  predicate Fits(f: Form, d: Listed, parse: ParseInt) {
    && (f.addressInAttr ==> d.moduleName == "")
    && (f.heading.InSection? ==> f.heading.text != "")
    && (f.heading.InColor? ==> parse(f.heading.text).Some?)
    && (f.firstInText ==> d.offsets != [])
  }

  function Opt(on: bool, x: Xml): seq<Xml> {
    if on then [x] else []
  }

  function OffsetsNode(f: Form, d: Listed, show: Show): Xml {
    if f.firstInText && d.offsets != []
    then Node("Offsets", show(d.offsets[0]), map[], OffsetLeaves(d.offsets[1..], show))
    else Node("Offsets", "", map[], OffsetLeaves(d.offsets, show))
  }

  function TypeLeaf(f: Form, d: Listed): Xml {
    Leaf("Type", if f.typeIn == InType then NameOfType(d.variableType) else f.ignored)
  }

  function VariableTypeLeaf(f: Form, d: Listed): Xml {
    Leaf("VariableType", if f.typeIn == InVariableType then NameOfType(d.variableType) else f.ignored)
  }

  function VariableParts(f: Form, d: Listed, show: Show): seq<Xml> {
    Opt(f.typeIn == InDisplayAs, Leaf("DisplayAs", NameOfType(d.variableType)))
    + (Opt(true, TypeLeaf(f, d))
    + (Opt(!f.addressInAttr, Leaf("Address", AddressText(d, show)))
    + Opt(true, OffsetsNode(f, d, show))))
  }

  function VariableAttrs(f: Form, d: Listed, show: Show): map<string, string> {
    if f.addressInAttr then map["Address" := AddressText(d, show)] else map[]
  }

  function Tail(f: Form, d: Listed, show: Show): seq<Xml> {
    if f.wrapped then Opt(true, Node("Variable", "", VariableAttrs(f, d, show), VariableParts(f, d, show)))
    else VariableParts(f, d, show)
  }

  function HeadingText(f: Form): string {
    if f.heading.NoHeading? then "" else f.heading.text
  }

  function Parts(f: Form, d: Listed, show: Show): seq<Xml> {
    Opt(!f.idInAttr, Leaf("ID", d.id))
    + (Opt(!f.descriptionInAttr, Leaf("Description", d.description))
    + (Opt(f.typeIn != InType, VariableTypeLeaf(f, d))
    + (Opt(f.heading.InSection?, Leaf("Section", HeadingText(f)))
    + (Opt(f.heading.InColor?, Leaf("Color", HeadingText(f)))
    + Tail(f, d, show)))))
  }

  function OwnAttrs(f: Form, d: Listed): map<string, string> {
    (if f.idInAttr then map["ID" := d.id] else map[]) + if f.descriptionInAttr then map["Description" := d.description] else map[]
  }

  function Element(f: Form, d: Listed, show: Show): Xml {
    Node("CheatEntry", "", OwnAttrs(f, d) + if f.wrapped then map[] else VariableAttrs(f, d, show), Parts(f, d, show))
  }

  /** The entry that is read, as number index of its table. */
  function Entry(f: Form, d: Listed, index: nat): CheatEntry {
    CheatEntry(
      if d.id != "" then "id:" + d.id else if d.description != "" then "desc:" + d.description else "anon:" + ShowNat(index),
      d.description,
      match f.heading case NoHeading => d.moduleName case InSection(text) => text case InColor(text) => "color:0x" + text,
      d.address, d.offsets, Some(d.variableType), SignedType(d.variableType), None)
  }

  // ---------------------------------------------------------------- looking things up in an element

  lemma FindOpt(on: bool, x: Xml, rest: seq<Xml>, name: string)
    ensures FindChild(Opt(on, x) + rest, name) == if on && x.name == name then Some(x) else FindChild(rest, name)
  {
    if on {
      assert ([x] + rest)[1..] == rest;
    } else {
      assert Opt(on, x) + rest == rest;
    }
  }

  /** The child of the variable with the name. */
  function InVariable(f: Form, d: Listed, show: Show, name: string): Option<Xml> {
    if name == "DisplayAs" && f.typeIn == InDisplayAs then Some(Leaf("DisplayAs", NameOfType(d.variableType)))
    else if name == "Type" then Some(TypeLeaf(f, d))
    else if name == "Address" && !f.addressInAttr then Some(Leaf("Address", AddressText(d, show)))
    else if name == "Offsets" then Some(OffsetsNode(f, d, show))
    else None
  }

  lemma VariableFinds(f: Form, d: Listed, show: Show, name: string)
    ensures FindChild(VariableParts(f, d, show), name) == InVariable(f, d, show, name)
  {
    var offsets := Opt(true, OffsetsNode(f, d, show));
    var address := Opt(!f.addressInAttr, Leaf("Address", AddressText(d, show))) + offsets;
    assert offsets + [] == offsets;
    FindOpt(true, OffsetsNode(f, d, show), [], name);
    FindOpt(!f.addressInAttr, Leaf("Address", AddressText(d, show)), offsets, name);
    FindOpt(true, TypeLeaf(f, d), address, name);
    FindOpt(f.typeIn == InDisplayAs, Leaf("DisplayAs", NameOfType(d.variableType)), Opt(true, TypeLeaf(f, d)) + address, name);
  }

  /** The child of what comes behind the texts with the name. */
  function InTail(f: Form, d: Listed, show: Show, name: string): Option<Xml> {
    if f.wrapped then
      if name == "Variable" then Some(Node("Variable", "", VariableAttrs(f, d, show), VariableParts(f, d, show))) else None
    else InVariable(f, d, show, name)
  }

  lemma TailFinds(f: Form, d: Listed, show: Show, name: string)
    ensures FindChild(Tail(f, d, show), name) == InTail(f, d, show, name)
  {
    if f.wrapped {
      var x := Node("Variable", "", VariableAttrs(f, d, show), VariableParts(f, d, show));
      assert Opt(true, x) + [] == Opt(true, x);
      FindOpt(true, x, [], name);
    } else {
      VariableFinds(f, d, show, name);
    }
  }

  /** The child of the entry with the name. */
  function InEntry(f: Form, d: Listed, show: Show, name: string): Option<Xml> {
    if name == "ID" && !f.idInAttr then Some(Leaf("ID", d.id))
    else if name == "Description" && !f.descriptionInAttr then Some(Leaf("Description", d.description))
    else if name == "VariableType" && f.typeIn != InType then Some(VariableTypeLeaf(f, d))
    else if name == "Section" && f.heading.InSection? then Some(Leaf("Section", HeadingText(f)))
    else if name == "Color" && f.heading.InColor? then Some(Leaf("Color", HeadingText(f)))
    else InTail(f, d, show, name)
  }

  lemma EntryFinds(f: Form, d: Listed, show: Show, name: string)
    ensures FindChild(Parts(f, d, show), name) == InEntry(f, d, show, name)
  {
    var tail := Tail(f, d, show);
    var color := Opt(f.heading.InColor?, Leaf("Color", HeadingText(f))) + tail;
    var section := Opt(f.heading.InSection?, Leaf("Section", HeadingText(f))) + color;
    var typed := Opt(f.typeIn != InType, VariableTypeLeaf(f, d)) + section;
    TailFinds(f, d, show, name);
    FindOpt(f.heading.InColor?, Leaf("Color", HeadingText(f)), tail, name);
    FindOpt(f.heading.InSection?, Leaf("Section", HeadingText(f)), color, name);
    FindOpt(f.typeIn != InType, VariableTypeLeaf(f, d), section, name);
    FindOpt(!f.descriptionInAttr, Leaf("Description", d.description), typed, name);
    FindOpt(!f.idInAttr, Leaf("ID", d.id), Opt(!f.descriptionInAttr, Leaf("Description", d.description)) + typed, name);
  }

  // ---------------------------------------------------------------- reading an element

  lemma {:induction false} OffsetsReadBack(offsets: seq<Address>, show: Show, parse: ParseInt)
    requires Inverse(parse, show)
    ensures OffsetsIn(OffsetLeaves(offsets, show), parse) == offsets
  {
    if offsets != [] {
      var last := |offsets| - 1;
      OffsetsReadBack(offsets[..last], show, parse);
      assert OffsetLeaves(offsets, show)[..last] == OffsetLeaves(offsets[..last], show);
      assert OffsetLeaves(offsets, show)[last] == Leaf("Offset", show(offsets[last]));
      assert offsets == offsets[..last] + [offsets[last]];
    }
  }

  lemma NodeReadsBack(v: Xml, f: Form, d: Listed, show: Show, parse: ParseInt)
    requires Inverse(parse, show) && Fits(f, d, parse)
    requires FindChild(v.children, "Offsets") == Some(OffsetsNode(f, d, show))
    ensures OffsetsOf(v, parse) == d.offsets
  {
    if f.firstInText {
      OffsetsReadBack(d.offsets[1..], show, parse);
      assert Number(show(d.offsets[0]), parse) == Some(d.offsets[0]);
      assert d.offsets == [d.offsets[0]] + d.offsets[1..];
    } else {
      OffsetsReadBack(d.offsets, show, parse);
      assert [] + d.offsets == d.offsets;
    }
  }

  lemma {:induction false} PlusIsFound(before: string, after: string)
    requires '+' !in before
    ensures IndexOf(before + ("+" + after), '+') == |before|
  {
    if before != "" {
      assert (before + ("+" + after))[1..] == before[1..] + ("+" + after);
      PlusIsFound(before[1..], after);
    }
  }

  lemma AddressReadsBack(v: Xml, d: Listed, show: Show, parse: ParseInt)
    requires Inverse(parse, show) && Writable(d, show, parse)
    requires if "Address" in v.attrs
             then d.moduleName == "" && v.attrs["Address"] == AddressText(d, show) && FindChild(v.children, "Address").None?
             else FindChild(v.children, "Address") == Some(Leaf("Address", AddressText(d, show)))
    ensures AddressOf(v, parse) == (d.address, d.moduleName)
  {
    var text := AddressText(d, show);
    assert Number(show(d.address), parse) == Some(d.address);
    if d.moduleName != "" {
      PlusIsFound(d.moduleName, show(d.address));
      assert text[|d.moduleName| + 1..] == show(d.address) && text[..|d.moduleName|] == d.moduleName;
    }
  }

  /** Looking up a name among the children gives what the form says. */
  ghost predicate Looks(children: seq<Xml>, f: Form, d: Listed, show: Show) {
    forall name :: FindChild(children, name) == InEntry(f, d, show, name)
  }

  lemma PartsLook(f: Form, d: Listed, show: Show)
    ensures Looks(Parts(f, d, show), f, d, show)
  {
    forall name ensures FindChild(Parts(f, d, show), name) == InEntry(f, d, show, name) {
      EntryFinds(f, d, show, name);
    }
  }

  /** Name by name. */
  predicate Shaped(x: Xml, f: Form, d: Listed, show: Show) {
    && FindChild(x.children, "ID") == (if f.idInAttr then None else Some(Leaf("ID", d.id)))
    && FindChild(x.children, "Description") == (if f.descriptionInAttr then None else Some(Leaf("Description", d.description)))
    && FindChild(x.children, "VariableType") == (if f.typeIn == InType then None else Some(VariableTypeLeaf(f, d)))
    && FindChild(x.children, "Section") == (if f.heading.InSection? then Some(Leaf("Section", HeadingText(f))) else None)
    && FindChild(x.children, "Color") == (if f.heading.InColor? then Some(Leaf("Color", HeadingText(f))) else None)
    && x.attrs == OwnAttrs(f, d) + if f.wrapped then map[] else VariableAttrs(f, d, show)
  }

  /** The same for the element of the variable. */
  predicate VariableShaped(v: Xml, f: Form, d: Listed, show: Show) {
    && FindChild(v.children, "DisplayAs") == (if f.typeIn == InDisplayAs then Some(Leaf("DisplayAs", NameOfType(d.variableType))) else None)
    && FindChild(v.children, "Type") == Some(TypeLeaf(f, d))
    && FindChild(v.children, "Address") == (if f.addressInAttr then None else Some(Leaf("Address", AddressText(d, show))))
    && FindChild(v.children, "Offsets") == Some(OffsetsNode(f, d, show))
    && (if f.addressInAttr then "Address" in v.attrs && v.attrs["Address"] == AddressText(d, show) else "Address" !in v.attrs)
  }

  lemma OwnNames(f: Form, d: Listed, show: Show)
    ensures InEntry(f, d, show, "ID") == if f.idInAttr then None else Some(Leaf("ID", d.id))
    ensures InEntry(f, d, show, "Description") == if f.descriptionInAttr then None else Some(Leaf("Description", d.description))
    ensures InEntry(f, d, show, "VariableType") == if f.typeIn == InType then None else Some(VariableTypeLeaf(f, d))
    ensures InEntry(f, d, show, "Section") == if f.heading.InSection? then Some(Leaf("Section", HeadingText(f))) else None
    ensures InEntry(f, d, show, "Color") == if f.heading.InColor? then Some(Leaf("Color", HeadingText(f))) else None
  {
  }

  lemma VariableNames(f: Form, d: Listed, show: Show)
    ensures InEntry(f, d, show, "Variable") == InTail(f, d, show, "Variable")
    ensures !f.wrapped ==>
              && InEntry(f, d, show, "DisplayAs") == InVariable(f, d, show, "DisplayAs")
              && InEntry(f, d, show, "Type") == InVariable(f, d, show, "Type")
              && InEntry(f, d, show, "Address") == InVariable(f, d, show, "Address")
              && InEntry(f, d, show, "Offsets") == InVariable(f, d, show, "Offsets")
  {
  }

  lemma ElementIsShaped(x: Xml, f: Form, d: Listed, show: Show)
    requires Looks(x.children, f, d, show)
    requires x.attrs == OwnAttrs(f, d) + if f.wrapped then map[] else VariableAttrs(f, d, show)
    ensures Shaped(x, f, d, show)
  {
    OwnNames(f, d, show);
  }

  lemma InVariableNames(f: Form, d: Listed, show: Show)
    ensures InVariable(f, d, show, "DisplayAs") == if f.typeIn == InDisplayAs then Some(Leaf("DisplayAs", NameOfType(d.variableType))) else None
    ensures InVariable(f, d, show, "Type") == Some(TypeLeaf(f, d))
    ensures InVariable(f, d, show, "Address") == if f.addressInAttr then None else Some(Leaf("Address", AddressText(d, show)))
    ensures InVariable(f, d, show, "Offsets") == Some(OffsetsNode(f, d, show))
  {
  }

  ghost predicate VariableLooks(children: seq<Xml>, f: Form, d: Listed, show: Show) {
    forall name :: FindChild(children, name) == InVariable(f, d, show, name)
  }

  lemma VariablePartsLook(f: Form, d: Listed, show: Show)
    ensures VariableLooks(VariableParts(f, d, show), f, d, show)
  {
    forall name ensures FindChild(VariableParts(f, d, show), name) == InVariable(f, d, show, name) {
      VariableFinds(f, d, show, name);
    }
  }

  lemma WrappedIsShaped(v: Xml, f: Form, d: Listed, show: Show)
    requires v.attrs == VariableAttrs(f, d, show) && VariableLooks(v.children, f, d, show)
    ensures VariableShaped(v, f, d, show)
  {
    InVariableNames(f, d, show);
  }

  lemma UnwrappedIsShaped(x: Xml, f: Form, d: Listed, show: Show)
    requires !f.wrapped && Looks(x.children, f, d, show)
    requires x.attrs == OwnAttrs(f, d) + VariableAttrs(f, d, show)
    ensures FindChild(x.children, "Variable").None? && VariableShaped(x, f, d, show)
  {
    VariableNames(f, d, show);
    InVariableNames(f, d, show);
  }

  lemma VariableIsWrapped(x: Xml, f: Form, d: Listed, show: Show)
    requires f.wrapped && Looks(x.children, f, d, show)
    ensures Variable(x) == Node("Variable", "", VariableAttrs(f, d, show), VariableParts(f, d, show))
  {
    assert FindChild(x.children, "Variable") == InEntry(f, d, show, "Variable");
  }

  lemma VariableIsShaped(x: Xml, f: Form, d: Listed, show: Show)
    requires Looks(x.children, f, d, show)
    requires x.attrs == OwnAttrs(f, d) + if f.wrapped then map[] else VariableAttrs(f, d, show)
    ensures VariableShaped(Variable(x), f, d, show)
  {
    if f.wrapped {
      VariableIsWrapped(x, f, d, show);
      VariablePartsLook(f, d, show);
      WrappedIsShaped(Variable(x), f, d, show);
    } else {
      UnwrappedIsShaped(x, f, d, show);
    }
  }

  lemma TypeReadsBack(x: Xml, f: Form, d: Listed, show: Show)
    requires Shaped(x, f, d, show) && VariableShaped(Variable(x), f, d, show)
    ensures TypeText(x) == NameOfType(d.variableType)
  {
    NameIsBare(d.variableType);
  }

  lemma {:induction false} NoneOf(x: Xml, names: seq<string>)
    requires forall name | name in names :: FindChild(x.children, name).None?
    ensures !HasAny(x, names)
  {
    if names != [] {
      assert names[0] in names && forall name | name in names[1..] :: name in names;
      NoneOf(x, names[1..]);
    }
  }

  lemma RefusedNamesAreOthers(name: string)
    requires name in SCRIPTS || name in INJECTIONS || name in RAW_BYTES
    ensures name !in {"ID", "Description", "VariableType", "Section", "Color", "Variable", "DisplayAs", "Type", "Address", "Offsets"}
  {
  }

  lemma NothingIsRefused(x: Xml, f: Form, d: Listed, show: Show)
    requires Looks(x.children, f, d, show)
    ensures !HasAny(x, SCRIPTS) && !HasAny(x, INJECTIONS) && !HasAny(x, RAW_BYTES)
  {
    forall name | name in SCRIPTS || name in INJECTIONS || name in RAW_BYTES ensures FindChild(x.children, name).None? {
      RefusedNamesAreOthers(name);
      assert FindChild(x.children, name) == InEntry(f, d, show, name);
    }
    NoneOf(x, SCRIPTS);
    NoneOf(x, INJECTIONS);
    NoneOf(x, RAW_BYTES);
  }

  lemma IdReadsBack(x: Xml, f: Form, d: Listed, show: Show, index: nat)
    requires Shaped(x, f, d, show)
    ensures EntryId(x, index) == Entry(f, d, index).id
    ensures d.description == if "Description" in x.attrs then x.attrs["Description"] else ChildText(x, "Description")
  {
  }

  lemma SectionReadsBack(x: Xml, f: Form, d: Listed, show: Show, index: nat, parse: ParseInt)
    requires Shaped(x, f, d, show) && RefusalOf(x).None? && Fits(f, d, parse)
    ensures SectionOf(x, d.moduleName, parse) == Entry(f, d, index).section
  {
  }

  lemma PlaceReadsBack(v: Xml, f: Form, d: Listed, show: Show, parse: ParseInt)
    requires VariableShaped(v, f, d, show) && Inverse(parse, show) && Writable(d, show, parse) && Fits(f, d, parse)
    ensures AddressOf(v, parse) == (d.address, d.moduleName) && OffsetsOf(v, parse) == d.offsets
  {
    AddressReadsBack(v, d, show, parse);
    NodeReadsBack(v, f, d, show, parse);
  }

  lemma ShapedReadsBack(x: Xml, f: Form, d: Listed, index: nat, show: Show, parse: ParseInt)
    requires Shaped(x, f, d, show) && VariableShaped(Variable(x), f, d, show)
    requires !HasAny(x, SCRIPTS) && !HasAny(x, INJECTIONS) && !HasAny(x, RAW_BYTES)
    requires Inverse(parse, show) && Writable(d, show, parse) && Fits(f, d, parse)
    ensures EntryOf(x, index, parse) == Entry(f, d, index)
  {
    TypeReadsBack(x, f, d, show);
    TypeNameReadsBack(d.variableType);
    IdReadsBack(x, f, d, show, index);
    SectionReadsBack(x, f, d, show, index, parse);
    PlaceReadsBack(Variable(x), f, d, show, parse);
  }

  /** A written entry is read back as that entry, whatever its form. */
  lemma EntryReadsBack(f: Form, d: Listed, index: nat, show: Show, parse: ParseInt)
    requires Inverse(parse, show) && Writable(d, show, parse) && Fits(f, d, parse)
    ensures EntryOf(Element(f, d, show), index, parse) == Entry(f, d, index)
  {
    var x := Element(f, d, show);
    PartsLook(f, d, show);
    ElementIsShaped(x, f, d, show);
    VariableIsShaped(x, f, d, show);
    NothingIsRefused(x, f, d, show);
    ShapedReadsBack(x, f, d, index, show, parse);
  }

  // ---------------------------------------------------------------- a whole table

  function Elements(list: seq<(Form, Listed)>, show: Show): seq<Xml> {
    seq(|list|, i requires 0 <= i < |list| => Element(list[i].0, list[i].1, show))
  }

  function Entries(list: seq<(Form, Listed)>): seq<CheatEntry> {
    seq(|list|, i requires 0 <= i < |list| => Entry(list[i].0, list[i].1, i))
  }

  function TableTree(list: seq<(Form, Listed)>, show: Show): Xml {
    Node("CheatTable", "", map[], [Node("CheatEntries", "", map[], Elements(list, show))])
  }

  lemma {:induction false} AllAreCheats(xs: seq<Xml>)
    requires forall k | 0 <= k < |xs| :: xs[k].name == "CheatEntry"
    ensures Cheats(xs) == xs
  {
    if xs != [] {
      AllAreCheats(xs[..|xs| - 1]);
    }
  }

  /** Supported entries are all filed as such, in their order. */
  lemma {:induction false} AllAreFiled(xs: seq<Xml>, entries: seq<CheatEntry>, read: (Xml, nat) -> CheatEntry)
    requires |xs| == |entries|
    requires forall k | 0 <= k < |xs| :: read(xs[k], k) == entries[k] && entries[k].reason.None?
    ensures Filed(xs, read) == CheatTable(entries, [])
  {
    if xs != [] {
      var last := |xs| - 1;
      AllAreFiled(xs[..last], entries[..last], read);
      assert entries == entries[..last] + [entries[last]];
    }
  }

  lemma ElementsAreFiled(list: seq<(Form, Listed)>, show: Show, parse: ParseInt)
    requires Inverse(parse, show) && forall e | e in list :: Writable(e.1, show, parse) && Fits(e.0, e.1, parse)
    ensures Filed(Elements(list, show), Reader(parse)) == CheatTable(Entries(list), [])
  {
    forall k | 0 <= k < |list| ensures Reader(parse)(Elements(list, show)[k], k) == Entries(list)[k] {
      assert list[k] in list;
      EntryReadsBack(list[k].0, list[k].1, k, show, parse);
    }
    AllAreFiled(Elements(list, show), Entries(list), Reader(parse));
  }

  lemma TextIsFiled(text: string, parse: ParseInt, tree: Xml, node: Xml)
    requires WithoutControls(text) && XmlReading.Spells(text, tree)
    requires tree.name == "CheatTable" && tree.children == [node] && node.name == "CheatEntries"
    ensures TableOf(text, parse) == Success(Filed(Cheats(node.children), Reader(parse)))
  {
    XmlReading.ReadIffSpelled(text, tree);
    SanitizingKeeps(text);
    assert FindChild(tree.children, "CheatEntries") == Some(node);
  }

  lemma CheatsAreFiled(list: seq<(Form, Listed)>, show: Show, parse: ParseInt)
    requires Inverse(parse, show) && forall e | e in list :: Writable(e.1, show, parse) && Fits(e.0, e.1, parse)
    ensures Filed(Cheats(Elements(list, show)), Reader(parse)) == CheatTable(Entries(list), [])
  {
    AllAreCheats(Elements(list, show));
    ElementsAreFiled(list, show, parse);
  }

  /** The text of any document of the list, in any layout, is read as the list. */
  lemma TableReadsBack(list: seq<(Form, Listed)>, show: Show, parse: ParseInt, text: string)
    requires Inverse(parse, show) && forall e | e in list :: Writable(e.1, show, parse) && Fits(e.0, e.1, parse)
    requires WithoutControls(text) && XmlReading.Spells(text, TableTree(list, show))
    ensures TableOf(text, parse) == Success(CheatTable(Entries(list), []))
  {
    var tree := TableTree(list, show);
    TextIsFiled(text, parse, tree, tree.children[0]);
    CheatsAreFiled(list, show, parse);
  }

  /** A text has a table exactly when, without its control characters, it spells a tree whose root is a cheat table. */
  lemma TableIffSpelled(text: string, parse: ParseInt)
    ensures TableOf(text, parse).Success? <==> exists x :: XmlReading.Spells(Sanitized(text), x) && x.name == "CheatTable"
    ensures TableOf(text, parse).Failure? ==> TableOf(text, parse).error == ParseFailed
  {
    var root := ParseRoot(Sanitized(text));
    if root.Success? {
      XmlReading.ReadIffSpelled(Sanitized(text), root.value);
    }
    forall x | XmlReading.Spells(Sanitized(text), x) ensures root == Success(x) {
      XmlReading.ReadIffSpelled(Sanitized(text), x);
    }
  }
}
