/**
  What json_decode accepts, told without the parser: the texts of spelled-out documents. A document spells every
  string character as itself or as an escape, every number with its sign and digits, and has white space anywhere
  between tokens. Decoding gives a value exactly when the text spells it.
*/
module JsonReading {
  import opened Common
  import opened JsonCodec
  import JsonRoundTrip

  // ---------------------------------------------------------------- spelled-out documents

  /** The white space of the C locale. */
  const WHITE: set<char> := {' ', '\t', '\n', '\U{b}', '\U{c}', '\r'}

  /** The escapes and the characters they stand for (RFC 8259, section 7, without \u). */
  const ESCAPES: map<char, char> := map[
    '"' := '"', '\\' := '\\', '/' := '/', 'b' := '\U{8}', 'f' := '\U{c}', 'n' := '\n', 'r' := '\r', 't' := '\t']

  datatype Piece = Plain(c: char) | Escaped(letter: char)

  datatype Doc =
    | NullWord
    | BoolWord(flag: bool)
    | Whole(sign: string, digits: string)
    | Floating(sign: string, body: string)
    | Text(pieces: seq<Piece>)
    | List(items: seq<Item>, gap: string)
    | Record(entries: seq<Entry>, gap: string)

  /** A document with white space around it. */
  datatype Item = Item(before: string, doc: Doc, after: string)

  /** A key with white space around it, and the item behind its colon. */
  datatype Entry = Entry(before: string, key: seq<Piece>, gap: string, item: Item)

  predicate White(s: string) {
    forall c | c in s :: c in WHITE
  }

  // ---------------------------------------------------------------- what is legal

  predicate LegalPiece(p: Piece) {
    match p
    case Plain(c) => c != '"' && c != '\\'
    case Escaped(letter) => letter in ESCAPES
  }

  predicate LegalText(pieces: seq<Piece>) {
    forall i | 0 <= i < |pieces| :: LegalPiece(pieces[i])
  }

  predicate LegalSign(sign: string) {
    sign == "" || sign == "+" || sign == "-"
  }

  function Magnitude(digits: string): nat
    requires Digits(digits)
  {
    if digits == "" then 0 else DigitValue(digits[0]) * Power10(|digits| - 1) + Magnitude(digits[1..])
  }

  function Power10(n: nat): nat {
    if n == 0 then 1 else 10 * Power10(n - 1)
  }

  function Number(sign: string, digits: string): int
    requires Digits(digits)
  {
    if sign == "-" then -(Magnitude(digits) as int) else Magnitude(digits)
  }

  predicate IsE(c: char) {
    c == 'e' || c == 'E'
  }

  predicate IsSign(c: char) {
    c == '+' || c == '-'
  }

  /** Digits, at most one dot and at most one exponent letter, in any order; a sign only behind that letter. */
  predicate Shape(body: string) {
    && (forall i | 0 <= i < |body| :: MayStand(body, i))
    && (forall i, j | 0 <= i < j < |body| :: !(body[i] == '.' && body[j] == '.') && !(IsE(body[i]) && IsE(body[j])))
  }

  predicate MayStand(body: string, i: nat)
    requires i < |body|
  {
    IsDigit(body[i]) || body[i] == '.' || IsE(body[i]) || (IsSign(body[i]) && i > 0 && IsE(body[i - 1]))
  }

  predicate HasDot(body: string) {
    '.' in body
  }

  predicate HasE(body: string) {
    'e' in body || 'E' in body
  }

  predicate Legal(d: Doc, fl: Floats) {
    match d
    case NullWord => true
    case BoolWord(_) => true
    case Whole(sign, digits) => LegalSign(sign) && digits != "" && Digits(digits) && MIN_INT64 <= Number(sign, digits) <= MAX_INT64
    case Floating(sign, body) => LegalSign(sign) && Shape(body) && (HasDot(body) || HasE(body)) && fl.parse(sign + body).Some?
    case Text(pieces) => LegalText(pieces)
    case List(items, gap) => White(gap) && LegalItems(items, fl)
    case Record(entries, gap) => White(gap) && LegalEntries(entries, fl)
  }

  predicate LegalItem(i: Item, fl: Floats) {
    White(i.before) && Legal(i.doc, fl) && White(i.after)
  }

  predicate LegalItems(items: seq<Item>, fl: Floats) {
    items == [] || (LegalItem(items[0], fl) && LegalItems(items[1..], fl))
  }

  predicate LegalEntries(entries: seq<Entry>, fl: Floats) {
    entries == [] ||
    (&& White(entries[0].before) && LegalText(entries[0].key) && White(entries[0].gap) && LegalItem(entries[0].item, fl)
     && LegalEntries(entries[1..], fl))
  }

  // ---------------------------------------------------------------- what it says

  function Meaning(p: Piece): char
    requires LegalPiece(p)
  {
    match p
    case Plain(c) => c
    case Escaped(letter) => ESCAPES[letter]
  }

  function Chars(pieces: seq<Piece>): string
    requires LegalText(pieces)
  {
    if pieces == [] then "" else [Meaning(pieces[0])] + Chars(pieces[1..])
  }

  function Value(d: Doc, fl: Floats): Json
    requires Legal(d, fl)
  {
    match d
    case NullWord => Null
    case BoolWord(flag) => Bool(flag)
    case Whole(sign, digits) => Int(Number(sign, digits))
    case Floating(sign, body) => Real(fl.parse(sign + body).value)
    case Text(pieces) => Str(Chars(pieces))
    case List(items, _) => Arr(Values(items, fl))
    case Record(entries, _) => Obj(Members(entries, fl))
  }

  function Values(items: seq<Item>, fl: Floats): seq<Json>
    requires LegalItems(items, fl)
  {
    if items == [] then []
    else
      assert LegalItem(items[0], fl);
      [Value(items[0].doc, fl)] + Values(items[1..], fl)
  }

  function Members(entries: seq<Entry>, fl: Floats): seq<Member>
    requires LegalEntries(entries, fl)
  {
    if entries == [] then []
    else
      assert LegalItem(entries[0].item, fl);
      [Member(Chars(entries[0].key), Value(entries[0].item.doc, fl))] + Members(entries[1..], fl)
  }

  // ---------------------------------------------------------------- how it is written, in front of a tail

  function WritePiece(p: Piece): string {
    match p
    case Plain(c) => [c]
    case Escaped(letter) => ['\\', letter]
  }

  /** The pieces and the closing quote. */
  function WriteText(pieces: seq<Piece>, tail: string): string {
    if pieces == [] then ['"'] + tail else WritePiece(pieces[0]) + WriteText(pieces[1..], tail)
  }

  function Write(d: Doc, tail: string): string {
    match d
    case NullWord => "null" + tail
    case BoolWord(flag) => (if flag then "true" else "false") + tail
    case Whole(sign, digits) => sign + (digits + tail)
    case Floating(sign, body) => sign + (body + tail)
    case Text(pieces) => ['"'] + WriteText(pieces, tail)
    case List(items, gap) => ['['] + (if items == [] then gap + ([']'] + tail) else WriteItems(items, tail))
    case Record(entries, gap) => ['{'] + (if entries == [] then gap + (['}'] + tail) else WriteEntries(entries, tail))
  }

  function WriteItem(i: Item, tail: string): string {
    i.before + Write(i.doc, i.after + tail)
  }

  /** The items, the commas between them and the closing bracket. */
  function WriteItems(items: seq<Item>, tail: string): string
    requires items != []
  {
    if |items| == 1 then WriteItem(items[0], [']'] + tail)
    else WriteItem(items[0], [','] + WriteItems(items[1..], tail))
  }

  function WriteEntry(e: Entry, tail: string): string {
    e.before + (['"'] + WriteText(e.key, e.gap + ([':'] + WriteItem(e.item, tail))))
  }

  function WriteEntries(entries: seq<Entry>, tail: string): string
    requires entries != []
  {
    if |entries| == 1 then WriteEntry(entries[0], ['}'] + tail)
    else WriteEntry(entries[0], [','] + WriteEntries(entries[1..], tail))
  }

  /** The text is a legal document, white space around it allowed, that says v. */
  ghost predicate Spells(text: string, v: Json, fl: Floats) {
    exists i: Item :: LegalItem(i, fl) && Value(i.doc, fl) == v && text == WriteItem(i, "")
  }

  // ---------------------------------------------------------------- strings

  lemma WhiteIsBlank(s: string)
    ensures White(s) <==> Blank(s)
  {
    forall c: char ensures c in WHITE <==> IsSpace(c) {
    }
  }

  /** The ten decimal digits, and what each is worth. */
  lemma DigitsAgree(c: char)
    ensures IsDigit(c) <==> c in "0123456789"
    ensures forall d | 0 <= d < 10 && "0123456789"[d] == c :: DigitValue(c) == d
  {
    var all := "0123456789";
    assert all[0] == '0' && all[1] == '1' && all[2] == '2' && all[3] == '3' && all[4] == '4';
    assert all[5] == '5' && all[6] == '6' && all[7] == '7' && all[8] == '8' && all[9] == '9';
  }

  lemma EscapesAgree(c: char)
    ensures Unescape(c) == if c in ESCAPES then Some(ESCAPES[c]) else None
  {
  }

  lemma {:induction false} TextIsRead(pieces: seq<Piece>, tail: string)
    requires LegalText(pieces)
    ensures StringBody(WriteText(pieces, tail)) == Ok(Chars(pieces), tail)
  {
    var s := WriteText(pieces, tail);
    if pieces == [] {
      assert s[1..] == tail;
    } else {
      var more := WriteText(pieces[1..], tail);
      TextIsRead(pieces[1..], tail);
      match pieces[0] {
        case Plain(c) => assert s[1..] == more;
        case Escaped(letter) =>
          EscapesAgree(letter);
          assert s[2..] == more;
      }
    }
  }

  lemma {:induction false} TextIsSpelled(s: string) returns (pieces: seq<Piece>)
    requires StringBody(s).Ok?
    ensures LegalText(pieces) && Chars(pieces) == StringBody(s).value && s == WriteText(pieces, StringBody(s).rest)
    decreases |s|
  {
    if s[0] == '"' {
      pieces := [];
    } else if s[0] == '\\' && |s| > 1 {
      EscapesAgree(s[1]);
      var more := TextIsSpelled(s[2..]);
      pieces := [Escaped(s[1])] + more;
      assert s == ['\\', s[1]] + s[2..];
      assert pieces[1..] == more;
    } else {
      var more := TextIsSpelled(s[1..]);
      assert s[0] != '\\';
      pieces := [Plain(s[0])] + more;
      FirstChar(s);
      assert pieces[1..] == more;
    }
  }

  // ---------------------------------------------------------------- numbers

  /** What may stand behind a value: nothing, white space, a comma or a closing bracket. */
  predicate Delimits(tail: string) {
    tail == "" || IsSpace(tail[0]) || tail[0] == ',' || tail[0] == ']' || tail[0] == '}'
  }

  lemma MagnitudeFirst(c: char, rest: string)
    requires IsDigit(c) && Digits(rest)
    ensures Digits([c] + rest) && Magnitude([c] + rest) == DigitValue(c) * Power10(|rest|) + Magnitude(rest)
  {
    assert ([c] + rest)[1..] == rest;
  }

  lemma TimesTen(d: nat, p: nat, m: nat, v: nat)
    ensures d * (10 * p) + (10 * m + v) == 10 * (d * p + m) + v
  {
  }

  lemma {:induction false} MagnitudeSnoc(digits: string, c: char)
    requires Digits(digits) && IsDigit(c)
    ensures Digits(digits + [c]) && Magnitude(digits + [c]) == 10 * Magnitude(digits) + DigitValue(c)
  {
    if digits == "" {
      assert digits + [c] == [c] + "";
      MagnitudeFirst(c, "");
    } else {
      var d, rest := digits[0], digits[1..];
      assert d in digits && forall x | x in rest :: x in digits;
      MagnitudeSnoc(rest, c);
      MagnitudeFirst(d, rest + [c]);
      MagnitudeFirst(d, rest);
      assert digits == [d] + rest && digits + [c] == [d] + (rest + [c]);
      TimesTen(DigitValue(d), Power10(|rest|), Magnitude(rest), DigitValue(c));
    }
  }

  /** The parser's reading of digits from the left is their positional value. */
  lemma {:induction false} NatIsMagnitude(digits: string)
    requires Digits(digits)
    ensures NatOf(digits) == Magnitude(digits)
  {
    if digits != "" {
      var last := |digits| - 1;
      assert forall c | c in digits[..last] :: c in digits;
      assert digits[last] in digits;
      NatIsMagnitude(digits[..last]);
      MagnitudeSnoc(digits[..last], digits[last]);
      assert digits == digits[..last] + [digits[last]];
    }
  }

  lemma ShapeRest(body: string, n: nat)
    requires Shape(body) && n <= |body| && (n < |body| ==> !IsSign(body[n]))
    ensures Shape(body[n..])
  {
    var rest := body[n..];
    forall i | 0 <= i < |rest| ensures MayStand(rest, i) {
      assert MayStand(body, n + i);
    }
  }

  /** No second dot and no second exponent letter behind the first. */
  lemma OnlyOnce(body: string)
    requires Shape(body) && body != ""
    ensures !IsSign(body[0]) && body == [body[0]] + body[1..]
    ensures body[0] == '.' ==> !HasDot(body[1..])
    ensures IsE(body[0]) ==> !HasE(body[1..])
  {
    assert MayStand(body, 0);
    var rest := body[1..];
    forall k | 0 <= k < |rest|
      ensures (body[0] == '.' ==> rest[k] != '.') && (IsE(body[0]) ==> !IsE(rest[k]))
    {
      assert rest[k] == body[k + 1];
    }
  }

  lemma HasFirst(c: char, rest: string)
    ensures HasDot([c] + rest) <==> c == '.' || HasDot(rest)
    ensures HasE([c] + rest) <==> IsE(c) || HasE(rest)
  {
  }

  /** An exponent letter takes a sign with it. */
  predicate SignedE(s: string) {
    |s| > 1 && IsE(s[0]) && IsSign(s[1])
  }

  lemma ShapeTail(body: string)
    requires Shape(body) && body != ""
    ensures var n := if SignedE(body) then 2 else 1;
            && Shape(body[n..])
            && (HasDot(body) <==> body[0] == '.' || HasDot(body[n..])) && (HasE(body) <==> IsE(body[0]) || HasE(body[n..]))
            && (body[0] == '.' ==> !HasDot(body[n..])) && (IsE(body[0]) ==> !HasE(body[n..]))
  {
    OnlyOnce(body);
    HasFirst(body[0], body[1..]);
    if SignedE(body) {
      assert body[1..] == [body[1]] + body[2..];
      HasFirst(body[1], body[2..]);
      assert |body| > 2 ==> MayStand(body, 2);
      ShapeRest(body, 2);
    } else {
      assert |body| > 1 ==> MayStand(body, 1);
      ShapeRest(body, 1);
    }
  }

  lemma {:induction false} ShapeIsScanned(body: string, tail: string, dot: bool, exp: bool)
    requires Shape(body) && Delimits(tail) && (dot ==> !HasDot(body)) && (exp ==> !HasE(body))
    ensures ScanNumber(body + tail, dot, exp) == Scan(|body|, dot || HasDot(body), exp || HasE(body))
    decreases |body|
  {
    var s := body + tail;
    if body == "" {
      assert s == tail;
    } else {
      var n := if SignedE(body) then 2 else 1;
      OnlyOnce(body);
      ShapeTail(body);
      assert s[n..] == body[n..] + tail;
      ShapeIsScanned(body[n..], tail, dot || body[0] == '.', exp || IsE(body[0]));
      assert MayStand(body, 0);
      assert s[0] == body[0] && (|body| > 1 ==> s[1] == body[1]) && (|body| == 1 && |s| > 1 ==> s[1] == tail[0]);
      ScanFirst(s, dot, exp, n);
    }
  }

  /** The first step of the scanner. */
  lemma ScanFirst(s: string, dot: bool, exp: bool, n: nat)
    requires s != "" && (IsDigit(s[0]) || (s[0] == '.' && !dot) || (IsE(s[0]) && !exp))
    requires n == if SignedE(s) then 2 else 1
    ensures ScanNumber(s, dot, exp) == Longer(n, ScanNumber(s[n..], dot || s[0] == '.', exp || IsE(s[0])))
  {
  }

  lemma ShapeFirst(c: char, rest: string)
    requires Shape(rest) && (IsDigit(c) || (c == '.' && !HasDot(rest)) || (IsE(c) && !HasE(rest)))
    ensures Shape([c] + rest)
  {
    var body := [c] + rest;
    forall i | 0 <= i < |body| ensures MayStand(body, i) {
      assert i > 0 ==> MayStand(rest, i - 1);
    }
  }

  lemma ShapeFirstTwo(c: char, g: char, rest: string)
    requires Shape(rest) && IsE(c) && !HasE(rest) && IsSign(g)
    ensures Shape([c, g] + rest)
  {
    var body := [c, g] + rest;
    forall i | 0 <= i < |body| ensures MayStand(body, i) {
      assert i > 1 ==> MayStand(rest, i - 2);
    }
  }

  /** The characters of one step of the scanner in front of a shape. */
  lemma ShapeHead(s: string, n: nat, rest: string)
    requires s != "" && n == (if SignedE(s) then 2 else 1)
    requires Shape(rest) && (IsDigit(s[0]) || (s[0] == '.' && !HasDot(rest)) || (IsE(s[0]) && !HasE(rest)))
    ensures Shape(s[..n] + rest)
    ensures HasDot(s[..n] + rest) <==> s[0] == '.' || HasDot(rest)
    ensures HasE(s[..n] + rest) <==> IsE(s[0]) || HasE(rest)
  {
    if SignedE(s) {
      assert s[..2] == [s[0], s[1]];
      ShapeFirstTwo(s[0], s[1], rest);
      HasFirst(s[0], [s[1]] + rest);
      HasFirst(s[1], rest);
      assert [s[0], s[1]] + rest == [s[0]] + ([s[1]] + rest);
    } else {
      assert s[..1] == [s[0]];
      ShapeFirst(s[0], rest);
      HasFirst(s[0], rest);
    }
  }

  lemma {:induction false} ScannedIsShape(s: string, dot: bool, exp: bool)
    ensures var scan := ScanNumber(s, dot, exp);
            var body := s[..scan.length];
            && Shape(body) && (dot ==> !HasDot(body)) && (exp ==> !HasE(body))
            && scan.dot == (dot || HasDot(body)) && scan.exp == (exp || HasE(body))
    decreases |s|
  {
    if s != "" && (IsDigit(s[0]) || (s[0] == '.' && !dot) || (IsE(s[0]) && !exp)) {
      var n := if SignedE(s) then 2 else 1;
      var dot', exp' := dot || s[0] == '.', exp || IsE(s[0]);
      ScanFirst(s, dot, exp, n);
      ScannedIsShape(s[n..], dot', exp');
      var k := ScanNumber(s[n..], dot', exp').length;
      ShapeHead(s, n, s[n..][..k]);
      SplitTwice(s, n, k);
    }
  }

  /** A run of digits is a shape without dot and exponent. */
  lemma DigitsAreShape(digits: string)
    requires Digits(digits)
    ensures Shape(digits) && !HasDot(digits) && !HasE(digits)
  {
    forall i | 0 <= i < |digits| ensures MayStand(digits, i) && IsDigit(digits[i]) {
      assert digits[i] in digits;
    }
  }

  lemma PartsOf(a: string, b: string)
    ensures (a + b)[..|a|] == a && (a + b)[|a|..] == b
  {
  }

  /** A sign and a shape, scanned together. */
  lemma SignedIsScanned(sign: string, body: string, tail: string, fl: Floats)
    requires LegalSign(sign) && Shape(body) && body != "" && Delimits(tail)
    ensures var s := sign + (body + tail);
            && s != ""
            && ParseNumber(s, fl) == match NumberOf(sign + body, HasDot(body) || HasE(body), fl)
                                     case Some(v) => Ok(v, tail)
                                     case None => Bad
  {
    var s := sign + (body + tail);
    ShapeIsScanned(body, tail, false, false);
    OnlyOnce(body);
    assert (body + tail)[0] == body[0];
    assert SignLength(s) == |sign|;
    PartsOf(sign, body + tail);
    Associate(sign, body, tail);
    PartsOf(sign + body, tail);
  }

  lemma WholeIsRead(sign: string, digits: string)
    requires LegalSign(sign) && digits != "" && Digits(digits)
    ensures IntOf(sign + digits) == if MIN_INT64 <= Number(sign, digits) <= MAX_INT64 then Some(Number(sign, digits)) else None
  {
    var token := sign + digits;
    NatIsMagnitude(digits);
    assert digits[0] in digits;
    if sign == "" {
      assert token == digits;
    } else {
      assert token[0] == sign[0] && token[1..] == digits;
    }
  }

  lemma NumberIsRead(d: Doc, tail: string, fl: Floats)
    requires (d.Whole? || d.Floating?) && Legal(d, fl) && Delimits(tail)
    ensures var s := Write(d, tail); s != "" && ParseNumber(s, fl) == Ok(Value(d, fl), tail)
    ensures var c := Write(d, tail)[0]; IsSign(c) || IsDigit(c) || c == '.' || IsE(c)
  {
    match d {
      case Whole(sign, digits) =>
        DigitsAreShape(digits);
        WholeIsRead(sign, digits);
        SignedIsScanned(sign, digits, tail, fl);
        OnlyOnce(digits);
      case Floating(sign, body) =>
        SignedIsScanned(sign, body, tail, fl);
        OnlyOnce(body);
    }
  }

  /** The token of a number, taken apart. */
  lemma TokenParts(s: string, fl: Floats) returns (sign: string, body: string)
    requires s != "" && ParseNumber(s, fl).Ok?
    ensures LegalSign(sign) && Shape(body) && s == sign + (body + ParseNumber(s, fl).rest)
    ensures NumberOf(sign + body, HasDot(body) || HasE(body), fl) == Some(ParseNumber(s, fl).value)
  {
    var n := SignLength(s);
    var scan, t := ScanNumber(s[n..], false, false), s[n..];
    sign, body := s[..n], t[..scan.length];
    ScannedIsShape(t, false, false);
    SignIsLegal(s);
    SplitTwice(s, n, scan.length);
  }

  lemma SignIsLegal(s: string)
    ensures LegalSign(s[..SignLength(s)])
  {
    assert s != "" ==> s[..1] == [s[0]];
  }

  lemma SplitTwice(s: string, n: nat, k: nat)
    requires n + k <= |s|
    ensures s == s[..n] + (s[n..][..k] + s[n + k..]) && s[..n + k] == s[..n] + s[n..][..k]
  {
    assert s[n..] == s[n..][..k] + s[n + k..];
  }

  lemma NumberIsSpelled(s: string, fl: Floats) returns (d: Doc)
    requires s != "" && ParseNumber(s, fl).Ok?
    ensures Legal(d, fl) && Value(d, fl) == ParseNumber(s, fl).value && s == Write(d, ParseNumber(s, fl).rest)
  {
    var sign, body := TokenParts(s, fl);
    if HasDot(body) || HasE(body) {
      d := Floating(sign, body);
    } else {
      d := Whole(sign, body);
      if body != "" {
        OnlyOnce(body);
      }
      TokenDigits(sign, body);
      WholeIsRead(sign, body);
    }
  }

  /** What std::stoll accepts here is one sign at most and then digits. */
  lemma TokenDigits(sign: string, body: string)
    requires LegalSign(sign) && IntOf(sign + body).Some? && (body != "" ==> !IsSign(body[0]))
    ensures body != "" && Digits(body)
  {
    var token := sign + body;
    if sign == "" {
      assert token == body;
    } else {
      assert token[0] == sign[0] && token[1..] == body;
    }
  }

  // ---------------------------------------------------------------- every spelling is read

  lemma WordIsRead(d: Doc, tail: string, fl: Floats)
    requires d.NullWord? || d.BoolWord?
    ensures ParseValue(Write(d, tail), fl) == Ok(Value(d, fl), tail)
  {
    var token := if d.NullWord? then "null" else if d.flag then "true" else "false";
    var s := Write(d, tail);
    assert s == token + tail && SkipSpace(s) == s && s[..|token|] == token && s[|token|..] == tail;
    if d == BoolWord(false) {
      assert s[0] == 'f' && "true"[0] == 't';
    }
  }

  lemma QuoteIsRead(pieces: seq<Piece>, tail: string, fl: Floats)
    requires LegalText(pieces)
    ensures ParseString(['"'] + WriteText(pieces, tail)) == Ok(Chars(pieces), tail)
    ensures ParseValue(['"'] + WriteText(pieces, tail), fl) == Ok(Str(Chars(pieces)), tail)
  {
    var s := ['"'] + WriteText(pieces, tail);
    TextIsRead(pieces, tail);
    assert SkipSpace(s) == s && s[1..] == WriteText(pieces, tail);
  }

  /** No document begins with white space or a closing bracket. */
  lemma WriteStarts(d: Doc, tail: string, fl: Floats)
    requires Legal(d, fl)
    ensures var s := Write(d, tail); s != "" && !IsSpace(s[0]) && s[0] != ']' && s[0] != '}'
  {
    match d
    case Whole(_, _) => NumberIsRead(d, "", fl); NumberStarts(d, tail);
    case Floating(_, body) => NumberIsRead(d, "", fl); NumberStarts(d, tail);
    case _ =>
  }

  /** The first character of a number does not depend on what follows it. */
  lemma NumberStarts(d: Doc, tail: string)
    requires (d.Whole? || d.Floating?) && Write(d, "") != ""
    ensures Write(d, tail) != "" && Write(d, tail)[0] == Write(d, "")[0]
  {
    var body := if d.Whole? then d.digits else d.body;
    assert body + "" == body;
    FrontOf(d.sign, body, tail);
  }

  lemma NumberDocIsRead(d: Doc, tail: string, fl: Floats)
    requires (d.Whole? || d.Floating?) && Legal(d, fl) && Delimits(tail)
    ensures ParseValue(Write(d, tail), fl) == Ok(Value(d, fl), tail)
  {
    NumberIsRead(d, tail, fl);
    NumberDispatch(Write(d, tail), fl);
  }

  lemma NumberDispatch(s: string, fl: Floats)
    requires s != "" && (IsSign(s[0]) || IsDigit(s[0]) || s[0] == '.' || IsE(s[0]))
    ensures ParseValue(s, fl) == ParseNumber(s, fl)
  {
    assert SkipSpace(s) == s;
  }

  lemma FrontOf(a: string, b: string, tail: string)
    requires a + b != ""
    ensures a + (b + tail) != "" && (a + (b + tail))[0] == (a + b)[0]
  {
  }

  lemma SimpleIsRead(d: Doc, tail: string, fl: Floats)
    requires Legal(d, fl) && !d.List? && !d.Record? && Delimits(tail)
    ensures ParseValue(Write(d, tail), fl) == Ok(Value(d, fl), tail)
  {
    if d.Text? {
      QuoteIsRead(d.pieces, tail, fl);
    } else if d.Whole? || d.Floating? {
      NumberDocIsRead(d, tail, fl);
    } else {
      WordIsRead(d, tail, fl);
    }
  }

  lemma {:induction false} DocIsRead(d: Doc, tail: string, fl: Floats)
    requires Legal(d, fl) && Delimits(tail)
    ensures ParseValue(Write(d, tail), fl) == Ok(Value(d, fl), tail)
    decreases d, 1
  {
    match d {
      case List(items, gap) =>
        ListIsRead(items, gap, tail, fl);
        assert Write(d, tail)[1..] == if items == [] then gap + ([']'] + tail) else WriteItems(items, tail);
      case Record(entries, gap) =>
        RecordIsRead(entries, gap, tail, fl);
        assert Write(d, tail)[1..] == if entries == [] then gap + (['}'] + tail) else WriteEntries(entries, tail);
      case _ => SimpleIsRead(d, tail, fl);
    }
  }

  /** White space and what it ends at. */
  lemma WhiteIsSkipped(white: string, s: string)
    requires White(white)
    ensures SkipSpace(white + s) == SkipSpace(s)
    ensures Delimits(s) ==> Delimits(white + s)
  {
    WhiteIsBlank(white);
    SkipBlank(white, s);
    if white != "" {
      assert (white + s)[0] == white[0] && white[0] in white;
    } else {
      assert white + s == s;
    }
  }

  lemma {:induction false} ItemIsRead(i: Item, tail: string, fl: Floats)
    requires LegalItem(i, fl) && Delimits(tail)
    ensures ParseValue(WriteItem(i, tail), fl) == Ok(Value(i.doc, fl), i.after + tail)
    ensures SkipSpace(WriteItem(i, tail)) == Write(i.doc, i.after + tail)
    decreases i, 2
  {
    var s := Write(i.doc, i.after + tail);
    WhiteIsSkipped(i.after, tail);
    DocIsRead(i.doc, i.after + tail, fl);
    WriteStarts(i.doc, i.after + tail, fl);
    WhiteIsSkipped(i.before, s);
    assert SkipSpace(s) == s;
    JsonRoundTrip.ParseValueSkips(i.before + s, fl);
  }

  lemma {:induction false} ItemsAreRead(items: seq<Item>, tail: string, fl: Floats)
    requires items != [] && LegalItems(items, fl)
    ensures ParseItems(WriteItems(items, tail), fl) == Ok(Values(items, fl), tail)
    decreases items, 3
  {
    var i, more := items[0], items[1..];
    assert LegalItem(i, fl);
    if more == [] {
      var rest := [']'] + tail;
      ItemIsRead(i, rest, fl);
      WhiteIsSkipped(i.after, rest);
      assert SkipSpace(rest) == rest && rest[1..] == tail;
      assert Values(items, fl) == [Value(i.doc, fl)];
    } else {
      var rest := [','] + WriteItems(more, tail);
      ItemIsRead(i, rest, fl);
      WhiteIsSkipped(i.after, rest);
      assert SkipSpace(rest) == rest && rest[1..] == WriteItems(more, tail);
      ItemsAreRead(more, tail, fl);
    }
  }

  lemma {:induction false} ListIsRead(items: seq<Item>, gap: string, tail: string, fl: Floats)
    requires White(gap) && LegalItems(items, fl)
    ensures ParseArray(if items == [] then gap + ([']'] + tail) else WriteItems(items, tail), fl)
         == Ok(Arr(Values(items, fl)), tail)
    decreases items, 4
  {
    if items == [] {
      var rest := [']'] + tail;
      WhiteIsSkipped(gap, rest);
      assert SkipSpace(rest) == rest && rest[1..] == tail;
    } else {
      var after := if |items| == 1 then [']'] + tail else [','] + WriteItems(items[1..], tail);
      assert LegalItem(items[0], fl);
      ItemIsRead(items[0], after, fl);
      WriteStarts(items[0].doc, items[0].after + after, fl);
      ItemsAreRead(items, tail, fl);
      JsonRoundTrip.ItemsOfArray(WriteItems(items, tail), fl);
    }
  }

  lemma KeyIsRead(before: string, key: seq<Piece>, gap: string, rest: string)
    requires White(before) && LegalText(key) && White(gap)
    ensures var s := before + (['"'] + WriteText(key, gap + ([':'] + rest)));
            && ParseKey(s) == Ok(Chars(key), rest)
            && SkipSpace(s) != "" && SkipSpace(s)[0] == '"'
  {
    var colon := [':'] + rest;
    var quoted := ['"'] + WriteText(key, gap + colon);
    QuoteIsRead(key, gap + colon, Floats(_ => None, _ => ""));
    WhiteIsSkipped(before, quoted);
    WhiteIsSkipped(gap, colon);
    assert SkipSpace(quoted) == quoted && SkipSpace(colon) == colon && colon[1..] == rest;
  }

  lemma {:induction false} EntryIsRead(e: Entry, tail: string, fl: Floats)
    requires White(e.before) && LegalText(e.key) && White(e.gap) && LegalItem(e.item, fl) && Delimits(tail)
    ensures ParseMember(WriteEntry(e, tail), fl) == Ok(Member(Chars(e.key), Value(e.item.doc, fl)), e.item.after + tail)
    ensures SkipSpace(WriteEntry(e, tail)) != "" && SkipSpace(WriteEntry(e, tail))[0] == '"'
    decreases e, 3
  {
    KeyIsRead(e.before, e.key, e.gap, WriteItem(e.item, tail));
    ItemIsRead(e.item, tail, fl);
  }

  lemma {:induction false} EntriesAreRead(entries: seq<Entry>, tail: string, fl: Floats)
    requires entries != [] && LegalEntries(entries, fl)
    ensures ParseMembers(WriteEntries(entries, tail), fl) == Ok(Members(entries, fl), tail)
    decreases entries, 4
  {
    var e, more := entries[0], entries[1..];
    if more == [] {
      var rest := ['}'] + tail;
      EntryIsRead(e, rest, fl);
      WhiteIsSkipped(e.item.after, rest);
      assert SkipSpace(rest) == rest && rest[1..] == tail;
      assert Members(entries, fl) == [Member(Chars(e.key), Value(e.item.doc, fl))];
    } else {
      var rest := [','] + WriteEntries(more, tail);
      EntryIsRead(e, rest, fl);
      WhiteIsSkipped(e.item.after, rest);
      assert SkipSpace(rest) == rest && rest[1..] == WriteEntries(more, tail);
      EntriesAreRead(more, tail, fl);
    }
  }

  lemma {:induction false} RecordIsRead(entries: seq<Entry>, gap: string, tail: string, fl: Floats)
    requires White(gap) && LegalEntries(entries, fl)
    ensures ParseObject(if entries == [] then gap + (['}'] + tail) else WriteEntries(entries, tail), fl)
         == Ok(Obj(Members(entries, fl)), tail)
    decreases entries, 5
  {
    if entries == [] {
      var rest := ['}'] + tail;
      WhiteIsSkipped(gap, rest);
      assert SkipSpace(rest) == rest && rest[1..] == tail;
    } else {
      var after := if |entries| == 1 then ['}'] + tail else [','] + WriteEntries(entries[1..], tail);
      EntryIsRead(entries[0], after, fl);
      EntriesAreRead(entries, tail, fl);
      JsonRoundTrip.MembersOfObject(WriteEntries(entries, tail), fl);
    }
  }

  // ---------------------------------------------------------------- what is read is spelled

  lemma {:induction false} SpaceIsWhite(s: string) returns (white: string)
    ensures White(white) && s == white + SkipSpace(s)
  {
    white := "";
    if s != "" && IsSpace(s[0]) {
      var more := SpaceIsWhite(s[1..]);
      white := [s[0]] + more;
      WhiteIsBlank([s[0]]);
      FirstChar(s);
    }
  }

  lemma LiteralIsSpelled(s: string, word: string, v: Json)
    requires word != "" && ParseLiteral(s, word, v).Ok?
    ensures s == word + ParseLiteral(s, word, v).rest
  {
  }

  lemma {:induction false} ValueIsSpelled(s: string, fl: Floats) returns (before: string, d: Doc)
    requires ParseValue(s, fl).Ok?
    ensures White(before) && Legal(d, fl) && Value(d, fl) == ParseValue(s, fl).value
    ensures s == before + Write(d, ParseValue(s, fl).rest)
    decreases |s|, 0
  {
    before := SpaceIsWhite(s);
    var t := SkipSpace(s);
    if t[0] == '{' {
      d := ObjectIsSpelled(t[1..], fl);
      FirstChar(t);
    } else if t[0] == '[' {
      d := ArrayIsSpelled(t[1..], fl);
      FirstChar(t);
    } else if t[0] == '"' {
      var pieces := QuoteIsSpelled(t);
      d := Text(pieces);
    } else if t[0] == 't' || t[0] == 'f' {
      d := BoolWord(ParseBool(t).value.flag);
      LiteralIsSpelled(t, if d.flag then "true" else "false", Bool(d.flag));
    } else if t[0] == 'n' {
      d := NullWord;
      LiteralIsSpelled(t, "null", Null);
    } else {
      d := NumberIsSpelled(t, fl);
    }
  }

  /** One value, and the white space up to what follows it. */
  lemma {:induction false} ItemIsSpelled(s: string, fl: Floats) returns (i: Item)
    requires ParseValue(s, fl).Ok?
    ensures LegalItem(i, fl) && Value(i.doc, fl) == ParseValue(s, fl).value
    ensures s == WriteItem(i, SkipSpace(ParseValue(s, fl).rest))
    decreases |s|, 1
  {
    var before, d := ValueIsSpelled(s, fl);
    var after := SpaceIsWhite(ParseValue(s, fl).rest);
    i := Item(before, d, after);
  }

  lemma {:induction false} ArrayIsSpelled(s: string, fl: Floats) returns (d: Doc)
    requires ParseArray(s, fl).Ok?
    ensures Legal(d, fl) && Value(d, fl) == ParseArray(s, fl).value && ['['] + s == Write(d, ParseArray(s, fl).rest)
    decreases |s|, 3
  {
    var t := SkipSpace(s);
    if t != "" && t[0] == ']' {
      var gap := SpaceIsWhite(s);
      d := List([], gap);
      FirstChar(t);
    } else {
      JsonRoundTrip.ItemsOfArray(s, fl);
      var items := ItemsAreSpelled(s, fl);
      d := List(items, "");
    }
  }

  lemma {:induction false} ItemsAreSpelled(s: string, fl: Floats) returns (items: seq<Item>)
    requires ParseItems(s, fl).Ok?
    ensures items != [] && LegalItems(items, fl) && Values(items, fl) == ParseItems(s, fl).value
    ensures s == WriteItems(items, ParseItems(s, fl).rest)
    decreases |s|, 2
  {
    var i := ItemIsSpelled(s, fl);
    var t := SkipSpace(ParseValue(s, fl).rest);
    FirstChar(t);
    if t[0] == ',' {
      var more := ItemsAreSpelled(t[1..], fl);
      items := [i] + more;
      assert items[1..] == more;
    } else {
      items := [i];
      assert Values([], fl) == [];
    }
  }

  lemma {:induction false} ObjectIsSpelled(s: string, fl: Floats) returns (d: Doc)
    requires ParseObject(s, fl).Ok?
    ensures Legal(d, fl) && Value(d, fl) == ParseObject(s, fl).value && ['{'] + s == Write(d, ParseObject(s, fl).rest)
    decreases |s|, 5
  {
    var t := SkipSpace(s);
    if t != "" && t[0] == '}' {
      var gap := SpaceIsWhite(s);
      d := Record([], gap);
      FirstChar(t);
    } else {
      MembersStart(s, fl);
      var entries := EntriesAreSpelled(s, fl);
      d := Record(entries, "");
    }
  }

  /** White space in front of the first member may be left to that member. */
  lemma MembersStart(s: string, fl: Floats)
    ensures ParseMembers(SkipSpace(s), fl) == ParseMembers(s, fl)
  {
    JsonRoundTrip.SkipSpaceTwice(s);
    assert ParseMember(SkipSpace(s), fl) == ParseMember(s, fl);
  }

  lemma KeyIsSpelled(s: string) returns (before: string, key: seq<Piece>, gap: string)
    requires ParseKey(s).Ok?
    ensures White(before) && LegalText(key) && White(gap) && Chars(key) == ParseKey(s).value
    ensures s == before + (['"'] + WriteText(key, gap + ([':'] + ParseKey(s).rest)))
  {
    var t := SkipSpace(s);
    before := SpaceIsWhite(s);
    key := QuoteIsSpelled(t);
    gap := ColonIsSpelled(ParseString(t).rest);
  }

  lemma QuoteIsSpelled(t: string) returns (pieces: seq<Piece>)
    requires ParseString(t).Ok?
    ensures LegalText(pieces) && Chars(pieces) == ParseString(t).value
    ensures t == ['"'] + WriteText(pieces, ParseString(t).rest)
  {
    pieces := TextIsSpelled(t[1..]);
    FirstChar(t);
  }

  lemma FirstChar(s: string)
    requires s != ""
    ensures s == [s[0]] + s[1..]
  {
  }

  lemma ColonIsSpelled(s: string) returns (gap: string)
    requires SkipSpace(s) != "" && SkipSpace(s)[0] == ':'
    ensures White(gap) && s == gap + ([':'] + SkipSpace(s)[1..])
  {
    gap := SpaceIsWhite(s);
    FirstChar(SkipSpace(s));
  }

  lemma {:induction false} EntryIsSpelled(s: string, fl: Floats) returns (e: Entry)
    requires ParseMember(s, fl).Ok?
    ensures White(e.before) && LegalText(e.key) && White(e.gap) && LegalItem(e.item, fl)
    ensures Member(Chars(e.key), Value(e.item.doc, fl)) == ParseMember(s, fl).value
    ensures s == WriteEntry(e, SkipSpace(ParseMember(s, fl).rest))
    decreases |s|, 3
  {
    var before, key, gap := KeyIsSpelled(s);
    var item := ItemIsSpelled(ParseKey(s).rest, fl);
    e := Entry(before, key, gap, item);
  }

  lemma {:induction false} EntriesAreSpelled(s: string, fl: Floats) returns (entries: seq<Entry>)
    requires ParseMembers(s, fl).Ok?
    ensures entries != [] && LegalEntries(entries, fl) && Members(entries, fl) == ParseMembers(s, fl).value
    ensures s == WriteEntries(entries, ParseMembers(s, fl).rest)
    decreases |s|, 4
  {
    var e := EntryIsSpelled(s, fl);
    var t := SkipSpace(ParseMember(s, fl).rest);
    FirstChar(t);
    if t[0] == ',' {
      var more := EntriesAreSpelled(t[1..], fl);
      entries := [e] + more;
      assert entries[1..] == more;
    } else {
      entries := [e];
      assert Members([], fl) == [];
    }
  }

  // ---------------------------------------------------------------- the theorem

  /** json_decode gives v for exactly the texts that spell v; every other text is refused. */
  lemma DecodeIffSpelled(text: string, v: Json, fl: Floats)
    ensures Decode(text, fl) == Success(v) <==> Spells(text, v, fl)
  {
    JsonRoundTrip.ParseValueSkips(text, fl);
    if Decode(text, fl) == Success(v) {
      var i := ItemIsSpelled(text, fl);
      assert Spells(text, v, fl);
    }
    if i: Item :| LegalItem(i, fl) && Value(i.doc, fl) == v && text == WriteItem(i, "") {
      ItemIsRead(i, "", fl);
      WhiteIsSkipped(i.after, "");
    }
  }
}
