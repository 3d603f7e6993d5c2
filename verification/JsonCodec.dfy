/**
  The JSON codec of the agent as functions: the token text json_encode prints, and the recursive
  descent of JsonParser on the part of the input it has not consumed yet. Text is a sequence of
  bytes held in chars. std::stod and the printing of doubles are parameters.
*/
module JsonCodec {
  import opened Common

  const MIN_INT64: int := -0x8000_0000_0000_0000
  const MAX_INT64: int := 0x7FFF_FFFF_FFFF_FFFF

  type Int64 = i: int | MIN_INT64 <= i <= MAX_INT64

  datatype Json =
    | Null
    | Bool(flag: bool)
    | Int(integer: Int64)
    | Real(value: real)
    | Str(text: string)
    | Arr(items: seq<Json>)
    | Obj(members: seq<Member>)

  /** Members keep their order, and a key may occur more than once. */
  datatype Member = Member(key: string, value: Json)

  /** How the C++ runtime reads and prints floating point numbers. */
  datatype Floats = Floats(parse: string -> Option<real>, show: real -> string)

  // ---------------------------------------------------------------- printing

  function HexDigit(n: nat): char
    requires n < 16
  {
    "0123456789abcdef"[n]
  }

  function EscapeChar(c: char): (r: string)
    ensures r != ""
  {
    if c == '"' then "\\\""
    else if c == '\\' then "\\\\"
    else if c == '\n' then "\\n"
    else if c == '\r' then "\\r"
    else if c == '\t' then "\\t"
    else if c < ' ' then "\\u00" + [HexDigit(c as int / 16), HexDigit(c as int % 16)]
    else [c]
  }

  function Escape(s: string): string {
    if s == "" then "" else EscapeChar(s[0]) + Escape(s[1..])
  }

  function Quoted(body: string): string {
    "\"" + body + "\""
  }

  function Digit(n: nat): char
    requires n < 10
  {
    "0123456789"[n]
  }

  function ShowNat(n: nat): (r: string)
    ensures r != ""
  {
    if n < 10 then [Digit(n)] else ShowNat(n / 10) + [Digit(n % 10)]
  }

  function ShowInt(n: int): string {
    if n < 0 then "-" + ShowNat(-n) else ShowNat(n)
  }

  /** The tokens of the encoding in order. A key is printed as it is, without escaping. */
  function Tokens(v: Json, fl: Floats): (r: seq<string>)
    ensures r != []
  {
    match v
    case Null => ["null"]
    case Bool(flag) => [if flag then "true" else "false"]
    case Int(n) => [ShowInt(n)]
    case Real(x) => [fl.show(x)]
    case Str(s) => [Quoted(Escape(s))]
    case Arr(items) => ["["] + ItemTokens(items, fl) + ["]"]
    case Obj(members) => ["{"] + MemberTokens(members, fl) + ["}"]
  }

  function ItemTokens(items: seq<Json>, fl: Floats): seq<string> {
    if items == [] then []
    else if |items| == 1 then Tokens(items[0], fl)
    else Tokens(items[0], fl) + [","] + ItemTokens(items[1..], fl)
  }

  function MemberTokens(members: seq<Member>, fl: Floats): seq<string> {
    if members == [] then []
    else
      var first := [Quoted(members[0].key), ":"] + Tokens(members[0].value, fl);
      if |members| == 1 then first else first + [","] + MemberTokens(members[1..], fl)
  }

  function Concat(tokens: seq<string>): string {
    if tokens == [] then "" else tokens[0] + Concat(tokens[1..])
  }

  /** json_encode */
  function Encode(v: Json, fl: Floats): string {
    Concat(Tokens(v, fl))
  }

  // ---------------------------------------------------------------- reading

  function Unescape(c: char): Option<char> {
    if c == '"' then Some('"')
    else if c == '\\' then Some('\\')
    else if c == '/' then Some('/')
    else if c == 'n' then Some('\n')
    else if c == 'r' then Some('\r')
    else if c == 't' then Some('\t')
    else if c == 'b' then Some('\U{8}')
    else if c == 'f' then Some('\U{c}')
    else None
  }

  /** The characters of a string up to and including the closing quote. */
  function StringBody(s: string): (p: Parsed<string>)
    ensures p.Ok? ==> |p.rest| < |s|
    decreases |s|
  {
    if s == "" then Bad
    else if s[0] == '"' then Ok("", s[1..])
    else if s[0] == '\\' && |s| > 1 then
      var c := Unescape(s[1]);
      if c.None? then Bad else Cons(c.value, StringBody(s[2..]))
    else Cons(s[0], StringBody(s[1..]))
  }

  function ParseString(s: string): (p: Parsed<string>)
    ensures p.Ok? ==> |p.rest| < |s|
  {
    if s == "" || s[0] != '"' then Bad else StringBody(s[1..])
  }

  /** How far the number scanner runs, and whether it met a dot or an exponent. */
  datatype Scan = Scan(length: nat, dot: bool, exp: bool)

  function Longer(k: nat, scan: Scan): Scan {
    scan.(length := scan.length + k)
  }

  function ScanNumber(s: string, dot: bool, exp: bool): (r: Scan)
    ensures r.length <= |s|
    decreases |s|
  {
    if s == "" then Scan(0, dot, exp)
    else if IsDigit(s[0]) then Longer(1, ScanNumber(s[1..], dot, exp))
    else if s[0] == '.' && !dot then Longer(1, ScanNumber(s[1..], true, exp))
    else if (s[0] == 'e' || s[0] == 'E') && !exp then
      if |s| > 1 && (s[1] == '+' || s[1] == '-') then Longer(2, ScanNumber(s[2..], dot, true))
      else Longer(1, ScanNumber(s[1..], dot, true))
    else Scan(0, dot, exp)
  }

  function DigitValue(c: char): nat
    requires IsDigit(c)
  {
    c as int - '0' as int
  }

  predicate Digits(s: string) {
    forall c | c in s :: IsDigit(c)
  }

  function NatOf(digits: string): nat
    requires Digits(digits)
  {
    if digits == "" then 0
    else
      var last := |digits| - 1;
      10 * NatOf(digits[..last]) + DigitValue(digits[last])
  }

  /** std::stoll on an optional sign and digits: at least one digit, and the value must fit. */
  function IntOf(token: string): Option<Int64> {
    var negative := token != "" && token[0] == '-';
    var digits := if token != "" && (token[0] == '-' || token[0] == '+') then token[1..] else token;
    if digits == "" || !Digits(digits) then None
    else
      var m: int := NatOf(digits);
      var n := if negative then -m else m;
      if MIN_INT64 <= n <= MAX_INT64 then Some(n) else None
  }

  /** The value of a scanned token: std::stod when it has a dot or an exponent, std::stoll otherwise. */
  function NumberOf(token: string, floating: bool, fl: Floats): Option<Json> {
    if floating then
      var x := fl.parse(token);
      if x.Some? then Some(Real(x.value)) else None
    else
      var n := IntOf(token);
      if n.Some? then Some(Int(n.value)) else None
  }

  function SignLength(s: string): (n: nat)
    ensures n <= 1 && n <= |s|
  {
    if s != "" && (s[0] == '-' || s[0] == '+') then 1 else 0
  }

  function ParseNumber(s: string, fl: Floats): (p: Parsed<Json>)
    requires s != ""
    ensures p.Ok? ==> |p.rest| < |s|
  {
    var sign := SignLength(s);
    var scan := Longer(sign, ScanNumber(s[sign..], false, false));
    if scan.length == 0 then Bad
    else
      var v := NumberOf(s[..scan.length], scan.dot || scan.exp, fl);
      if v.Some? then Ok(v.value, s[scan.length..]) else Bad
  }

  function ParseLiteral(s: string, word: string, v: Json): (p: Parsed<Json>)
    requires word != ""
    ensures p.Ok? ==> |p.rest| < |s|
  {
    if word <= s then Ok(v, s[|word|..]) else Bad
  }

  function ParseBool(s: string): (p: Parsed<Json>)
    ensures p.Ok? ==> |p.rest| < |s|
  {
    var yes := ParseLiteral(s, "true", Bool(true));
    if yes.Ok? then yes else ParseLiteral(s, "false", Bool(false))
  }

  function ParseValue(s: string, fl: Floats): (p: Parsed<Json>)
    ensures p.Ok? ==> |p.rest| < |s|
    decreases |s|, 0
  {
    var t := SkipSpace(s);
    if t == "" then Bad
    else if t[0] == '{' then ParseObject(t[1..], fl)
    else if t[0] == '[' then ParseArray(t[1..], fl)
    else if t[0] == '"' then
      var p := ParseString(t);
      if p.Ok? then Ok(Str(p.value), p.rest) else Bad
    else if t[0] == 't' || t[0] == 'f' then ParseBool(t)
    else if t[0] == 'n' then ParseLiteral(t, "null", Null)
    else ParseNumber(t, fl)
  }

  /** After the opening brace. */
  function ParseObject(s: string, fl: Floats): (p: Parsed<Json>)
    ensures p.Ok? ==> |p.rest| < |s|
    decreases |s|, 3
  {
    var t := SkipSpace(s);
    if t != "" && t[0] == '}' then Ok(Obj([]), t[1..])
    else
      var p := ParseMembers(t, fl);
      if p.Ok? then Ok(Obj(p.value), p.rest) else Bad
  }

  /** The members up to and including the closing brace. */
  function ParseMembers(s: string, fl: Floats): (p: Parsed<seq<Member>>)
    ensures p.Ok? ==> |p.rest| < |s|
    decreases |s|, 2
  {
    var m := ParseMember(s, fl);
    if m.Bad? then Bad
    else
      var t := SkipSpace(m.rest);
      if t == "" then Bad
      else if t[0] == ',' then
        var more := ParseMembers(t[1..], fl);
        Cons(m.value, more)
      else if t[0] == '}' then Ok([m.value], t[1..])
      else Bad
  }

  /** A key, its colon and its value. */
  function ParseMember(s: string, fl: Floats): (p: Parsed<Member>)
    ensures p.Ok? ==> |p.rest| < |s|
    decreases |s|, 1
  {
    var key := ParseKey(s);
    if key.Bad? then Bad
    else
      var value := ParseValue(key.rest, fl);
      if value.Ok? then Ok(Member(key.value, value.value), value.rest) else Bad
  }

  /** A key and its colon. */
  function ParseKey(s: string): (p: Parsed<string>)
    ensures p.Ok? ==> |p.rest| < |s|
  {
    var key := ParseString(SkipSpace(s));
    if key.Bad? then Bad
    else
      var colon := SkipSpace(key.rest);
      if colon != "" && colon[0] == ':' then Ok(key.value, colon[1..]) else Bad
  }

  /** After the opening bracket. */
  function ParseArray(s: string, fl: Floats): (p: Parsed<Json>)
    ensures p.Ok? ==> |p.rest| < |s|
    decreases |s|, 2
  {
    var t := SkipSpace(s);
    if t != "" && t[0] == ']' then Ok(Arr([]), t[1..])
    else
      var p := ParseItems(t, fl);
      if p.Ok? then Ok(Arr(p.value), p.rest) else Bad
  }

  /** The items up to and including the closing bracket. */
  function ParseItems(s: string, fl: Floats): (p: Parsed<seq<Json>>)
    ensures p.Ok? ==> |p.rest| < |s|
    decreases |s|, 1
  {
    var value := ParseValue(s, fl);
    if value.Bad? then Bad
    else
      var t := SkipSpace(value.rest);
      if t == "" then Bad
      else if t[0] == ',' then
        var more := ParseItems(t[1..], fl);
        Cons(value.value, more)
      else if t[0] == ']' then Ok([value.value], t[1..])
      else Bad
  }

  /** json_decode: one value, and nothing but white space after it. */
  function Decode(text: string, fl: Floats): Result<Json> {
    var p := ParseValue(SkipSpace(text), fl);
    if p.Bad? then Failure(ParseFailed)
    else if SkipSpace(p.rest) != "" then Failure(ParseFailed)
    else Success(p.value)
  }
}
