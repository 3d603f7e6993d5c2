/** JsonParser with its cursor and json_encode with its output stream, each proved to compute the codec's functions. */
module JsonText {
  import opened Common
  import opened JsonCodec

  // ---------------------------------------------------------------- reading

  /** A number is its sign and whatever the scanner takes after it. */
  lemma NumberSplits(s: string, length: nat, dot: bool, exp: bool, fl: Floats)
    requires s != "" && length <= |s|
    requires var sign := SignLength(s);
             sign <= length && ScanNumber(s[sign..], false, false) == Scan(length - sign, dot, exp)
    ensures ParseNumber(s, fl) == Scanned(s, length, NumberOf(s[..length], dot || exp, fl))
  {
  }

  function Scanned(s: string, length: nat, v: Option<Json>): Parsed<Json>
    requires length <= |s|
  {
    if length == 0 || v.None? then Bad else Ok(v.value, s[length..])
  }

  class JsonParser {
    const src: string
    const fl: Floats
    var pos: nat

    constructor (src: string, fl: Floats)
      ensures this.src == src && this.fl == fl && pos == 0
    {
      this.src, this.fl, pos := src, fl, 0;
    }

    ghost predicate Valid()
      reads this
    {
      pos <= |src|
    }

    ghost function Rest(): string
      requires Valid()
      reads this
    {
      src[pos..]
    }

    /** The method's answer and cursor are what the production p says. */
    ghost predicate Did<T>(r: Result<T>, p: Parsed<T>)
      reads this
    {
      Valid() && if p.Ok? then r == Success(p.value) && Rest() == p.rest else r == Failure(ParseFailed)
    }

    /** Moving the cursor drops characters from the rest. */
    method Advance(n: nat)
      requires pos + n <= |src|
      modifies this
      ensures Valid() && pos == old(pos) + n
      ensures Rest() == old(Rest())[n..]
    {
      assert src[pos + n..] == src[pos..][n..];
      pos := pos + n;
    }

    method SkipWs()
      requires Valid()
      modifies this
      ensures Valid() && Rest() == SkipSpace(old(Rest()))
      ensures pos >= old(pos)
    {
      while pos < |src| && IsSpace(src[pos])
        invariant old(pos) <= pos <= |src|
        invariant SkipSpace(src[pos..]) == SkipSpace(old(Rest()))
      {
        assert src[pos..][1..] == src[pos + 1..];
        pos := pos + 1;
      }
    }

    /** One character or escape of a string; the cursor stands on neither the quote nor the end. */
    method ParseChar() returns (r: Result<char>)
      requires Valid() && pos < |src| && src[pos] != '"'
      modifies this
      ensures old(pos) < pos <= |src|
      ensures StringBody(old(Rest())) == match r case Success(c) => Cons(c, StringBody(Rest())) case Failure(_) => Bad
      ensures r.Failure? ==> r.error == ParseFailed
    {
      var c := src[pos];
      assert Rest()[1..] == src[pos + 1..];
      pos := pos + 1;
      if c == '\\' && pos < |src| {
        var esc := src[pos];
        assert old(Rest())[2..] == src[pos + 1..];
        pos := pos + 1;
        var plain := Unescape(esc);
        return if plain.None? then Failure(ParseFailed) else Success(plain.value);
      }
      return Success(c);
    }

    method ParseStringValue() returns (r: Result<string>)
      requires Valid()
      modifies this
      ensures Did(r, ParseString(old(Rest())))
      ensures r.Success? ==> pos > old(pos)
    {
      if pos >= |src| || src[pos] != '"' {
        return Failure(ParseFailed);
      }
      pos := pos + 1;
      assert old(Rest())[1..] == Rest();
      ghost var body := Rest();
      var out := "";
      PrependNothing(StringBody(Rest()));
      while pos < |src| && src[pos] != '"'
        invariant old(pos) < pos <= |src|
        invariant StringBody(body) == Prepend(out, StringBody(src[pos..]))
      {
        var c := ParseChar();
        if c.Failure? {
          return Failure(c.error);
        }
        PrependCons(out, c.value, StringBody(Rest()));
        out := out + [c.value];
      }
      if pos >= |src| {
        return Failure(ParseFailed);
      }
      assert Rest()[1..] == src[pos + 1..];
      pos := pos + 1;
      assert out + "" == out;
      return Success(out);
    }

    /** The scanning loop of parse_number: digits, at most one dot, at most one exponent. */
    method ScanDigits() returns (dot: bool, exp: bool)
      requires Valid()
      modifies this
      ensures old(pos) <= pos <= |src|
      ensures ScanNumber(old(Rest()), false, false) == Scan(pos - old(pos), dot, exp)
    {
      ghost var s := Rest();
      dot, exp := false, false;
      while pos < |src|
        invariant old(pos) <= pos <= |src|
        invariant ScanNumber(s, false, false) == Longer(pos - old(pos), ScanNumber(Rest(), dot, exp))
        decreases |src| - pos
      {
        var c := src[pos];
        if IsDigit(c) {
          Advance(1);
        } else if c == '.' && !dot {
          dot := true;
          Advance(1);
        } else if (c == 'e' || c == 'E') && !exp {
          exp := true;
          if pos + 1 < |src| && (src[pos + 1] == '+' || src[pos + 1] == '-') {
            Advance(1);
          }
          Advance(1);
        } else {
          break;
        }
      }
    }

    method SkipSign()
      requires Valid() && pos < |src|
      modifies this
      ensures Valid() && pos == old(pos) + SignLength(old(Rest()))
      ensures Rest() == old(Rest())[SignLength(old(Rest()))..]
    {
      if src[pos] == '-' || src[pos] == '+' {
        pos := pos + 1;
      }
    }

    method ParseNumberToken() returns (r: Result<Json>)
      requires Valid() && pos < |src|
      modifies this
      ensures Did(r, ParseNumber(old(Rest()), fl))
      ensures r.Success? ==> pos > old(pos)
    {
      var start := pos;
      ghost var s := Rest();
      SkipSign();
      var dot, exp := ScanDigits();
      var length := pos - start;
      var token := src[start..pos];
      assert token == s[..length] && Rest() == s[length..];
      NumberSplits(s, length, dot, exp, fl);
      if length == 0 {
        return Failure(ParseFailed);
      }
      var v := NumberOf(token, dot || exp, fl);
      return if v.Some? then Success(v.value) else Failure(ParseFailed);
    }

    method ParseWord(word: string, v: Json) returns (r: Result<Json>)
      requires Valid() && word != ""
      modifies this
      ensures Did(r, ParseLiteral(old(Rest()), word, v))
      ensures r.Success? ==> pos > old(pos)
      ensures r.Failure? ==> pos == old(pos)
    {
      if pos + |word| <= |src| && src[pos..pos + |word|] == word {
        assert src[pos..][..|word|] == word && src[pos..][|word|..] == src[pos + |word|..];
        pos := pos + |word|;
        return Success(v);
      }
      return Failure(ParseFailed);
    }

    method ParseAnyValue() returns (r: Result<Json>)
      requires Valid()
      modifies this
      ensures Did(r, ParseValue(old(Rest()), fl))
      ensures r.Success? ==> pos > old(pos)
      decreases |src| - pos, 1
    {
      SkipWs();
      if pos >= |src| {
        return Failure(ParseFailed);
      }
      var c := src[pos];
      if c == '{' {
        r := ParseObjectValue();
      } else if c == '[' {
        r := ParseArrayValue();
      } else if c == '"' {
        var s := ParseStringValue();
        r := if s.Success? then Success(Str(s.value)) else Failure(s.error);
      } else if c == 't' || c == 'f' {
        r := ParseWord("true", Bool(true));
        if r.Failure? {
          r := ParseWord("false", Bool(false));
        }
      } else if c == 'n' {
        r := ParseWord("null", Null);
      } else {
        r := ParseNumberToken();
      }
    }

    /** After an item or a member: a comma, or the closing character. */
    method ParseSeparator(close: char) returns (r: Result<bool>)
      requires Valid() && close != ','
      modifies this
      ensures Valid() && pos >= old(pos)
      ensures var t := SkipSpace(old(Rest()));
              if t != "" && (t[0] == ',' || t[0] == close)
              then r == Success(t[0] == ',') && Rest() == t[1..] && pos > old(pos)
              else r == Failure(ParseFailed)
    {
      SkipWs();
      assert pos < |src| ==> Rest()[1..] == src[pos + 1..];
      if pos < |src| && src[pos] == ',' {
        pos := pos + 1;
        return Success(true);
      }
      if pos < |src| && src[pos] == close {
        pos := pos + 1;
        return Success(false);
      }
      return Failure(ParseFailed);
    }

    method ParseArrayValue() returns (r: Result<Json>)
      requires Valid() && pos < |src| && src[pos] == '['
      modifies this
      ensures Did(r, ParseArray(old(Rest())[1..], fl))
      ensures r.Success? ==> pos > old(pos)
      decreases |src| - pos, 0
    {
      assert src[pos + 1..] == old(Rest())[1..];
      pos := pos + 1;
      SkipWs();
      if pos < |src| && src[pos] == ']' {
        assert Rest()[1..] == src[pos + 1..];
        pos := pos + 1;
        return Success(Arr([]));
      }
      var arr := [];
      ghost var items := Rest();
      PrependNothing(ParseItems(items, fl));
      while true
        invariant old(pos) < pos <= |src|
        invariant ParseItems(items, fl) == Prepend(arr, ParseItems(src[pos..], fl))
        decreases |src| - pos
      {
        var v := ParseAnyValue();
        if v.Failure? {
          return Failure(v.error);
        }
        var more := ParseSeparator(']');
        if more.Failure? {
          return Failure(more.error);
        }
        if !more.value {
          return Success(Arr(arr + [v.value]));
        }
        PrependCons(arr, v.value, ParseItems(Rest(), fl));
        arr := arr + [v.value];
      }
    }

    method ParseKeyAndColon() returns (r: Result<string>)
      requires Valid()
      modifies this
      ensures Did(r, ParseKey(old(Rest())))
      ensures r.Success? ==> pos > old(pos)
    {
      SkipWs();
      r := ParseStringValue();
      if r.Failure? {
        return;
      }
      SkipWs();
      if pos >= |src| || src[pos] != ':' {
        return Failure(ParseFailed);
      }
      assert Rest()[1..] == src[pos + 1..];
      pos := pos + 1;
    }

    method ParseKeyAndValue() returns (r: Result<Member>)
      requires Valid()
      modifies this
      ensures Did(r, ParseMember(old(Rest()), fl))
      ensures r.Success? ==> pos > old(pos)
      decreases |src| - pos, 2
    {
      var key := ParseKeyAndColon();
      if key.Failure? {
        return Failure(key.error);
      }
      var value := ParseAnyValue();
      if value.Failure? {
        return Failure(value.error);
      }
      return Success(Member(key.value, value.value));
    }

    method ParseObjectValue() returns (r: Result<Json>)
      requires Valid() && pos < |src| && src[pos] == '{'
      modifies this
      ensures Did(r, ParseObject(old(Rest())[1..], fl))
      ensures r.Success? ==> pos > old(pos)
      decreases |src| - pos, 0
    {
      assert src[pos + 1..] == old(Rest())[1..];
      pos := pos + 1;
      SkipWs();
      if pos < |src| && src[pos] == '}' {
        assert Rest()[1..] == src[pos + 1..];
        pos := pos + 1;
        return Success(Obj([]));
      }
      var obj := [];
      ghost var members := Rest();
      PrependNothing(ParseMembers(members, fl));
      while true
        invariant old(pos) < pos <= |src|
        invariant ParseMembers(members, fl) == Prepend(obj, ParseMembers(src[pos..], fl))
        decreases |src| - pos
      {
        var m := ParseKeyAndValue();
        if m.Failure? {
          return Failure(m.error);
        }
        var more := ParseSeparator('}');
        if more.Failure? {
          return Failure(more.error);
        }
        if !more.value {
          return Success(Obj(obj + [m.value]));
        }
        PrependCons(obj, m.value, ParseMembers(Rest(), fl));
        obj := obj + [m.value];
      }
    }
  }

  /** json_decode */
  method JsonDecode(text: string, fl: Floats) returns (r: Result<Json>)
    ensures r == Decode(text, fl)
  {
    var p := new JsonParser(text, fl);
    assert text[0..] == text;
    p.SkipWs();
    r := p.ParseAnyValue();
    if r.Failure? {
      return;
    }
    p.SkipWs();
    if p.pos < |text| {
      return Failure(ParseFailed);
    }
  }

  // ---------------------------------------------------------------- printing

  lemma {:induction false} ConcatConcat(a: seq<string>, b: seq<string>)
    ensures Concat(a + b) == Concat(a) + Concat(b)
  {
    if a == [] {
      assert a + b == b;
    } else {
      ConcatConcat(a[1..], b);
      assert (a + b)[1..] == a[1..] + b;
      Associate(a[0], Concat(a[1..]), Concat(b));
    }
  }

  lemma {:induction false} EscapeSnoc(s: string, c: char)
    ensures Escape(s + [c]) == Escape(s) + EscapeChar(c)
  {
    if s == "" {
      assert s + [c] == [c] && [c][1..] == "";
    } else {
      EscapeSnoc(s[1..], c);
      assert (s + [c])[1..] == s[1..] + [c];
      Associate(EscapeChar(s[0]), Escape(s[1..]), EscapeChar(c));
    }
  }

  function ItemText(items: seq<Json>, fl: Floats): string {
    Concat(ItemTokens(items, fl))
  }

  function MemberText(members: seq<Member>, fl: Floats): string {
    Concat(MemberTokens(members, fl))
  }

  lemma {:induction false} ItemTokensSnoc(items: seq<Json>, x: Json, fl: Floats)
    ensures ItemTokens(items + [x], fl) == ItemTokens(items, fl) + (if items == [] then [] else [","]) + Tokens(x, fl)
  {
    assert (items + [x])[0] == if items == [] then x else items[0];
    if items != [] {
      ItemTokensSnoc(items[1..], x, fl);
      assert (items + [x])[1..] == items[1..] + [x];
    }
  }

  lemma {:induction false} MemberTokensSnoc(members: seq<Member>, m: Member, fl: Floats)
    ensures MemberTokens(members + [m], fl)
         == MemberTokens(members, fl) + (if members == [] then [] else [","]) + ([Quoted(m.key), ":"] + Tokens(m.value, fl))
  {
    assert (members + [m])[0] == if members == [] then m else members[0];
    if members != [] {
      MemberTokensSnoc(members[1..], m, fl);
      assert (members + [m])[1..] == members[1..] + [m];
    }
  }

  lemma ConcatSeparator(first: bool)
    ensures Concat(if first then [] else [","]) == if first then "" else ","
  {
    assert [","][1..] == [];
  }

  lemma NextItem(items: seq<Json>, i: nat, fl: Floats)
    requires i < |items|
    ensures ItemText(items[..i + 1], fl) == ItemText(items[..i], fl) + (if i == 0 then "" else ",") + Encode(items[i], fl)
  {
    var comma := if i == 0 then [] else [","];
    assert items[..i + 1] == items[..i] + [items[i]];
    ItemTokensSnoc(items[..i], items[i], fl);
    ConcatConcat(ItemTokens(items[..i], fl) + comma, Tokens(items[i], fl));
    ConcatConcat(ItemTokens(items[..i], fl), comma);
    ConcatSeparator(i == 0);
  }

  lemma NextMember(members: seq<Member>, i: nat, fl: Floats)
    requires i < |members|
    ensures MemberText(members[..i + 1], fl)
         == MemberText(members[..i], fl) + (if i == 0 then "" else ",") + (Quoted(members[i].key) + ":" + Encode(members[i].value, fl))
  {
    var comma := if i == 0 then [] else [","];
    var member := [Quoted(members[i].key), ":"] + Tokens(members[i].value, fl);
    assert members[..i + 1] == members[..i] + [members[i]];
    MemberTokensSnoc(members[..i], members[i], fl);
    ConcatConcat(MemberTokens(members[..i], fl) + comma, member);
    ConcatConcat(MemberTokens(members[..i], fl), comma);
    ConcatSeparator(i == 0);
    MemberAlone(Quoted(members[i].key), Tokens(members[i].value, fl));
  }

  lemma MemberAlone(key: string, tokens: seq<string>)
    ensures Concat([key, ":"] + tokens) == key + ":" + Concat(tokens)
  {
    ConcatConcat([key, ":"], tokens);
    assert [key, ":"][1..] == [":"] && [":"][1..] == [];
  }

  lemma KeyText(before: string, key: string)
    ensures before + "\"" + key + "\":" == before + (Quoted(key) + ":")
  {
  }

  lemma Brackets(x: Json, fl: Floats)
    ensures x.Arr? ==> Encode(x, fl) == "[" + ItemText(x.items, fl) + "]"
    ensures x.Obj? ==> Encode(x, fl) == "{" + MemberText(x.members, fl) + "}"
    ensures !x.Arr? && !x.Obj? ==> Encode(x, fl) == Tokens(x, fl)[0]
  {
    match x
    case Arr(items) => Enclosed("[", ItemTokens(items, fl), "]");
    case Obj(members) => Enclosed("{", MemberTokens(members, fl), "}");
    case _ =>
      assert Tokens(x, fl)[1..] == [];
      assert Concat(Tokens(x, fl)) == Tokens(x, fl)[0] + Concat([]);
  }

  lemma Enclosed(open: string, tokens: seq<string>, close: string)
    ensures Concat([open] + tokens + [close]) == open + Concat(tokens) + close
  {
    ConcatConcat([open] + tokens, [close]);
    ConcatConcat([open], tokens);
    assert [open][1..] == [] && [close][1..] == [];
  }

  /** json_encode's writer: everything is appended to one output stream. */
  class JsonWriter {
    const fl: Floats
    var out: string

    constructor (fl: Floats)
      ensures out == "" && this.fl == fl
    {
      out, this.fl := "", fl;
    }

    method WriteString(s: string)
      modifies this
      ensures out == old(out) + Quoted(Escape(s))
    {
      ghost var start := out;
      out := out + "\"";
      for i := 0 to |s|
        invariant out == start + "\"" + Escape(s[..i])
      {
        assert s[..i + 1] == s[..i] + [s[i]];
        EscapeSnoc(s[..i], s[i]);
        Associate(start + "\"", Escape(s[..i]), EscapeChar(s[i]));
        out := out + EscapeChar(s[i]);
      }
      assert s[..|s|] == s;
      out := out + "\"";
    }

    method Write(x: Json)
      modifies this
      ensures out == old(out) + Encode(x, fl)
      decreases x, 1
    {
      Brackets(x, fl);
      match x
      case Null => out := out + "null";
      case Bool(flag) => out := out + if flag then "true" else "false";
      case Int(n) => out := out + ShowInt(n);
      case Real(v) => out := out + fl.show(v);
      case Str(s) => WriteString(s);
      case Arr(items) => WriteItems(items);
      case Obj(members) => WriteMembers(members);
    }

    method WriteItems(items: seq<Json>)
      modifies this
      ensures out == old(out) + ("[" + ItemText(items, fl) + "]")
      decreases items, 0
    {
      ghost var start := out;
      out := out + "[";
      for i := 0 to |items|
        invariant out == start + "[" + ItemText(items[..i], fl)
      {
        NextItem(items, i, fl);
        if i > 0 {
          out := out + ",";
        }
        Write(items[i]);
      }
      assert items[..|items|] == items;
      out := out + "]";
    }

    method WriteMembers(members: seq<Member>)
      modifies this
      ensures out == old(out) + ("{" + MemberText(members, fl) + "}")
      decreases members, 0
    {
      ghost var start := out;
      out := out + "{";
      for i := 0 to |members|
        invariant out == start + "{" + MemberText(members[..i], fl)
      {
        NextMember(members, i, fl);
        if i > 0 {
          out := out + ",";
        }
        ghost var before := out;
        out := out + "\"" + members[i].key + "\":";
        KeyText(before, members[i].key);
        Write(members[i].value);
        Associate(before, Quoted(members[i].key) + ":", Encode(members[i].value, fl));
      }
      assert members[..|members|] == members;
      out := out + "}";
    }
  }

  /** json_encode */
  method JsonEncode(x: Json, fl: Floats) returns (text: string)
    ensures text == Encode(x, fl)
  {
    var writer := new JsonWriter(fl);
    writer.Write(x);
    text := writer.out;
  }
}
