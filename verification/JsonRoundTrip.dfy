/** Decoding undoes encoding, in any layout, for exactly the values whose text survives the printer. */
module JsonRoundTrip {
  import opened Common
  import opened JsonCodec

  // ---------------------------------------------------------------- the values that survive

  predicate SafeChar(c: char) {
    c >= ' ' || c == '\n' || c == '\r' || c == '\t'
  }

  /** Text without the control characters the printer turns into an escape the reader refuses. */
  predicate SafeText(s: string) {
    forall c | c in s :: SafeChar(c)
  }

  /** Keys are printed unescaped, so they must not need escaping. */
  predicate SafeKey(s: string) {
    forall c | c in s :: c != '"' && c != '\\'
  }

  predicate Safe(v: Json) {
    match v
    case Str(s) => SafeText(s)
    case Arr(items) => forall i | 0 <= i < |items| :: Safe(items[i])
    case Obj(members) => forall i | 0 <= i < |members| :: SafeKey(members[i].key) && Safe(members[i].value)
    case _ => true
  }

  predicate RealFree(v: Json) {
    match v
    case Real(_) => false
    case Arr(items) => forall i | 0 <= i < |items| :: RealFree(items[i])
    case Obj(members) => forall i | 0 <= i < |members| :: RealFree(members[i].value)
    case _ => true
  }

  // ---------------------------------------------------------------- layouts

  predicate Blanks(ws: seq<string>) {
    forall i | 0 <= i < |ws| :: Blank(ws[i])
  }

  /** The tokens, each after its own white space. */
  function Weave(tokens: seq<string>, ws: seq<string>): string
    requires |tokens| == |ws|
  {
    if tokens == [] then "" else ws[0] + tokens[0] + Weave(tokens[1..], ws[1..])
  }

  lemma {:induction false} WeaveConcat(a: seq<string>, b: seq<string>, ws: seq<string>)
    requires |ws| == |a| + |b|
    ensures Weave(a + b, ws) == Weave(a, ws[..|a|]) + Weave(b, ws[|a|..])
  {
    if a == [] {
      assert a + b == b && ws[..0] == [] && ws[0..] == ws;
    } else {
      WeaveConcat(a[1..], b, ws[1..]);
      assert (a + b)[1..] == a[1..] + b;
      assert ws[1..][..|a| - 1] == ws[..|a|][1..] && ws[1..][|a| - 1..] == ws[|a|..];
    }
  }

  lemma BlanksSplit(ws: seq<string>, n: nat)
    requires n <= |ws| && Blanks(ws)
    ensures Blanks(ws[..n]) && Blanks(ws[n..])
  {
  }

  lemma WeaveSplit(a: seq<string>, b: seq<string>, ws: seq<string>, tail: string)
    requires |ws| == |a| + |b|
    ensures Weave(a + b, ws) + tail == Weave(a, ws[..|a|]) + (Weave(b, ws[|a|..]) + tail)
  {
    WeaveConcat(a, b, ws);
    Associate(Weave(a, ws[..|a|]), Weave(b, ws[|a|..]), tail);
  }

  lemma {:induction false} TightLayout(tokens: seq<string>, ws: seq<string>)
    requires |ws| == |tokens| && forall i | 0 <= i < |ws| :: ws[i] == ""
    ensures Weave(tokens, ws) == Concat(tokens)
  {
    if tokens != [] {
      TightLayout(tokens[1..], ws[1..]);
    }
  }

  // ---------------------------------------------------------------- strings

  lemma {:induction false} TextReadsBack(s: string, tail: string)
    ensures SafeText(s) ==> StringBody(Escape(s) + "\"" + tail) == Ok(s, tail)
    ensures !SafeText(s) ==> StringBody(Escape(s) + "\"" + tail).Bad?
  {
    if s == "" {
      assert Escape(s) + "\"" + tail == "\"" + tail;
    } else {
      TextReadsBack(s[1..], tail);
      var more := Escape(s[1..]) + "\"" + tail;
      EscapeFirst(s, tail);
      CharReadsBack(s[0], more);
      SafeFirst(s);
    }
  }

  lemma EscapeFirst(s: string, tail: string)
    requires s != ""
    ensures Escape(s) + "\"" + tail == EscapeChar(s[0]) + (Escape(s[1..]) + "\"" + tail)
  {
    Associate(EscapeChar(s[0]), Escape(s[1..]), "\"");
    Associate(EscapeChar(s[0]), Escape(s[1..]) + "\"", tail);
  }

  lemma SafeFirst(s: string)
    requires s != ""
    ensures s == [s[0]] + s[1..]
    ensures SafeText(s) <==> SafeChar(s[0]) && SafeText(s[1..])
  {
    assert s == [s[0]] + s[1..];
  }

  lemma CharReadsBack(c: char, more: string)
    ensures StringBody(EscapeChar(c) + more) == if SafeChar(c) then Cons(c, StringBody(more)) else Bad
  {
    var text := EscapeChar(c) + more;
    if |EscapeChar(c)| == 1 {
      assert text[1..] == more;
    } else if SafeChar(c) {
      assert text[2..] == more;
    } else {
      assert text[1] == 'u';
    }
  }

  lemma {:induction false} KeyReadsBack(k: string, tail: string)
    requires SafeKey(k)
    ensures StringBody(k + "\"" + tail) == Ok(k, tail)
  {
    if k == "" {
      assert k + "\"" + tail == "\"" + tail;
    } else {
      assert k == [k[0]] + k[1..] && k[0] in k && forall c | c in k[1..] :: c in k;
      KeyReadsBack(k[1..], tail);
      assert (k + "\"" + tail)[1..] == k[1..] + "\"" + tail;
    }
  }

  /** Reading a text that starts with exactly p backslashes gives at most half of them back. */
  lemma {:induction false} BackslashesHalve(s: string, p: nat)
    requires p < |s| && s[p] != '\\' && forall i | 0 <= i < p :: s[i] == '\\'
    requires StringBody(s).Ok?
    ensures var v := StringBody(s).value; p / 2 < |v| ==> v[p / 2] != '\\'
    ensures var v := StringBody(s).value; p % 2 == 0 && s[p] == '"' ==> |v| == p / 2
    decreases p
  {
    if p >= 2 {
      BackslashesHalve(s[2..], p - 2);
    }
  }

  /** A key that needs escaping is never read back as it was. */
  lemma {:induction false} BadKeyIsLost(k: string, tail: string)
    requires !SafeKey(k)
    ensures var p := StringBody(k + "\"" + tail); p.Ok? ==> p.value != k
  {
    var s := k + "\"" + tail;
    if k[0] == '\\' {
      var p := 1;
      while s[p] == '\\'
        invariant 1 <= p <= |k| && forall i | 0 <= i < p :: s[i] == '\\'
        decreases |k| - p
      {
        p := p + 1;
      }
      if StringBody(s).Ok? {
        BackslashesHalve(s, p);
        assert s[p / 2] == '\\' && k[p / 2] == s[p / 2];
      }
    } else if k[0] != '"' {
      assert k == [k[0]] + k[1..];
      BadKeyIsLost(k[1..], tail);
      assert s[1..] == k[1..] + "\"" + tail;
    }
  }

  // ---------------------------------------------------------------- numbers

  /** What may follow a value: not a character the number scanner would take. */
  predicate Stops(tail: string) {
    tail == "" || !(IsDigit(tail[0]) || tail[0] == '.' || tail[0] == 'e' || tail[0] == 'E')
  }

  lemma {:induction false} ShownNatReadsBack(n: nat)
    ensures Digits(ShowNat(n)) && NatOf(ShowNat(n)) == n
  {
    var s := ShowNat(n);
    if n >= 10 {
      ShownNatReadsBack(n / 10);
    }
    assert s[..|s| - 1] == if n < 10 then "" else ShowNat(n / 10);
    DigitShows(n % 10);
    assert s == s[..|s| - 1] + [Digit(n % 10)];
  }

  lemma DigitShows(d: nat)
    requires d < 10
    ensures IsDigit(Digit(d)) && DigitValue(Digit(d)) == d
  {
    var all := "0123456789";
    assert all[0] == '0' && all[1] == '1' && all[2] == '2' && all[3] == '3' && all[4] == '4';
    assert all[5] == '5' && all[6] == '6' && all[7] == '7' && all[8] == '8' && all[9] == '9';
  }

  lemma {:induction false} ScanStops(digits: string, tail: string)
    requires Digits(digits) && Stops(tail)
    ensures ScanNumber(digits + tail, false, false) == Scan(|digits|, false, false)
  {
    if digits == "" {
      assert digits + tail == tail;
    } else {
      assert digits == [digits[0]] + digits[1..];
      ScanStops(digits[1..], tail);
      assert (digits + tail)[1..] == digits[1..] + tail;
    }
  }

  function Signed(negative: bool, digits: string): string {
    if negative then "-" + digits else digits
  }

  lemma IntOfSigned(negative: bool, digits: string, n: Int64)
    requires Digits(digits) && digits != "" && digits[0] in digits
    requires var m: int := NatOf(digits); n == if negative then -m else m
    ensures IntOf(Signed(negative, digits)) == Some(n)
  {
    assert negative ==> Signed(negative, digits)[1..] == digits;
  }

  lemma SignedScans(negative: bool, digits: string, tail: string, fl: Floats)
    requires Digits(digits) && digits != "" && digits[0] in digits && Stops(tail)
    ensures var token := Signed(negative, digits);
            token + tail != "" && ParseNumber(token + tail, fl) == match IntOf(token) case Some(n) => Ok(Int(n), tail) case None => Bad
  {
    var token := Signed(negative, digits);
    var s := token + tail;
    ScanStops(digits, tail);
    assert s[if negative then 1 else 0..] == digits + tail;
    assert s[..|token|] == token && s[|token|..] == tail;
  }

  lemma IntReadsBack(n: Int64, tail: string, fl: Floats)
    requires Stops(tail)
    ensures ParseNumber(ShowInt(n) + tail, fl) == Ok(Int(n), tail)
    ensures ShowInt(n)[0] == '-' || IsDigit(ShowInt(n)[0])
  {
    var m: int := if n < 0 then -(n as int) else n;
    var digits := ShowNat(m);
    ShownNatReadsBack(m);
    assert digits[0] in digits;
    IntOfSigned(n < 0, digits, n);
    SignedScans(n < 0, digits, tail, fl);
  }

  // ---------------------------------------------------------------- values

  /** p reads v back with tail left over when v is safe, and does not give v back when it is not. */
  predicate ReadsBack<T(==)>(safe: bool, p: Parsed<T>, v: T, tail: string) {
    if safe then p == Ok(v, tail) else p.Bad? || p.value != v
  }

  lemma WeaveOne(token: string, w: string, tail: string)
    requires Blank(w) && token != "" && !IsSpace(token[0])
    ensures Weave([token], [w]) + tail == w + (token + tail)
    ensures SkipSpace(w + (token + tail)) == token + tail
  {
    assert Weave([], []) == "";
    assert [token][1..] == [] && [w][1..] == [];
    SkipBlank(w, token + tail);
    assert SkipSpace(token + tail) == token + tail;
  }

  /** The first of several tokens, and what is left when it has been taken off. */
  lemma WeaveFirst(tokens: seq<string>, ws: seq<string>, tail: string)
    requires tokens != [] && |ws| == |tokens| && Blanks(ws) && tokens[0] != "" && !IsSpace(tokens[0][0])
    ensures Blanks(ws[1..])
    ensures SkipSpace(Weave(tokens, ws) + tail) == tokens[0] + (Weave(tokens[1..], ws[1..]) + tail)
  {
    var more := Weave(tokens[1..], ws[1..]) + tail;
    assert Weave(tokens, ws) + tail == ws[0] + (tokens[0] + more);
    SkipBlank(ws[0], tokens[0] + more);
    assert SkipSpace(tokens[0] + more) == tokens[0] + more;
  }

  /** Text that starts with white space or a closing or separating token cannot extend a number. */
  lemma WeaveStops(tokens: seq<string>, ws: seq<string>, tail: string)
    requires tokens != [] && |ws| == |tokens| && Blanks(ws)
    requires tokens[0] == "," || tokens[0] == "]" || tokens[0] == "}"
    ensures Stops(Weave(tokens, ws) + tail)
  {
    var s := Weave(tokens, ws) + tail;
    if ws[0] != "" {
      assert s[0] == ws[0][0] && ws[0][0] in ws[0];
    } else {
      assert s[0] == tokens[0][0];
    }
  }

  lemma {:induction false} SkipSpaceTwice(s: string)
    ensures SkipSpace(SkipSpace(s)) == SkipSpace(s)
  {
    if s != "" && IsSpace(s[0]) {
      SkipSpaceTwice(s[1..]);
    }
  }

  /** Leading white space makes no difference to a value. */
  lemma ParseValueSkips(s: string, fl: Floats)
    ensures ParseValue(SkipSpace(s), fl) == ParseValue(s, fl)
  {
    SkipSpaceTwice(s);
  }

  lemma LiteralReadsBack(v: Json, fl: Floats, tail: string)
    requires v.Null? || v.Bool?
    ensures ParseValue(Tokens(v, fl)[0] + tail, fl) == Ok(v, tail)
  {
    var token := Tokens(v, fl)[0];
    var s := token + tail;
    assert SkipSpace(s) == s && s[..|token|] == token && s[|token|..] == tail;
    if v == Bool(false) {
      assert s[0] == 'f' && "true"[0] == 't';
    }
  }

  lemma StringReadsBack(text: string, fl: Floats, tail: string)
    ensures ReadsBack(SafeText(text), ParseValue(Quoted(Escape(text)) + tail, fl), Str(text), tail)
  {
    var s := Quoted(Escape(text)) + tail;
    assert SkipSpace(s) == s && s[1..] == Escape(text) + "\"" + tail;
    TextReadsBack(text, tail);
  }

  lemma NumberReadsBack(n: Int64, fl: Floats, tail: string)
    requires Stops(tail)
    ensures var token := ShowInt(n);
            token != "" && !IsSpace(token[0]) && ParseValue(token + tail, fl) == Ok(Int(n), tail)
  {
    IntReadsBack(n, tail, fl);
    var s := ShowInt(n) + tail;
    assert s[0] == ShowInt(n)[0];
    NumberStarts(s, fl);
  }

  lemma NumberStarts(s: string, fl: Floats)
    requires s != "" && (s[0] == '-' || IsDigit(s[0]))
    ensures ParseValue(s, fl) == ParseNumber(s, fl)
  {
    assert SkipSpace(s) == s;
  }

  lemma ParseSimple(v: Json, fl: Floats, tail: string)
    requires RealFree(v) && !v.Arr? && !v.Obj? && Stops(tail)
    ensures var token := Tokens(v, fl)[0];
            token != "" && !IsSpace(token[0]) && ReadsBack(Safe(v), ParseValue(token + tail, fl), v, tail)
  {
    match v
    case Int(n) => NumberReadsBack(n, fl, tail);
    case Str(text) => StringReadsBack(text, fl, tail);
    case _ => LiteralReadsBack(v, fl, tail);
  }

  lemma ParseSimpleWeave(v: Json, fl: Floats, ws: seq<string>, tail: string)
    requires RealFree(v) && !v.Arr? && !v.Obj? && |ws| == |Tokens(v, fl)| && Blanks(ws) && Stops(tail)
    ensures ReadsBack(Safe(v), ParseValue(Weave(Tokens(v, fl), ws) + tail, fl), v, tail)
  {
    var token := Tokens(v, fl)[0];
    assert ws == [ws[0]] && Tokens(v, fl) == [token];
    ParseSimple(v, fl, tail);
    WeaveOne(token, ws[0], tail);
    ParseValueSkips(ws[0] + (token + tail), fl);
  }

  /** The heart of the round trip: one value in any layout, followed by anything that cannot extend it. */
  lemma {:induction false} ParseWeave(v: Json, fl: Floats, ws: seq<string>, tail: string)
    requires RealFree(v) && |ws| == |Tokens(v, fl)| && Blanks(ws) && Stops(tail)
    ensures ReadsBack(Safe(v), ParseValue(Weave(Tokens(v, fl), ws) + tail, fl), v, tail)
    decreases v, 0
  {
    match v
    case Arr(items) =>
      var tokens := ItemTokens(items, fl) + ["]"];
      assert Tokens(v, fl) == ["["] + tokens && Tokens(v, fl)[1..] == tokens;
      WeaveFirst(Tokens(v, fl), ws, tail);
      ParseArrayWeave(items, fl, ws[1..], tail);
    case Obj(members) =>
      var tokens := MemberTokens(members, fl) + ["}"];
      assert Tokens(v, fl) == ["{"] + tokens && Tokens(v, fl)[1..] == tokens;
      WeaveFirst(Tokens(v, fl), ws, tail);
      ParseObjectWeave(members, fl, ws[1..], tail);
    case _ => ParseSimpleWeave(v, fl, ws, tail);
  }

  lemma FirstToken(v: Json, fl: Floats)
    requires RealFree(v)
    ensures var t := Tokens(v, fl)[0]; t != "" && !IsSpace(t[0]) && t[0] != ']' && t[0] != '}'
  {
    if v.Int? {
      IntReadsBack(v.integer, "", fl);
    }
  }

  lemma ParseArrayWeave(items: seq<Json>, fl: Floats, ws: seq<string>, tail: string)
    requires RealFree(Arr(items)) && |ws| == |ItemTokens(items, fl)| + 1 && Blanks(ws) && Stops(tail)
    ensures ReadsBack(Safe(Arr(items)), ParseArray(Weave(ItemTokens(items, fl) + ["]"], ws) + tail, fl), Arr(items), tail)
    decreases items, 1
  {
    var tokens := ItemTokens(items, fl) + ["]"];
    var s := Weave(tokens, ws) + tail;
    if items == [] {
      WeaveFirst(tokens, ws, tail);
      assert SkipSpace(s)[1..] == tail;
    } else {
      FirstToken(items[0], fl);
      assert tokens[0] == Tokens(items[0], fl)[0];
      WeaveFirst(tokens, ws, tail);
      ParseItemsWeave(items, fl, ws, tail);
      ItemsOfArray(s, fl);
    }
  }

  lemma ItemsOfArray(s: string, fl: Floats)
    requires SkipSpace(s) != "" && SkipSpace(s)[0] != ']'
    ensures ParseArray(s, fl) == match ParseItems(s, fl) case Ok(items, rest) => Ok(Arr(items), rest) case Bad => Bad
  {
    ParseValueSkips(s, fl);
  }

  lemma ItemsCombine(s: string, fl: Floats, x: Json, more: seq<Json>, after: string, tail: string)
    requires ReadsBack(Safe(x), ParseValue(s, fl), x, after)
    requires var t := SkipSpace(after);
             if more == [] then t == "]" + tail
             else t != "" && t[0] == ',' && ReadsBack(Safe(Arr(more)), ParseItems(t[1..], fl), more, tail)
    ensures ReadsBack(Safe(x) && Safe(Arr(more)), ParseItems(s, fl), [x] + more, tail)
  {
    var p := ParseItems(s, fl);
    assert p.Ok? ==> p.value[0] == ParseValue(s, fl).value;
    if Safe(x) && more == [] {
      assert SkipSpace(after)[1..] == tail && [x] + more == [x];
    } else if Safe(x) && p.Ok? {
      assert p.value == [x] + ParseItems(SkipSpace(after)[1..], fl).value;
      assert p.value[1..] == ParseItems(SkipSpace(after)[1..], fl).value && ([x] + more)[1..] == more;
    }
  }

  /** What follows the first of several items or members: the closing token, or a comma and the others. */
  function After(more: seq<string>, close: string): seq<string> {
    if more == [] then [close] else [","] + (more + [close])
  }

  /** A value's tokens followed by what comes after it: where the value's text ends. */
  lemma ValueLayout(first: seq<string>, more: seq<string>, close: string, ws: seq<string>, tail: string) returns (tail': string)
    requires |ws| == |first| + |After(more, close)| && Blanks(ws) && (close == "]" || close == "}")
    ensures Weave(first + After(more, close), ws) + tail == Weave(first, ws[..|first|]) + tail'
    ensures Blanks(ws[..|first|]) && Blanks(ws[|first|..][1..]) && Stops(tail')
    ensures SkipSpace(tail') ==
            if more == [] then close + tail else "," + (Weave(more + [close], ws[|first|..][1..]) + tail)
  {
    var after, us := After(more, close), ws[|first|..];
    WeaveSplit(first, after, ws, tail);
    BlanksSplit(ws, |first|);
    tail' := Weave(after, us) + tail;
    WeaveStops(after, us, tail);
    WeaveFirst(after, us, tail);
    assert after[1..] == if more == [] then [] else more + [close];
    assert Weave([], []) == "";
  }

  lemma {:induction false} ParseItemsWeave(items: seq<Json>, fl: Floats, ws: seq<string>, tail: string)
    requires items != [] && RealFree(Arr(items)) && |ws| == |ItemTokens(items, fl)| + 1 && Blanks(ws) && Stops(tail)
    ensures ReadsBack(Safe(Arr(items)), ParseItems(Weave(ItemTokens(items, fl) + ["]"], ws) + tail, fl), items, tail)
    decreases items, 0
  {
    var x, more := items[0], items[1..];
    var first := Tokens(x, fl);
    assert ItemTokens(items, fl) + ["]"] == first + After(ItemTokens(more, fl), "]");
    var tail' := ValueLayout(first, ItemTokens(more, fl), "]", ws, tail);
    ParseWeave(x, fl, ws[..|first|], tail');
    if more != [] {
      ParseItemsWeave(more, fl, ws[|first|..][1..], tail);
    }
    ItemsCombine(Weave(first, ws[..|first|]) + tail', fl, x, more, tail', tail);
    assert items == [x] + more;
  }

  lemma ParseObjectWeave(members: seq<Member>, fl: Floats, ws: seq<string>, tail: string)
    requires RealFree(Obj(members)) && |ws| == |MemberTokens(members, fl)| + 1 && Blanks(ws) && Stops(tail)
    ensures ReadsBack(Safe(Obj(members)), ParseObject(Weave(MemberTokens(members, fl) + ["}"], ws) + tail, fl), Obj(members), tail)
    decreases members, 1
  {
    var tokens := MemberTokens(members, fl) + ["}"];
    var s := Weave(tokens, ws) + tail;
    WeaveFirst(tokens, ws, tail);
    if members == [] {
      assert SkipSpace(s)[1..] == tail;
    } else {
      ParseMembersWeave(members, fl, ws, tail);
      MembersOfObject(s, fl);
    }
  }

  lemma MembersOfObject(s: string, fl: Floats)
    requires SkipSpace(s) != "" && SkipSpace(s)[0] != '}'
    ensures ParseObject(s, fl) == match ParseMembers(s, fl) case Ok(members, rest) => Ok(Obj(members), rest) case Bad => Bad
  {
    SkipSpaceTwice(s);
    assert ParseMember(SkipSpace(s), fl) == ParseMember(s, fl);
  }

  predicate SafeMember(m: Member) {
    SafeKey(m.key) && Safe(m.value)
  }

  /** The text of one member: its key and colon are read, then its value. */
  lemma MemberReadsBack(s: string, fl: Floats, m: Member, colon: string, value: string, after: string)
    requires SkipSpace(s) == Quoted(m.key) + colon
    requires SkipSpace(colon) == ":" + value
    requires ReadsBack(Safe(m.value), ParseValue(value, fl), m.value, after)
    ensures ReadsBack(SafeMember(m), ParseMember(s, fl), m, after)
  {
    assert (Quoted(m.key) + colon)[1..] == m.key + "\"" + colon;
    if SafeKey(m.key) {
      KeyReadsBack(m.key, colon);
      assert (":" + value)[1..] == value;
      assert ParseKey(s) == Ok(m.key, value);
    } else {
      BadKeyIsLost(m.key, colon);
      assert ParseKey(s).Ok? ==> ParseKey(s).value != m.key;
    }
  }

  lemma MembersCombine(s: string, fl: Floats, m: Member, more: seq<Member>, after: string, tail: string)
    requires ReadsBack(SafeMember(m), ParseMember(s, fl), m, after)
    requires var t := SkipSpace(after);
             if more == [] then t == "}" + tail
             else t != "" && t[0] == ',' && ReadsBack(Safe(Obj(more)), ParseMembers(t[1..], fl), more, tail)
    ensures ReadsBack(SafeMember(m) && Safe(Obj(more)), ParseMembers(s, fl), [m] + more, tail)
  {
    var p := ParseMembers(s, fl);
    assert p.Ok? ==> p.value[0] == ParseMember(s, fl).value;
    if SafeMember(m) && more == [] {
      assert SkipSpace(after)[1..] == tail && [m] + more == [m];
    } else if SafeMember(m) && p.Ok? {
      var q := ParseMembers(SkipSpace(after)[1..], fl);
      assert p.value == [m] + q.value;
      assert p.value[1..] == q.value && ([m] + more)[1..] == more;
    }
  }

  lemma {:induction false} ParseMembersWeave(members: seq<Member>, fl: Floats, ws: seq<string>, tail: string)
    requires members != [] && RealFree(Obj(members)) && |ws| == |MemberTokens(members, fl)| + 1 && Blanks(ws) && Stops(tail)
    ensures ReadsBack(Safe(Obj(members)), ParseMembers(Weave(MemberTokens(members, fl) + ["}"], ws) + tail, fl), members, tail)
    decreases members, 0
  {
    var m, more := members[0], members[1..];
    var first := Tokens(m.value, fl);
    var us := ws[1..][1..];
    var colon := MemberLayout(members, fl, ws, tail);
    var tail' := ValueLayout(first, MemberTokens(more, fl), "}", us, tail);
    ParseWeave(m.value, fl, us[..|first|], tail');
    if more != [] {
      ParseMembersWeave(more, fl, us[|first|..][1..], tail);
    }
    var text := Weave(MemberTokens(members, fl) + ["}"], ws) + tail;
    MemberReadsBack(text, fl, m, colon, Weave(first, us[..|first|]) + tail', tail');
    MembersCombine(text, fl, m, more, tail', tail);
    FirstMemberAndRest(members);
  }

  lemma FirstMemberAndRest(members: seq<Member>)
    requires members != []
    ensures members == [members[0]] + members[1..]
    ensures Safe(Obj(members)) <==> SafeMember(members[0]) && Safe(Obj(members[1..]))
  {
    var m, more := members[0], members[1..];
    assert members == [m] + more;
    assert forall k | 0 <= k < |more| :: more[k] == members[k + 1];
  }

  lemma MemberLayout(members: seq<Member>, fl: Floats, ws: seq<string>, tail: string) returns (colon: string)
    requires members != [] && |ws| == |MemberTokens(members, fl)| + 1 && Blanks(ws)
    ensures var m := members[0];
            var value := Tokens(m.value, fl) + After(MemberTokens(members[1..], fl), "}");
            && |ws| == 2 + |value| && Blanks(ws[1..][1..])
            && SkipSpace(Weave(MemberTokens(members, fl) + ["}"], ws) + tail) == Quoted(m.key) + colon
            && SkipSpace(colon) == ":" + (Weave(value, ws[1..][1..]) + tail)
  {
    var m := members[0];
    var value := Tokens(m.value, fl) + After(MemberTokens(members[1..], fl), "}");
    var tokens := MemberTokens(members, fl) + ["}"];
    assert tokens == [Quoted(m.key), ":"] + value;
    assert tokens[1..] == [":"] + value && tokens[1..][1..] == value;
    WeaveFirst(tokens, ws, tail);
    WeaveFirst(tokens[1..], ws[1..], tail);
    colon := Weave(tokens[1..], ws[1..]) + tail;
  }

  // ---------------------------------------------------------------- the theorems

  /**
    Decoding any layout of the encoding of a value without floating point numbers gives that value back
    if and only if its strings and keys are ones the printer and the reader agree on.
  */
  lemma RoundTrip(v: Json, fl: Floats, ws: seq<string>, trail: string)
    requires RealFree(v) && |ws| == |Tokens(v, fl)| && Blanks(ws) && Blank(trail)
    ensures Decode(Weave(Tokens(v, fl), ws) + trail, fl) == Success(v) <==> Safe(v)
  {
    var text := Weave(Tokens(v, fl), ws) + trail;
    assert Stops(trail) by {
      if trail != "" {
        assert trail[0] in trail;
      }
    }
    ParseWeave(v, fl, ws, trail);
    ParseValueSkips(text, fl);
    SkipBlank(trail, "");
    assert trail + "" == trail;
  }

  /** In particular for the text json_encode itself prints. */
  lemma EncodeDecode(v: Json, fl: Floats)
    requires RealFree(v)
    ensures Decode(Encode(v, fl), fl) == Success(v) <==> Safe(v)
  {
    var tokens := Tokens(v, fl);
    var ws := seq(|tokens|, _ => "");
    TightLayout(tokens, ws);
    RoundTrip(v, fl, ws, "");
    assert Weave(tokens, ws) + "" == Encode(v, fl);
  }

  /** Two safe values with the same text are the same value. */
  lemma EncodeIsInjective(v: Json, w: Json, fl: Floats)
    requires RealFree(v) && RealFree(w) && Safe(v) && Safe(w)
    requires Encode(v, fl) == Encode(w, fl)
    ensures v == w
  {
    EncodeDecode(v, fl);
    EncodeDecode(w, fl);
  }
}
