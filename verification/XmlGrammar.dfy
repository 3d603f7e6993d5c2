/**
  The XML reader of the cheat-table parser as functions on the unread part of the input: every
  production gives a value and what is left, or fails.
*/
module XmlGrammar {
  import opened Common

  datatype Xml = Node(name: string, text: string, attrs: map<string, string>, children: seq<Xml>)

  predicate IsNameChar(c: char) {
    IsDigit(c) || 'a' <= c <= 'z' || 'A' <= c <= 'Z' || c == '_' || c == '-' || c == ':' || c == '.'
  }

  predicate Starts(s: string, c: char) {
    s != "" && s[0] == c
  }

  function NameChars(s: string): (p: Parsed<string>)
    ensures p.Ok? && |p.value| + |p.rest| == |s|
  {
    if s != "" && IsNameChar(s[0]) then Cons(s[0], NameChars(s[1..])) else Ok("", s)
  }

  function ParseName(s: string): (p: Parsed<string>)
    ensures p.Ok? ==> |p.rest| < |s|
  {
    var p := NameChars(s);
    if p.value == "" then Bad else p
  }

  /** The semicolon of an entity may be missing. */
  function SkipSemicolon(s: string): (r: string)
    ensures |r| <= |s|
  {
    if Starts(s, ';') then s[1..] else s
  }

  /** One of the five entities. All but the first want a character behind their name. */
  function ParseEntity(s: string): (p: Parsed<char>)
    ensures p.Ok? ==> |p.rest| < |s|
  {
    if "&lt" <= s then Ok('<', SkipSemicolon(s[3..]))
    else if "&gt" <= s && |s| > 3 then Ok('>', SkipSemicolon(s[3..]))
    else if "&amp" <= s && |s| > 4 then Ok('&', SkipSemicolon(s[4..]))
    else if "&quot" <= s && |s| > 5 then Ok('"', SkipSemicolon(s[5..]))
    else if "&apos" <= s && |s| > 5 then Ok('\'', SkipSemicolon(s[5..]))
    else Bad
  }

  /** The text up to the next tag; what is no entity is taken as it is. */
  function ParseText(s: string): (p: Parsed<string>)
    ensures p.Ok? && |p.rest| <= |s|
    decreases |s|
  {
    if s == "" || s[0] == '<' then Ok("", s)
    else
      var entity := ParseEntity(s);
      if s[0] == '&' && entity.Ok? then Cons(entity.value, ParseText(entity.rest))
      else Cons(s[0], ParseText(s[1..]))
  }

  /** An attribute value up to and including its closing quote. */
  function ParseQuoted(s: string, quote: char): (p: Parsed<string>)
    ensures p.Ok? ==> |p.rest| < |s|
    decreases |s|
  {
    if s == "" then Bad
    else if s[0] == quote then Ok("", s[1..])
    else if s[0] == '&' then
      var entity := ParseEntity(s);
      if entity.Ok? then Cons(entity.value, ParseQuoted(entity.rest, quote)) else Bad
    else Cons(s[0], ParseQuoted(s[1..], quote))
  }

  /** A key, an equals sign and a quoted value. */
  function ParseAttribute(s: string): (p: Parsed<(string, string)>)
    ensures p.Ok? ==> |p.rest| < |s|
  {
    var key := ParseName(s);
    if key.Bad? then Bad
    else
      var t := SkipSpace(key.rest);
      if !Starts(t, '=') then Bad
      else
        var u := SkipSpace(t[1..]);
        if u == "" || (u[0] != '"' && u[0] != '\'') then Bad
        else
          var value := ParseQuoted(u[1..], u[0]);
          if value.Ok? then Ok((key.value, value.value), value.rest) else Bad
  }

  /** All attributes of a tag. Of two with the same key the first counts. */
  function ParseAttributes(s: string): (p: Parsed<map<string, string>>)
    ensures p.Ok? ==> |p.rest| <= |s|
    decreases |s|
  {
    var t := SkipSpace(s);
    if t == "" || t[0] == '/' || t[0] == '>' then Ok(map[], t)
    else
      var attr := ParseAttribute(t);
      if attr.Bad? then Bad
      else
        var more := ParseAttributes(attr.rest);
        if more.Ok? then Ok(more.value[attr.value.0 := attr.value.1], more.rest) else Bad
  }

  /** The rest after the next end of a comment; the last two characters are never looked at. */
  function AfterComment(s: string): (r: string)
    ensures |r| <= |s|
  {
    if |s| < 3 then s
    else if "-->" <= s then s[3..]
    else AfterComment(s[1..])
  }

  /** White space and comments; a declaration that is no comment loses its opening bracket. */
  function SkipGap(s: string): (r: string)
    ensures |r| <= |s|
    decreases |s|
  {
    var t := SkipSpace(s);
    if |t| >= 4 && "<!" <= t then
      if "<!--" <= t then SkipGap(AfterComment(t[4..])) else SkipGap(t[1..])
    else t
  }

  function ParseElement(s: string): (p: Parsed<Xml>)
    ensures p.Ok? ==> |p.rest| < |s|
    decreases |s|, 0
  {
    if !Starts(s, '<') || Starts(s[1..], '/') then Bad
    else
      var name := ParseName(s[1..]);
      if name.Bad? then Bad
      else
        var attrs := ParseAttributes(name.rest);
        if attrs.Bad? then Bad else ParseBody(attrs.rest, name.value, attrs.value)
  }

  /** The end of the opening tag, and for an open element its text, children and closing tag. */
  function ParseBody(s: string, name: string, attrs: map<string, string>): (p: Parsed<Xml>)
    ensures p.Ok? ==> |p.rest| < |s|
    decreases |s|, 2
  {
    var t := SkipSpace(s);
    if Starts(t, '/') then
      if Starts(t[1..], '>') then Ok(Node(name, "", attrs, []), t[2..]) else Bad
    else if !Starts(t, '>') then Bad
    else
      var text := ParseText(t[1..]);
      var children := ParseChildren(text.rest, name);
      if children.Ok? then Ok(Node(name, text.value, attrs, children.value), children.rest) else Bad
  }

  /** The children of an element up to and including its closing tag. */
  function ParseChildren(s: string, name: string): (p: Parsed<seq<Xml>>)
    ensures p.Ok? ==> |p.rest| < |s|
    decreases |s|, 1
  {
    var t := SkipGap(s);
    if !Starts(t, '<') then Bad
    else if Starts(t[1..], '/') then ParseClosing(t[2..], name)
    else
      var child := ParseElement(t);
      if child.Bad? then Bad else Cons(child.value, ParseChildren(child.rest, name))
  }

  /** The name in a closing tag and its bracket. */
  function ParseClosing(s: string, name: string): (p: Parsed<seq<Xml>>)
    ensures p.Ok? ==> |p.rest| < |s|
  {
    var closed := ParseName(s);
    if closed.Bad? || closed.value != name then Bad
    else
      var t := SkipSpace(closed.rest);
      if Starts(t, '>') then Ok([], t[1..]) else Bad
  }

  /** The rest after the end of a processing instruction; the last character is never looked at. */
  function AfterInstruction(s: string): (r: string)
    ensures |r| <= |s|
  {
    if |s| < 2 then s
    else if "?>" <= s then s[2..]
    else AfterInstruction(s[1..])
  }

  function SkipProlog(s: string): (r: string)
    ensures |r| <= |s|
    decreases |s|
  {
    if "<?" <= s then SkipProlog(SkipGap(AfterInstruction(s[2..]))) else s
  }

  const BOM: string := "\U{ef}\U{bb}\U{bf}"

  function SkipBom(s: string): string {
    if BOM <= s then s[3..] else s
  }

  /** XmlReader::parse_root */
  function ParseRoot(s: string): Result<Xml> {
    var root := ParseElement(SkipProlog(SkipBom(SkipSpace(s))));
    if root.Bad? || SkipGap(root.rest) != "" then Failure(ParseFailed) else Success(root.value)
  }
}
