/** XmlReader with its cursor, proved to compute the grammar's functions. It terminates on every input. */
module XmlText {
  import opened Common
  import opened XmlGrammar

  class XmlReader {
    const src: string
    var pos: nat

    constructor (src: string)
      ensures this.src == src && pos == 0
    {
      this.src, pos := src, 0;
    }

    ghost predicate Valid()
      reads this
    {
      pos <= |src|
    }

    ghost function Rest(): string
      requires Valid()
      reads this
    {
      src[pos..]
    }

    /** The method's answer and cursor are what the production p says. */
    ghost predicate Did<T>(r: Result<T>, p: Parsed<T>)
      reads this
    {
      Valid() && if p.Ok? then r == Success(p.value) && Rest() == p.rest else r == Failure(ParseFailed)
    }

    predicate At(c: char)
      requires Valid()
      reads this
      ensures At(c) <==> Starts(Rest(), c)
    {
      pos < |src| && src[pos] == c
    }

    predicate Looking(word: string)
      requires Valid()
      reads this
      ensures Looking(word) <==> word <= Rest()
    {
      if pos + |word| <= |src| then
        assert src[pos..][..|word|] == src[pos..pos + |word|];
        src[pos..pos + |word|] == word
      else false
    }

    /** Moving the cursor drops characters from the rest. */
    method Advance(n: nat)
      requires pos + n <= |src|
      modifies this
      ensures Valid() && pos == old(pos) + n
      ensures Rest() == old(Rest())[n..]
    {
      assert src[pos + n..] == src[pos..][n..];
      pos := pos + n;
    }

    method SkipWhitespace()
      requires Valid()
      modifies this
      ensures Valid() && Rest() == SkipSpace(old(Rest()))
      ensures pos >= old(pos)
    {
      while pos < |src| && IsSpace(src[pos])
        invariant old(pos) <= pos <= |src|
        invariant SkipSpace(src[pos..]) == SkipSpace(old(Rest()))
      {
        Advance(1);
      }
    }

    /** The inner loop that looks for the end of a comment. */
    method SkipComment()
      requires Valid()
      modifies this
      ensures Valid() && Rest() == AfterComment(old(Rest()))
      ensures pos >= old(pos)
    {
      while pos + 3 <= |src| && !Looking("-->")
        invariant old(pos) <= pos <= |src|
        invariant AfterComment(src[pos..]) == AfterComment(old(Rest()))
        decreases |src| - pos
      {
        Advance(1);
      }
      if pos + 3 <= |src| {
        Advance(3);
      }
    }

    method SkipWhitespaceAndComments()
      requires Valid()
      modifies this
      ensures Valid() && Rest() == SkipGap(old(Rest()))
      ensures pos >= old(pos)
    {
      while pos < |src|
        invariant old(pos) <= pos <= |src|
        invariant SkipGap(src[pos..]) == SkipGap(old(Rest()))
        invariant pos == |src| ==> SkipGap(old(Rest())) == ""
        decreases |src| - pos
      {
        SkipWhitespace();
        if pos + 4 <= |src| && Looking("<!") {
          if Looking("<!--") {
            Advance(4);
            SkipComment();
          } else {
            Advance(1);
          }
        } else {
          break;
        }
      }
    }

    method ReadName() returns (r: Result<string>)
      requires Valid()
      modifies this
      ensures Did(r, ParseName(old(Rest())))
      ensures pos >= old(pos) && (r.Success? ==> pos > old(pos))
    {
      var out := "";
      PrependNothing(NameChars(Rest()));
      while pos < |src| && IsNameChar(src[pos])
        invariant old(pos) <= pos <= |src|
        invariant |out| == pos - old(pos)
        invariant NameChars(old(Rest())) == Prepend(out, NameChars(Rest()))
      {
        var c := src[pos];
        Advance(1);
        PrependCons(out, c, NameChars(Rest()));
        out := out + [c];
      }
      assert out + "" == out;
      if out == "" {
        return Failure(ParseFailed);
      }
      return Success(out);
    }

    method ReadEntity() returns (r: Result<char>)
      requires Valid()
      modifies this
      ensures Did(r, ParseEntity(old(Rest())))
      ensures if r.Success? then pos > old(pos) else pos == old(pos)
    {
      if Looking("&lt") {
        Advance(3);
        r := Success('<');
      } else if pos + 3 < |src| && Looking("&gt") {
        Advance(3);
        r := Success('>');
      } else if pos + 4 < |src| && Looking("&amp") {
        Advance(4);
        r := Success('&');
      } else if pos + 5 < |src| && Looking("&quot") {
        Advance(5);
        r := Success('"');
      } else if pos + 5 < |src| && Looking("&apos") {
        Advance(5);
        r := Success('\'');
      } else {
        return Failure(ParseFailed);
      }
      if At(';') {
        Advance(1);
      }
    }

    method ReadText() returns (out: string)
      requires Valid()
      modifies this
      ensures Valid() && ParseText(old(Rest())) == Ok(out, Rest())
      ensures pos >= old(pos)
    {
      out := "";
      PrependNothing(ParseText(Rest()));
      while pos < |src| && src[pos] != '<'
        invariant old(pos) <= pos <= |src|
        invariant ParseText(old(Rest())) == Prepend(out, ParseText(src[pos..]))
        decreases |src| - pos
      {
        var c := src[pos];
        var entity: Result<char> := Failure(ParseFailed);
        if c == '&' {
          entity := ReadEntity();
        }
        if entity.Success? {
          c := entity.value;
        } else {
          Advance(1);
        }
        PrependCons(out, c, ParseText(Rest()));
        out := out + [c];
      }
      assert out + "" == out;
    }

    /** One attribute value, from behind its opening quote to behind its closing one. */
    method ReadQuoted(quote: char) returns (r: Result<string>)
      requires Valid() && quote != '&'
      modifies this
      ensures Did(r, ParseQuoted(old(Rest()), quote))
      ensures r.Success? ==> pos > old(pos)
    {
      var value := "";
      ghost var p := ParseQuoted(Rest(), quote);
      PrependNothing(p);
      while pos < |src| && src[pos] != quote
        invariant old(pos) <= pos <= |src|
        invariant p == Prepend(value, ParseQuoted(src[pos..], quote))
        decreases |src| - pos
      {
        var c := src[pos];
        if c == '&' {
          var entity := ReadEntity();
          if entity.Failure? {
            return Failure(entity.error);
          }
          c := entity.value;
        } else {
          Advance(1);
        }
        PrependCons(value, c, ParseQuoted(Rest(), quote));
        value := value + [c];
      }
      if pos >= |src| {
        return Failure(ParseFailed);
      }
      assert value + "" == value;
      Advance(1);
      return Success(value);
    }

    method ReadAttribute() returns (r: Result<(string, string)>)
      requires Valid()
      modifies this
      ensures Did(r, ParseAttribute(old(Rest())))
      ensures r.Success? ==> pos > old(pos)
    {
      var key := ReadName();
      if key.Failure? {
        return Failure(key.error);
      }
      SkipWhitespace();
      if !At('=') {
        return Failure(ParseFailed);
      }
      Advance(1);
      SkipWhitespace();
      if !At('"') && !At('\'') {
        return Failure(ParseFailed);
      }
      var quote := src[pos];
      Advance(1);
      var value := ReadQuoted(quote);
      if value.Failure? {
        return Failure(value.error);
      }
      return Success((key.value, value.value));
    }

    method ReadAttributes() returns (r: Result<map<string, string>>)
      requires Valid()
      modifies this
      ensures Did(r, ParseAttributes(old(Rest())))
      ensures pos >= old(pos) || r.Failure?
    {
      var out: map<string, string> := map[];
      ghost var p := ParseAttributes(Rest());
      assert p == Under(out, p) by {
        assert p.Ok? ==> p.value + out == p.value;
      }
      while pos < |src|
        invariant old(pos) <= pos <= |src|
        invariant p == Under(out, ParseAttributes(src[pos..]))
        decreases |src| - pos
      {
        SkipSpaceTwice(Rest());
        SkipWhitespace();
        if pos == |src| || At('/') || At('>') {
          break;
        }
        ghost var here := ParseAttributes(Rest());
        var attr := ReadAttribute();
        if attr.Failure? {
          return Failure(attr.error);
        }
        UnderNext(out, attr.value.0, attr.value.1, ParseAttributes(Rest()), here);
        if attr.value.0 !in out {
          out := out[attr.value.0 := attr.value.1];
        }
      }
      assert map[] + out == out;
      return Success(out);
    }

    method ReadElement() returns (r: Result<Xml>)
      requires Valid()
      modifies this
      ensures Did(r, ParseElement(old(Rest())))
      ensures r.Success? ==> pos > old(pos)
      decreases |src| - pos, 0
    {
      if !At('<') {
        return Failure(ParseFailed);
      }
      Advance(1);
      if At('/') {
        return Failure(ParseFailed);
      }
      var name := ReadName();
      if name.Failure? {
        return Failure(name.error);
      }
      var attrs := ReadAttributes();
      if attrs.Failure? {
        return Failure(attrs.error);
      }
      r := ReadBody(name.value, attrs.value);
    }

    method ReadBody(name: string, attrs: map<string, string>) returns (r: Result<Xml>)
      requires Valid()
      modifies this
      ensures Did(r, ParseBody(old(Rest()), name, attrs))
      ensures r.Success? ==> pos > old(pos)
      decreases |src| - pos, 2
    {
      SkipWhitespace();
      if At('/') {
        Advance(1);
        if !At('>') {
          return Failure(ParseFailed);
        }
        Advance(1);
        return Success(Node(name, "", attrs, []));
      }
      if !At('>') {
        return Failure(ParseFailed);
      }
      Advance(1);
      var text := ReadText();
      var children := ReadChildren(name);
      if children.Failure? {
        return Failure(children.error);
      }
      return Success(Node(name, text, attrs, children.value));
    }

    /** The loop over children, up to and including the closing tag. */
    method ReadChildren(name: string) returns (r: Result<seq<Xml>>)
      requires Valid()
      modifies this
      ensures Did(r, ParseChildren(old(Rest()), name))
      ensures r.Success? ==> pos > old(pos)
      decreases |src| - pos, 1
    {
      var children: seq<Xml> := [];
      ghost var p := ParseChildren(Rest(), name);
      PrependNothing(p);
      while pos < |src|
        invariant old(pos) <= pos <= |src|
        invariant p == Prepend(children, ParseChildren(src[pos..], name))
        decreases |src| - pos
      {
        SkipWhitespaceAndComments();
        if !At('<') {
          return Failure(ParseFailed);
        }
        if pos + 1 < |src| && src[pos + 1] == '/' {
          Advance(2);
          var closed := ReadClosing(name);
          if closed.Failure? {
            return Failure(closed.error);
          }
          assert children + [] == children;
          return Success(children);
        }
        var child := ReadElement();
        if child.Failure? {
          return Failure(child.error);
        }
        PrependCons(children, child.value, ParseChildren(Rest(), name));
        children := children + [child.value];
      }
      return Failure(ParseFailed);
    }

    method ReadClosing(name: string) returns (r: Result<seq<Xml>>)
      requires Valid()
      modifies this
      ensures Did(r, ParseClosing(old(Rest()), name))
      ensures r.Success? ==> pos > old(pos)
    {
      var closed := ReadName();
      if closed.Failure? {
        return Failure(closed.error);
      }
      if closed.value != name {
        return Failure(ParseFailed);
      }
      SkipWhitespace();
      if !At('>') {
        return Failure(ParseFailed);
      }
      Advance(1);
      return Success([]);
    }

    /** The loop over processing instructions in front of the root. */
    method SkipInstructions()
      requires Valid()
      modifies this
      ensures Valid() && Rest() == SkipProlog(old(Rest()))
    {
      while Looking("<?")
        invariant old(pos) <= pos <= |src|
        invariant SkipProlog(src[pos..]) == SkipProlog(old(Rest()))
        decreases |src| - pos
      {
        Advance(2);
        SkipInstruction();
        SkipWhitespaceAndComments();
      }
    }

    method SkipInstruction()
      requires Valid()
      modifies this
      ensures Valid() && Rest() == AfterInstruction(old(Rest()))
      ensures pos >= old(pos)
    {
      while pos + 1 < |src| && !Looking("?>")
        invariant old(pos) <= pos <= |src|
        invariant AfterInstruction(src[pos..]) == AfterInstruction(old(Rest()))
        decreases |src| - pos
      {
        Advance(1);
      }
      if pos + 1 < |src| {
        Advance(2);
      }
    }

    method ReadRoot() returns (r: Result<Xml>)
      requires Valid()
      modifies this
      ensures r == ParseRoot(old(Rest()))
    {
      SkipWhitespace();
      if Looking(BOM) {
        Advance(3);
      }
      SkipInstructions();
      r := ReadElement();
      if r.Failure? {
        return;
      }
      SkipWhitespaceAndComments();
      if pos < |src| {
        return Failure(ParseFailed);
      }
    }
  }

  method ReadXml(text: string) returns (r: Result<Xml>)
    ensures r == ParseRoot(text)
  {
    var reader := new XmlReader(text);
    assert text[0..] == text;
    r := reader.ReadRoot();
  }

  // ---------------------------------------------------------------- what the loops have gathered so far

  /** The attributes p gives, where those gathered before win. */
  function Under(out: map<string, string>, p: Parsed<map<string, string>>): Parsed<map<string, string>> {
    if p.Ok? then Ok(p.value + out, p.rest) else Bad
  }

  lemma UnderNext(out: map<string, string>, key: string, value: string, p: Parsed<map<string, string>>, q: Parsed<map<string, string>>)
    requires q == if p.Ok? then Ok(p.value[key := value], p.rest) else Bad
    ensures Under(out, q) == Under(if key in out then out else out[key := value], p)
  {
    if p.Ok? {
      assert p.value[key := value] + out == p.value + (if key in out then out else out[key := value]);
    }
  }

  lemma SkipSpaceTwice(s: string)
    ensures ParseAttributes(SkipSpace(s)) == ParseAttributes(s)
  {
    assert SkipSpace(SkipSpace(s)) == SkipSpace(s);
  }
}
