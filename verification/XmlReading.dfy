/**
  What the XML reader accepts, told without it: a text is read as a tree exactly when it is the text of a
  document of that tree. So mismatched or missing closing tags, attributes without quotes, bare ampersands in
  their values, declarations and trailing content are refused.
*/
module XmlReading {
  import opened Common
  import opened XmlGrammar
  import opened XmlRoundTrip

  // ---------------------------------------------------------------- names, entities and text

  lemma {:induction false} BlankSpelled(s: string) returns (b: string)
    ensures Blank(b) && s == b + SkipSpace(s)
  {
    b := "";
    if s != "" && IsSpace(s[0]) {
      var more := BlankSpelled(s[1..]);
      b := [s[0]] + more;
    }
  }

  lemma {:induction false} NameSpelled(s: string)
    ensures var p := NameChars(s); s == p.value + p.rest && (forall c | c in p.value :: IsNameChar(c)) && EndsName(p.rest)
  {
    if s != "" && IsNameChar(s[0]) {
      NameSpelled(s[1..]);
    }
  }

  /** The entity that is taken, and what is left of the input. */
  lemma EntityTaken(s: string)
    requires ParseEntity(s).Ok?
    ensures var p := ParseEntity(s);
            Special(p.value) && EntityName(p.value) <= s && p.rest == SkipSemicolon(s[|EntityName(p.value)|..])
  {
  }

  lemma NameAndRest(c: char, name: string, rest: string) returns (closed: bool)
    requires Special(c) && name == EntityName(c)
    ensures GoodEntity(c, closed, SkipSemicolon(rest)) && name + rest == ShowPiece(Entity(c, closed)) + SkipSemicolon(rest)
  {
    closed := Starts(rest, ';');
    if closed {
      assert rest == ";" + rest[1..];
      Associate(name, ";", rest[1..]);
    } else {
      assert name + "" == name;
    }
  }

  lemma EntitySpelled(s: string) returns (closed: bool)
    requires ParseEntity(s).Ok?
    ensures var p := ParseEntity(s);
            GoodEntity(p.value, closed, p.rest) && s == ShowPiece(Entity(p.value, closed)) + p.rest
  {
    EntityTaken(s);
    var c := ParseEntity(s).value;
    var name := EntityName(c);
    assert s == name + s[|name|..];
    closed := NameAndRest(c, name, s[|name|..]);
  }

  /** An entity that does not end the input is taken. */
  lemma EntityIsTaken(s: string, tail: string)
    requires StartsEntity(s) && Starts(tail, '<')
    ensures ParseEntity("&" + (s + tail)).Ok?
  {
    EntityStopsAtBracket(s, tail);
    EntityNames(s + tail);
    WordStopsAtBracket("gt", s, tail);
    WordStopsAtBracket("amp", s, tail);
    WordStopsAtBracket("quot", s, tail);
    WordStopsAtBracket("apos", s, tail);
  }

  lemma GoodTextNext(p: Piece, more: seq<Piece>, tail: string)
    requires GoodText(more) && Starts(tail, '<')
    requires p.Itself? ==> p.c != '<' && (p.c == '&' ==> ParseEntity("&" + (ShowPieces(more) + tail)).Bad?)
    requires p.Entity? ==> GoodEntity(p.c, p.closed, ShowPieces(more) + tail)
    ensures GoodText([p] + more) && TextOf([p] + more) == [p.c] + TextOf(more)
    ensures ShowPieces([p] + more) + tail == ShowPiece(p) + (ShowPieces(more) + tail)
  {
    assert ([p] + more)[1..] == more;
    Associate(ShowPiece(p), ShowPieces(more), tail);
    SemicolonStays(ShowPieces(more), tail, '<');
    if p == Itself('&') && StartsEntity(ShowPieces(more)) {
      EntityIsTaken(ShowPieces(more), tail);
    }
  }

  /** How a text is read that begins with an entity, and how another one is. */
  lemma TextUnfolds(s: string)
    requires s != "" && s[0] != '<'
    ensures var entity := ParseEntity(s);
            ParseText(s) == if s[0] == '&' && entity.Ok? then Cons(entity.value, ParseText(entity.rest)) else Cons(s[0], ParseText(s[1..]))
  {
  }

  lemma {:induction false} TextSpelled(s: string) returns (pieces: seq<Piece>)
    requires ParseText(s).rest != ""
    ensures var p := ParseText(s);
            GoodText(pieces) && TextOf(pieces) == p.value && s == ShowPieces(pieces) + p.rest && Starts(p.rest, '<')
    decreases |s|
  {
    pieces := [];
    if s[0] != '<' {
      var entity, tail := ParseEntity(s), ParseText(s).rest;
      TextUnfolds(s);
      if s[0] == '&' && entity.Ok? {
        var closed := EntitySpelled(s);
        var more := TextSpelled(entity.rest);
        GoodTextNext(Entity(entity.value, closed), more, tail);
        pieces := [Entity(entity.value, closed)] + more;
      } else {
        var more := TextSpelled(s[1..]);
        assert s == [s[0]] + s[1..];
        GoodTextNext(Itself(s[0]), more, tail);
        pieces := [Itself(s[0])] + more;
      }
    }
  }

  lemma GoodValueNext(p: Piece, more: seq<Piece>, quote: char, tail: string)
    requires GoodValue(more, quote) && (quote == '"' || quote == '\'') && Starts(tail, quote)
    requires p.Itself? ==> p.c != quote && p.c != '&'
    requires p.Entity? ==> GoodEntity(p.c, p.closed, ShowPieces(more) + tail)
    ensures GoodValue([p] + more, quote) && TextOf([p] + more) == [p.c] + TextOf(more)
    ensures ShowPieces([p] + more) + tail == ShowPiece(p) + (ShowPieces(more) + tail)
  {
    assert ([p] + more)[1..] == more;
    Associate(ShowPiece(p), ShowPieces(more), tail);
    SemicolonStays(ShowPieces(more), tail, quote);
  }

  lemma {:induction false} ValueSpelled(s: string, quote: char) returns (pieces: seq<Piece>)
    requires (quote == '"' || quote == '\'') && ParseQuoted(s, quote).Ok?
    ensures var p := ParseQuoted(s, quote);
            GoodValue(pieces, quote) && TextOf(pieces) == p.value && s == ShowPieces(pieces) + ([quote] + p.rest)
    decreases |s|
  {
    pieces := [];
    var tail := [quote] + ParseQuoted(s, quote).rest;
    if s[0] == quote {
      assert s == tail;
    } else if s[0] == '&' {
      var entity := ParseEntity(s);
      var closed := EntitySpelled(s);
      var more := ValueSpelled(entity.rest, quote);
      GoodValueNext(Entity(entity.value, closed), more, quote, tail);
      pieces := [Entity(entity.value, closed)] + more;
    } else {
      var more := ValueSpelled(s[1..], quote);
      assert s == [s[0]] + s[1..];
      GoodValueNext(Itself(s[0]), more, quote, tail);
      pieces := [Itself(s[0])] + more;
    }
  }

  // ---------------------------------------------------------------- attributes

  lemma AttributeSpelled(s: string) returns (a: Attribute)
    requires ParseAttribute(s).Ok?
    ensures var p := ParseAttribute(s);
            GoodAttribute(a) && a.gap == "" && (a.key, TextOf(a.value)) == p.value && s == ShowAttribute(a) + p.rest
  {
    var key := ParseName(s);
    NameSpelled(s);
    var t := SkipSpace(key.rest);
    var beforeEq := BlankSpelled(key.rest);
    var u := SkipSpace(t[1..]);
    var afterEq := BlankSpelled(t[1..]);
    var value := ValueSpelled(u[1..], u[0]);
    a := Attribute("", key.value, beforeEq, afterEq, u[0], value);
    AttributeParts(a, ParseAttribute(s).rest);
    assert t == "=" + t[1..] && u == [u[0]] + u[1..];
  }

  lemma AttributeAfterGap(a: Attribute, gap: string, rest: string)
    requires a.gap == ""
    ensures gap + (ShowAttribute(a) + rest) == ShowAttribute(a.(gap := gap)) + rest
  {
  }

  lemma AttributeInFront(first: Attribute, more: seq<Attribute>, tail: string)
    ensures ShowAttribute(first) + (ShowAttributes(more) + tail) == ShowAttributes([first] + more) + tail
    ensures AttributeMap([first] + more) == AttributeMap(more)[first.key := TextOf(first.value)]
  {
    assert ([first] + more)[1..] == more;
    Associate(ShowAttribute(first), ShowAttributes(more), tail);
  }

  lemma AttributesUnfold(s: string)
    requires ParseAttributes(s).Ok?
    ensures var t := SkipSpace(s);
            if t == "" || ClosesTag(t) then ParseAttributes(s) == Ok(map[], t)
            else
              var first := ParseAttribute(t);
              && first.Ok? && |first.rest| < |s| && ParseAttributes(first.rest).Ok?
              && var more := ParseAttributes(first.rest);
                 ParseAttributes(s) == Ok(more.value[first.value.0 := first.value.1], more.rest)
  {
  }

  lemma {:induction false} AttributesSpelled(s: string) returns (attrs: seq<Attribute>, gap: string)
    requires ParseAttributes(s).Ok?
    ensures var p := ParseAttributes(s);
            && (forall i | 0 <= i < |attrs| :: GoodAttribute(attrs[i])) && Blank(gap) && AttributeMap(attrs) == p.value
            && s == ShowAttributes(attrs) + (gap + p.rest) && (p.rest == "" || ClosesTag(p.rest))
    decreases |s|
  {
    var t, rest := SkipSpace(s), ParseAttributes(s).rest;
    gap := BlankSpelled(s);
    AttributesUnfold(s);
    if t == "" || ClosesTag(t) {
      attrs := [];
      assert s == ShowAttributes(attrs) + (gap + rest);
    } else {
      var first := AttributeSpelled(t);
      var behind := ParseAttribute(t).rest;
      AttributeAfterGap(first, gap, behind);
      first := first.(gap := gap);
      var more, lastGap := AttributesSpelled(behind);
      attrs, gap := [first] + more, lastGap;
      AttributeInFront(first, more, gap + rest);
    }
  }

  lemma NoGapGoesOnWithName(a: Attribute, tail: string)
    requires a.gap == "" && IsName(a.key)
    ensures !EndsName(ShowAttribute(a) + tail)
  {
    assert (ShowAttribute(a) + tail)[0] == a.key[0] && a.key[0] in a.key;
  }

  lemma FirstGapIsSpace(attrs: seq<Attribute>, tail: string)
    requires (forall i | 0 <= i < |attrs| :: GoodAttribute(attrs[i])) && EndsName(ShowAttributes(attrs) + tail)
    ensures GoodAttributes(attrs)
  {
    if attrs != [] && attrs[0].gap == "" {
      Associate(ShowAttribute(attrs[0]), ShowAttributes(attrs[1..]), tail);
      NoGapGoesOnWithName(attrs[0], ShowAttributes(attrs[1..]) + tail);
      assert false;
    }
  }

  // ---------------------------------------------------------------- gaps

  lemma OneMoreWithout(c: char, more: string, end: string, s: string)
    requires Without(more, end) && [c] + more <= s && !(end <= s)
    ensures Without([c] + more, end)
  {
    var text := [c] + more;
    assert !(end <= text);
    forall i | 0 <= i < |text| ensures !(end <= text[i..]) {
      assert if i == 0 then text[i..] == text else text[i..] == more[i - 1..];
    }
  }

  lemma {:induction false} CommentSpelled(s: string) returns (text: string, closed: bool)
    ensures GoodComment(text)
    ensures if closed then s == text + ("-->" + AfterComment(s)) else text == s
  {
    if |s| < 3 {
      text, closed := s, false;
    } else if "-->" <= s {
      text, closed := "", true;
    } else {
      var more, ends := CommentSpelled(s[1..]);
      text, closed := [s[0]] + more, ends;
      OneMoreWithout(s[0], more, "-->", s);
    }
  }

  /** Behind a gap there is a tag, or nothing. */
  predicate TagOrEnd(s: string) {
    s == "" || (Starts(s, '<') && |s| > 2)
  }

  lemma SpaceInFront(b: string, gap: Gap, tail: string) returns (r: Gap)
    requires Blank(b) && GoodGap(gap)
    ensures GoodGap(r) && b + (ShowGap(gap) + tail) == ShowGap(r) + tail
    ensures b == "" ==> r == gap
  {
    if b == "" {
      r := gap;
    } else {
      r := [Space(b)] + gap;
      assert r[1..] == gap;
      Associate(b, ShowGap(gap), tail);
    }
  }

  lemma CommentShown(text: string, tail: string)
    ensures ShowPart(Comment(text)) + tail == "<!--" + (text + ("-->" + tail))
  {
    Associate("<!--", text + "-->", tail);
    Associate(text, "-->", tail);
  }

  lemma CommentInFront(text: string, gap: Gap, tail: string) returns (r: Gap)
    requires GoodComment(text) && GoodGap(gap)
    ensures GoodGap(r) && "<!--" + (text + ("-->" + (ShowGap(gap) + tail))) == ShowGap(r) + tail
    ensures Cuts(r)
  {
    r := [Comment(text)] + gap;
    assert r[1..] == gap;
    CommentShown(text, ShowGap(gap) + tail);
    Associate(ShowPart(Comment(text)), ShowGap(gap), tail);
  }

  lemma CutSpelled(text: string)
    requires GoodComment(text) && TagOrEnd(SkipGap(AfterComment(text)))
    ensures GoodCut(text) && SkipGap(AfterComment(text)) == ""
  {
    CutComment(text);
    var left := AfterComment(text);
    var b := BlankSpelled(left);
    assert |text| == 2 ==> text[|text| - 2..] == text;
    assert |SkipSpace(left)| <= 2 && SkipGap(left) == SkipSpace(left);
    assert b == left;
  }

  lemma {:induction false} GapSpelled(s: string) returns (gap: Gap, cut: Option<string>)
    requires TagOrEnd(SkipGap(s))
    ensures GoodGap(gap) && s == ShowGap(gap) + (ShowCut(cut) + SkipGap(s))
    ensures cut.Some? ==> GoodCut(cut.value) && SkipGap(s) == ""
    ensures s != "" && !IsSpace(s[0]) ==> Cuts(gap)
    decreases |s|
  {
    var t, end := SkipSpace(s), SkipGap(s);
    var b := BlankSpelled(s);
    gap, cut := [], None;
    if |t| >= 4 && "<!--" <= t {
      var text, closed := CommentSpelled(t[4..]);
      assert t == "<!--" + t[4..];
      if closed {
        gap, cut := GapSpelled(AfterComment(t[4..]));
        gap := CommentInFront(text, gap, ShowCut(cut) + end);
      } else {
        CutSpelled(text);
        cut := Some(text);
      }
    } else {
      assert !(|t| >= 4 && "<!" <= t) by {
        if |t| >= 4 && "<!" <= t {
          DeclarationIsRefused(t);
        }
      }
    }
    assert t == ShowGap(gap) + (ShowCut(cut) + end);
    gap := SpaceInFront(b, gap, ShowCut(cut) + end);
  }

  /** A declaration loses its bracket, and what is left is no tag. */
  lemma DeclarationIsRefused(t: string)
    requires |t| >= 4 && "<!" <= t && !("<!--" <= t)
    ensures !TagOrEnd(SkipGap(t))
  {
    assert t[1..][0] == '!';
  }

  // ---------------------------------------------------------------- elements

  lemma ElementJoined(d: Document, s: string, rest: string)
    requires s == "<" + (d.name + (ShowAttributes(d.attrs) + (d.tagGap + (ShowBody(d.body, d.name) + rest))))
    ensures s == Show(d) + rest
  {
    ElementParts(d, rest);
  }

  lemma {:induction false} ElementSpelled(s: string) returns (d: Document)
    requires ParseElement(s).Ok?
    ensures Good(d) && Tree(d) == ParseElement(s).value && s == Show(d) + ParseElement(s).rest
    decreases |s|, 0
  {
    var name := ParseName(s[1..]);
    NameSpelled(s[1..]);
    var attrs, gap := AttributesSpelled(name.rest);
    FirstGapIsSpace(attrs, gap + ParseAttributes(name.rest).rest);
    var open := Document(name.value, attrs, gap, SelfClosing);
    d := BodySpelled(ParseAttributes(name.rest).rest, open);
    assert s == "<" + s[1..];
    ElementJoined(d, s, ParseElement(s).rest);
  }

  lemma OpenJoined(d: Document, s: string, rest: string)
    requires d.body.Open?
    requires s == ">" + (ShowPieces(d.body.text)
                  + (ShowChildren(d.body.children) + (ShowGap(d.body.lastGap) + ("</" + (d.name + (d.body.closeGap + (">" + rest)))))))
    ensures s == ShowBody(d.body, d.name) + rest
    ensures Tree(d) == Node(d.name, TextOf(d.body.text), AttributeMap(d.attrs), Trees(d.body.children))
  {
    OpenParts(d.body.text, d.body.children, d.body.lastGap, d.body.closeGap, d.name, rest);
  }

  lemma TextStopsAtTag(s: string, name: string)
    requires ParseChildren(ParseText(s).rest, name).Ok?
    ensures ParseText(s).rest != ""
  {
    assert SkipGap("") == "";
  }

  /** The same opening tag, with the body that is spelled. */
  lemma {:induction false} BodySpelled(s: string, open: Document) returns (d: Document)
    requires ParseBody(s, open.name, AttributeMap(open.attrs)).Ok? && (s == "" || ClosesTag(s))
    requires Good(open)
    ensures var p := ParseBody(s, open.name, AttributeMap(open.attrs));
            && Good(d) && Tree(d) == p.value && s == ShowBody(d.body, d.name) + p.rest
            && d.name == open.name && d.attrs == open.attrs && d.tagGap == open.tagGap
    decreases |s|, 2
  {
    var rest := ParseBody(s, open.name, AttributeMap(open.attrs)).rest;
    assert SkipSpace(s) == s;
    if Starts(s, '/') {
      d := open.(body := SelfClosing);
      assert s == "/>" + s[2..];
    } else {
      var text := ParseText(s[1..]);
      TextStopsAtTag(s[1..], open.name);
      var pieces := TextSpelled(s[1..]);
      var children, lastGap, closeGap := ChildrenSpelled(text.rest, open.name);
      d := open.(body := Open(pieces, children, lastGap, closeGap));
      assert s == ">" + s[1..];
      OpenJoined(d, s, rest);
    }
  }

  lemma ChildrenJoined(children: seq<Child>, close: string, s: string)
    requires children != []
    requires s == ShowGap(children[0].gap) + (Show(children[0].element) + (ShowChildren(children[1..]) + close))
    ensures s == ShowChildren(children) + close
  {
    ChildParts(children, close);
  }

  lemma {:induction false} ChildrenSpelled(s: string, name: string) returns (children: seq<Child>, lastGap: Gap, closeGap: string)
    requires ParseChildren(s, name).Ok? && IsName(name)
    ensures var p := ParseChildren(s, name);
            && GoodChildren(children) && Trees(children) == p.value && GoodGap(lastGap) && Blank(closeGap)
            && s == ShowChildren(children) + (ShowGap(lastGap) + ("</" + (name + (closeGap + (">" + p.rest)))))
    ensures s != "" && !IsSpace(s[0]) ==> Cuts(if children == [] then lastGap else children[0].gap)
    decreases |s|, 1
  {
    var t, rest := SkipGap(s), ParseChildren(s, name).rest;
    var gap, cut := GapSpelled(s);
    assert ShowCut(cut) + t == t;
    if Starts(t[1..], '/') {
      closeGap := ClosingSpelled(t[2..], name);
      children, lastGap := [], gap;
      assert t == "</" + t[2..];
      var close := ShowGap(lastGap) + ("</" + (name + (closeGap + (">" + rest))));
      assert ShowChildren(children) + close == close;
    } else {
      var first := ElementSpelled(t);
      var more;
      more, lastGap, closeGap := ChildrenSpelled(ParseElement(t).rest, name);
      children := [Child(gap, first)] + more;
      assert children[1..] == more;
      ChildrenJoined(children, ShowGap(lastGap) + ("</" + (name + (closeGap + (">" + rest)))), s);
    }
  }

  /** The closing tag has the name of the opening one. */
  lemma ClosingSpelled(s: string, name: string) returns (closeGap: string)
    requires ParseClosing(s, name).Ok?
    ensures Blank(closeGap) && s == name + (closeGap + (">" + ParseClosing(s, name).rest))
  {
    NameSpelled(s);
    var t := SkipSpace(ParseName(s).rest);
    closeGap := BlankSpelled(ParseName(s).rest);
    assert t == ">" + t[1..];
  }

  // ---------------------------------------------------------------- files

  lemma {:induction false} InstructionSpelled(s: string) returns (text: string, closed: bool)
    ensures if closed
            then s == text + ("?>" + AfterInstruction(s)) && Without(text, "?>")
            else |AfterInstruction(s)| < 2
  {
    if |s| < 2 {
      text, closed := s, false;
    } else if "?>" <= s {
      text, closed := "", true;
    } else {
      var more, ends := InstructionSpelled(s[1..]);
      text, closed := [s[0]] + more, ends;
      if closed {
        OneMoreWithout(s[0], more, "?>", s);
      }
    }
  }

  /** A prolog in front of an element leaves at least a tag. */
  lemma ElementIsTag(s: string)
    requires ParseElement(s).Ok?
    ensures Starts(s, '<') && |s| > 2
  {
  }

  lemma BareProlog()
    ensures ParseElement(SkipProlog("<?")).Bad?
  {
    assert "<?"[2..] == "" && SkipGap("") == "" && SkipProlog("") == "";
  }

  lemma PrologLeavesTag(s: string)
    requires ParseElement(SkipProlog(s)).Ok?
    ensures Starts(s, '<') && |s| > 2
  {
    BareProlog();
    if "<?" <= s {
      assert |s| == 2 ==> s == "<?";
    } else {
      ElementIsTag(s);
    }
  }

  lemma PrologJoined(prolog: seq<Instruction>, more: seq<Instruction>, s: string, tail: string)
    requires prolog != [] && prolog == [prolog[0]] + more
    requires s == "<?" + (prolog[0].text + ("?>" + (ShowGap(prolog[0].gap) + (ShowProlog(more) + tail))))
    ensures s == ShowProlog(prolog) + tail
  {
    assert prolog[1..] == more;
    PrologParts(prolog, tail);
  }

  lemma {:induction false} PrologSpelled(s: string) returns (prolog: seq<Instruction>)
    requires ParseElement(SkipProlog(s)).Ok?
    ensures (forall i | 0 <= i < |prolog| :: GoodInstruction(prolog[i])) && s == ShowProlog(prolog) + SkipProlog(s)
    decreases |s|
  {
    prolog := [];
    if "<?" <= s {
      var behind := AfterInstruction(s[2..]);
      PrologLeavesTag(SkipGap(behind));
      var text, closed := InstructionSpelled(s[2..]);
      var gap, cut := GapSpelled(behind);
      assert ShowCut(cut) + SkipGap(behind) == SkipGap(behind);
      var more := PrologSpelled(SkipGap(behind));
      prolog := [Instruction(text, gap)] + more;
      assert s == "<?" + s[2..];
      PrologJoined(prolog, more, s, SkipProlog(s));
    }
  }

  lemma MarkSpelled(s: string)
    ensures s == (if BOM <= s then BOM else "") + SkipBom(s)
  {
    assert BOM <= s ==> s == BOM + s[3..];
    assert "" + s == s;
  }

  lemma FileSpelled(text: string) returns (f: File)
    requires ParseRoot(text).Success?
    ensures GoodFile(f) && ShowFile(f) == text && Tree(f.root) == ParseRoot(text).value
  {
    var marked := SkipSpace(text);
    var plain := SkipBom(marked);
    var root := SkipProlog(plain);
    var lead := BlankSpelled(text);
    var prolog := PrologSpelled(plain);
    var d := ElementSpelled(root);
    var trail, cut := GapSpelled(ParseElement(root).rest);
    assert ShowCut(cut) + "" == ShowCut(cut);
    MarkSpelled(marked);
    f := File(lead, BOM <= marked, prolog, d, trail, cut);
  }

  ghost predicate Spells(text: string, x: Xml) {
    exists f :: GoodFile(f) && ShowFile(f) == text && Tree(f.root) == x
  }

  /** Reading gives a tree exactly when the text is that of a document of the tree. */
  lemma ReadIffSpelled(text: string, x: Xml)
    ensures ParseRoot(text) == Success(x) <==> Spells(text, x)
  {
    if ParseRoot(text) == Success(x) {
      var f := FileSpelled(text);
    }
    if f :| GoodFile(f) && ShowFile(f) == text && Tree(f.root) == x {
      FileReadsBack(f);
    }
  }
}
