/**
  Reading undoes printing. A document is a tree together with its spelling: entities with or without their
  semicolon, quotes, white space, comments and prolog. Whatever the spelling, the reader gives the tree back.
*/
module XmlRoundTrip {
  import opened Common
  import opened XmlGrammar

  // ---------------------------------------------------------------- documents

  /** A character as itself, or as its entity; closed means with the semicolon. */
  datatype Piece = Itself(c: char) | Entity(c: char, closed: bool)

  datatype Attribute = Attribute(gap: string, key: string, beforeEq: string, afterEq: string, quote: char, value: seq<Piece>)

  datatype GapPart = Space(blank: string) | Comment(text: string)

  type Gap = seq<GapPart>

  datatype Document = Document(name: string, attrs: seq<Attribute>, tagGap: string, body: Body)

  /** An open element has a gap in front of each child and one in front of its closing tag. */
  datatype Body =
    | SelfClosing
    | Open(text: seq<Piece>, children: seq<Child>, lastGap: Gap, closeGap: string)

  datatype Child = Child(gap: Gap, element: Document)

  datatype Instruction = Instruction(text: string, gap: Gap)

  /** A file may end inside a comment. */
  datatype File = File(lead: string, bom: bool, prolog: seq<Instruction>, root: Document, trail: Gap, cut: Option<string>)

  // ---------------------------------------------------------------- printing

  predicate Special(c: char) {
    c == '<' || c == '>' || c == '&' || c == '"' || c == '\''
  }

  function EntityName(c: char): string
    requires Special(c)
  {
    match c
    case '<' => "&lt"
    case '>' => "&gt"
    case '&' => "&amp"
    case '"' => "&quot"
    case _ => "&apos"
  }

  function ShowPiece(p: Piece): string {
    match p
    case Itself(c) => [c]
    case Entity(c, closed) => if Special(c) then EntityName(c) + if closed then ";" else "" else [c]
  }

  function ShowPieces(pieces: seq<Piece>): string {
    if pieces == [] then "" else ShowPiece(pieces[0]) + ShowPieces(pieces[1..])
  }

  /** What the pieces stand for. */
  function TextOf(pieces: seq<Piece>): string {
    if pieces == [] then "" else [pieces[0].c] + TextOf(pieces[1..])
  }

  function ShowAttribute(a: Attribute): string {
    a.gap + (a.key + (a.beforeEq + ("=" + (a.afterEq + ([a.quote] + (ShowPieces(a.value) + [a.quote]))))))
  }

  function ShowAttributes(attrs: seq<Attribute>): string {
    if attrs == [] then "" else ShowAttribute(attrs[0]) + ShowAttributes(attrs[1..])
  }

  function ShowPart(part: GapPart): string {
    match part
    case Space(blank) => blank
    case Comment(text) => "<!--" + (text + "-->")
  }

  function ShowGap(gap: Gap): string {
    if gap == [] then "" else ShowPart(gap[0]) + ShowGap(gap[1..])
  }

  function Show(d: Document): string {
    "<" + (d.name + (ShowAttributes(d.attrs) + (d.tagGap + ShowBody(d.body, d.name))))
  }

  function ShowBody(b: Body, name: string): string {
    match b
    case SelfClosing => "/>"
    case Open(text, children, lastGap, closeGap) =>
      ">" + (ShowPieces(text) + (ShowChildren(children) + (ShowGap(lastGap) + ("</" + (name + (closeGap + ">"))))))
  }

  function ShowChildren(children: seq<Child>): string {
    if children == [] then "" else ShowGap(children[0].gap) + (Show(children[0].element) + ShowChildren(children[1..]))
  }

  function ShowProlog(prolog: seq<Instruction>): string {
    if prolog == [] then "" else "<?" + (prolog[0].text + ("?>" + (ShowGap(prolog[0].gap) + ShowProlog(prolog[1..]))))
  }

  function ShowCut(cut: Option<string>): string {
    match cut
    case None => ""
    case Some(text) => "<!--" + text
  }

  function ShowFile(f: File): string {
    f.lead + ((if f.bom then BOM else "") + (ShowProlog(f.prolog) + (Show(f.root) + (ShowGap(f.trail) + ShowCut(f.cut)))))
  }

  // ---------------------------------------------------------------- the tree of a document

  function AttributeMap(attrs: seq<Attribute>): map<string, string> {
    if attrs == [] then map[] else AttributeMap(attrs[1..])[attrs[0].key := TextOf(attrs[0].value)]
  }

  function Tree(d: Document): Xml {
    match d.body
    case SelfClosing => Node(d.name, "", AttributeMap(d.attrs), [])
    case Open(text, children, _, _) => Node(d.name, TextOf(text), AttributeMap(d.attrs), Trees(children))
  }

  function Trees(children: seq<Child>): seq<Xml> {
    if children == [] then [] else [Tree(children[0].element)] + Trees(children[1..])
  }

  // ---------------------------------------------------------------- documents the layout rules allow

  predicate IsName(s: string) {
    s != "" && forall c | c in s :: IsNameChar(c)
  }

  /** What comes behind an ampersand that begins an entity. */
  predicate StartsEntity(s: string) {
    "lt" <= s || "gt" <= s || "amp" <= s || "quot" <= s || "apos" <= s
  }

  /** An entity of one of the five characters; without a semicolon it has none behind it either. */
  predicate GoodEntity(c: char, closed: bool, behind: string) {
    Special(c) && (closed || !Starts(behind, ';'))
  }

  /** In a text an ampersand may stand for itself when it begins no entity. */
  predicate GoodText(pieces: seq<Piece>) {
    pieces == []
    || (GoodText(pieces[1..])
        && match pieces[0]
           case Itself(c) => c != '<' && (c == '&' ==> !StartsEntity(ShowPieces(pieces[1..])))
           case Entity(c, closed) => GoodEntity(c, closed, ShowPieces(pieces[1..])))
  }

  /** In an attribute value it may not, and neither may the closing quote. */
  predicate GoodValue(pieces: seq<Piece>, quote: char) {
    pieces == []
    || (GoodValue(pieces[1..], quote)
        && match pieces[0]
           case Itself(c) => c != quote && c != '&'
           case Entity(c, closed) => GoodEntity(c, closed, ShowPieces(pieces[1..])))
  }

  /** The first attribute stands apart from the name of its element. */
  predicate GoodAttribute(a: Attribute) {
    && Blank(a.gap) && IsName(a.key) && Blank(a.beforeEq) && Blank(a.afterEq)
    && (a.quote == '"' || a.quote == '\'') && GoodValue(a.value, a.quote)
  }

  predicate GoodAttributes(attrs: seq<Attribute>) {
    (attrs != [] ==> attrs[0].gap != "") && forall i | 0 <= i < |attrs| :: GoodAttribute(attrs[i])
  }

  predicate Without(text: string, end: string) {
    forall i | 0 <= i < |text| :: !(end <= text[i..])
  }

  /** No end of a comment inside it. */
  predicate GoodComment(text: string) {
    Without(text, "-->")
  }

  predicate GoodPart(part: GapPart) {
    match part
    case Space(blank) => Blank(blank)
    case Comment(text) => GoodComment(text)
  }

  predicate GoodGap(gap: Gap) {
    forall i | 0 <= i < |gap| :: GoodPart(gap[i])
  }

  /** White space right behind the text of an element would belong to the text. */
  predicate Cuts(gap: Gap) {
    gap == [] || gap[0].Comment?
  }

  predicate Good(d: Document) {
    && IsName(d.name) && GoodAttributes(d.attrs) && Blank(d.tagGap)
    && match d.body
       case SelfClosing => true
       case Open(text, children, lastGap, closeGap) =>
         && GoodText(text)
         && GoodChildren(children) && GoodGap(lastGap) && Blank(closeGap)
         && Cuts(if children == [] then lastGap else children[0].gap)
  }

  predicate GoodChildren(children: seq<Child>) {
    children == [] || (GoodGap(children[0].gap) && Good(children[0].element) && GoodChildren(children[1..]))
  }

  predicate GoodInstruction(n: Instruction) {
    GoodGap(n.gap) && Without(n.text, "?>")
  }

  /** A comment that the file ends in must end in two characters of white space, or be white space if it is shorter. */
  predicate GoodCut(text: string) {
    GoodComment(text) && Blank(if |text| < 2 then text else text[|text| - 2..])
  }

  predicate GoodFile(f: File) {
    && Blank(f.lead) && (forall i | 0 <= i < |f.prolog| :: GoodInstruction(f.prolog[i])) && Good(f.root)
    && GoodGap(f.trail) && (f.cut.Some? ==> GoodCut(f.cut.value))
  }

  // ---------------------------------------------------------------- names, entities and text

  /** The text cannot go on with a name character. */
  predicate EndsName(s: string) {
    s == "" || !IsNameChar(s[0])
  }

  lemma {:induction false} NameReadsBack(name: string, tail: string)
    requires (forall c | c in name :: IsNameChar(c)) && EndsName(tail)
    ensures NameChars(name + tail) == Ok(name, tail)
  {
    if name == "" {
      assert name + tail == tail;
    } else {
      assert name[0] in name && forall c | c in name[1..] :: c in name;
      NameReadsBack(name[1..], tail);
      assert (name + tail)[1..] == name[1..] + tail;
      assert [name[0]] + name[1..] == name;
    }
  }

  lemma EntityIsRead(c: char, rest: string)
    requires Special(c) && rest != ""
    ensures ParseEntity(EntityName(c) + rest) == Ok(c, SkipSemicolon(rest))
  {
    var name := EntityName(c);
    var s := name + rest;
    assert s[..|name|] == name && s[|name|..] == rest;
    assert s[1] == name[1] && s[2] == name[2];
  }

  lemma EntityReadsBack(c: char, closed: bool, tail: string)
    requires GoodEntity(c, closed, tail) && tail != ""
    ensures ParseEntity(ShowPiece(Entity(c, closed)) + tail) == Ok(c, tail)
  {
    var end := if closed then ";" else "";
    EntityIsRead(c, end + tail);
    Associate(EntityName(c), end, tail);
    assert closed ==> (end + tail)[1..] == tail;
    assert !closed ==> end + tail == tail;
  }

  /** A word without the bracket is not completed by what comes from the bracket on. */
  lemma WordStopsAtBracket(word: string, s: string, tail: string)
    requires '<' !in word && Starts(tail, '<')
    ensures word <= s + tail <==> word <= s
  {
    if |word| <= |s| {
      assert (s + tail)[..|word|] == s[..|word|];
    } else {
      assert (s + tail)[|s|] == '<' && word[|s|] in word;
    }
  }

  lemma EntityStopsAtBracket(s: string, tail: string)
    requires Starts(tail, '<')
    ensures StartsEntity(s + tail) <==> StartsEntity(s)
  {
    WordStopsAtBracket("lt", s, tail);
    WordStopsAtBracket("gt", s, tail);
    WordStopsAtBracket("amp", s, tail);
    WordStopsAtBracket("quot", s, tail);
    WordStopsAtBracket("apos", s, tail);
  }

  /** A name of an entity begins what an ampersand stands before exactly when its word begins what comes behind. */
  lemma EntityBegins(name: string, word: string, tail: string)
    requires name == "&" + word
    ensures name <= "&" + tail <==> word <= tail
  {
    assert ("&" + tail)[1..] == tail && name[1..] == word;
    if word <= tail {
      assert tail == word + tail[|word|..];
      Associate("&", word, tail[|word|..]);
    }
  }

  lemma EntityNames(tail: string)
    ensures "&lt" <= "&" + tail <==> "lt" <= tail
    ensures "&gt" <= "&" + tail <==> "gt" <= tail
    ensures "&amp" <= "&" + tail <==> "amp" <= tail
    ensures "&quot" <= "&" + tail <==> "quot" <= tail
    ensures "&apos" <= "&" + tail <==> "apos" <= tail
  {
    EntityBegins("&lt", "lt", tail);
    EntityBegins("&gt", "gt", tail);
    EntityBegins("&amp", "amp", tail);
    EntityBegins("&quot", "quot", tail);
    EntityBegins("&apos", "apos", tail);
  }

  /** An ampersand that begins no entity is none. */
  lemma NoEntity(tail: string)
    requires !StartsEntity(tail)
    ensures ParseEntity("&" + tail).Bad?
  {
    EntityNames(tail);
  }

  lemma SemicolonStays(s: string, tail: string, c: char)
    requires Starts(tail, c) && c != ';'
    ensures s + tail != "" && (Starts(s + tail, ';') <==> Starts(s, ';'))
  {
    assert s != "" ==> (s + tail)[0] == s[0];
    assert s == "" ==> s + tail == tail;
  }

  /** How one printed character of text is read. */
  lemma TextPieceReadsBack(p: Piece, rest: seq<Piece>, tail: string)
    requires GoodText([p] + rest) && Starts(tail, '<')
    ensures ParseText(ShowPiece(p) + (ShowPieces(rest) + tail)) == Cons(p.c, ParseText(ShowPieces(rest) + tail))
  {
    assert ([p] + rest)[1..] == rest;
    var behind := ShowPieces(rest) + tail;
    var s := ShowPiece(p) + behind;
    match p
    case Itself(c) =>
      assert s[1..] == behind;
      if c == '&' {
        EntityStopsAtBracket(ShowPieces(rest), tail);
        NoEntity(behind);
      }
    case Entity(c, closed) =>
      SemicolonStays(ShowPieces(rest), tail, '<');
      EntityReadsBack(c, closed, behind);
  }

  lemma {:induction false} TextReadsBack(pieces: seq<Piece>, tail: string)
    requires GoodText(pieces) && Starts(tail, '<')
    ensures ParseText(ShowPieces(pieces) + tail) == Ok(TextOf(pieces), tail)
  {
    if pieces == [] {
      assert ShowPieces(pieces) + tail == tail;
    } else {
      TextReadsBack(pieces[1..], tail);
      Associate(ShowPiece(pieces[0]), ShowPieces(pieces[1..]), tail);
      assert [pieces[0]] + pieces[1..] == pieces;
      TextPieceReadsBack(pieces[0], pieces[1..], tail);
    }
  }

  lemma ValuePieceReadsBack(p: Piece, rest: seq<Piece>, quote: char, tail: string)
    requires GoodValue([p] + rest, quote) && (quote == '"' || quote == '\'') && Starts(tail, quote)
    ensures ParseQuoted(ShowPiece(p) + (ShowPieces(rest) + tail), quote) == Cons(p.c, ParseQuoted(ShowPieces(rest) + tail, quote))
  {
    assert ([p] + rest)[1..] == rest;
    var behind := ShowPieces(rest) + tail;
    var s := ShowPiece(p) + behind;
    match p
    case Itself(c) => assert s[1..] == behind;
    case Entity(c, closed) =>
      SemicolonStays(ShowPieces(rest), tail, quote);
      EntityReadsBack(c, closed, behind);
  }

  lemma {:induction false} ValueReadsBack(pieces: seq<Piece>, quote: char, tail: string)
    requires GoodValue(pieces, quote) && (quote == '"' || quote == '\'')
    ensures ParseQuoted(ShowPieces(pieces) + ([quote] + tail), quote) == Ok(TextOf(pieces), tail)
  {
    var rest := [quote] + tail;
    if pieces == [] {
      assert ShowPieces(pieces) + rest == rest;
      assert rest[1..] == tail;
    } else {
      ValueReadsBack(pieces[1..], quote, tail);
      Associate(ShowPiece(pieces[0]), ShowPieces(pieces[1..]), rest);
      assert [pieces[0]] + pieces[1..] == pieces;
      ValuePieceReadsBack(pieces[0], pieces[1..], quote, rest);
    }
  }

  // ---------------------------------------------------------------- attributes

  lemma BlankThen(b: string, s: string)
    requires Blank(b) && (s == "" || !IsSpace(s[0]))
    ensures SkipSpace(b + s) == s
  {
    SkipBlank(b, s);
  }

  lemma BlankEndsName(b: string, s: string)
    requires Blank(b) && EndsName(s)
    ensures EndsName(b + s)
  {
    assert b != "" ==> (b + s)[0] == b[0] && b[0] in b;
    assert b == "" ==> b + s == s;
  }

  /** The printed attribute, regrouped in the order it is read. */
  lemma AttributeParts(a: Attribute, tail: string)
    ensures ShowAttribute(a) + tail
         == a.gap + (a.key + (a.beforeEq + ("=" + (a.afterEq + ([a.quote] + (ShowPieces(a.value) + ([a.quote] + tail)))))))
  {
  }

  lemma AttributeReadsBack(a: Attribute, tail: string)
    requires GoodAttribute(a)
    ensures var s := SkipSpace(ShowAttribute(a) + tail);
            && s != "" && IsNameChar(s[0]) && ParseAttribute(s) == Ok((a.key, TextOf(a.value)), tail)
  {
    var value := ShowPieces(a.value) + ([a.quote] + tail);
    var quoted := [a.quote] + value;
    var equals := "=" + (a.afterEq + quoted);
    var s := a.key + (a.beforeEq + equals);
    AttributeParts(a, tail);
    assert a.key[0] in a.key && s[0] == a.key[0];
    BlankThen(a.gap, s);
    BlankEndsName(a.beforeEq, equals);
    NameReadsBack(a.key, a.beforeEq + equals);
    BlankThen(a.beforeEq, equals);
    assert equals[1..] == a.afterEq + quoted;
    BlankThen(a.afterEq, quoted);
    assert quoted[1..] == value;
    ValueReadsBack(a.value, a.quote, tail);
  }

  predicate ClosesTag(s: string) {
    Starts(s, '/') || Starts(s, '>')
  }

  lemma {:induction false} AttributesReadBack(attrs: seq<Attribute>, gap: string, tail: string)
    requires (forall i | 0 <= i < |attrs| :: GoodAttribute(attrs[i])) && Blank(gap) && ClosesTag(tail)
    ensures ParseAttributes(ShowAttributes(attrs) + (gap + tail)) == Ok(AttributeMap(attrs), tail)
  {
    if attrs == [] {
      assert ShowAttributes(attrs) + (gap + tail) == gap + tail;
      BlankThen(gap, tail);
    } else {
      var more := ShowAttributes(attrs[1..]) + (gap + tail);
      AttributesReadBack(attrs[1..], gap, tail);
      Associate(ShowAttribute(attrs[0]), ShowAttributes(attrs[1..]), gap + tail);
      AttributeReadsBack(attrs[0], more);
    }
  }

  // ---------------------------------------------------------------- gaps

  lemma {:induction false} CommentEnds(text: string, tail: string)
    requires GoodComment(text)
    ensures AfterComment(text + ("-->" + tail)) == tail
  {
    var s := text + ("-->" + tail);
    if text == "" {
      assert s == "-->" + tail && s[3..] == tail;
    } else {
      assert !("-->" <= s) by {
        assert !("-->" <= text[0..]) && text[0..] == text;
        assert |text| < 3 ==> s[2] == "-->"[2 - |text|];
      }
      assert forall i | 0 <= i < |text[1..]| :: text[1..][i..] == text[i + 1..];
      CommentEnds(text[1..], tail);
      assert s[1..] == text[1..] + ("-->" + tail);
    }
  }

  /** What a gap is followed by: a tag, an instruction or the end, and no white space or declaration. */
  predicate AfterGap(s: string) {
    (s == "" || !IsSpace(s[0])) && !("<!" <= s)
  }

  lemma PartIsSkipped(part: GapPart, tail: string)
    requires GoodPart(part)
    ensures SkipGap(ShowPart(part) + tail) == SkipGap(tail)
  {
    match part
    case Space(blank) => SkipBlank(blank, tail);
    case Comment(text) =>
      var s := "<!--" + (text + ("-->" + tail));
      assert ShowPart(part) + tail == s;
      assert SkipSpace(s) == s && s[4..] == text + ("-->" + tail);
      CommentEnds(text, tail);
  }

  lemma {:induction false} PartsAreSkipped(gap: Gap, tail: string)
    requires GoodGap(gap)
    ensures SkipGap(ShowGap(gap) + tail) == SkipGap(tail)
  {
    if gap == [] {
      assert ShowGap(gap) + tail == tail;
    } else {
      PartsAreSkipped(gap[1..], tail);
      Associate(ShowPart(gap[0]), ShowGap(gap[1..]), tail);
      PartIsSkipped(gap[0], ShowGap(gap[1..]) + tail);
    }
  }

  lemma GapIsSkipped(gap: Gap, tail: string)
    requires GoodGap(gap) && AfterGap(tail)
    ensures SkipGap(ShowGap(gap) + tail) == tail
  {
    PartsAreSkipped(gap, tail);
    assert SkipSpace(tail) == tail;
  }

  /** All but the last two characters of a comment without an end are passed over. */
  lemma {:induction false} CutComment(text: string)
    requires GoodComment(text)
    ensures AfterComment(text) == if |text| < 3 then text else text[|text| - 2..]
  {
    if |text| >= 3 {
      assert text[0..] == text;
      assert forall i | 0 <= i < |text[1..]| :: text[1..][i..] == text[i + 1..];
      CutComment(text[1..]);
    }
  }

  lemma CutIsSkipped(text: string)
    requires GoodCut(text)
    ensures SkipGap("<!--" + text) == ""
  {
    var s := "<!--" + text;
    var left := if |text| < 2 then text else text[|text| - 2..];
    assert s[4..] == text;
    CutComment(text);
    SkipBlank(left, "");
    assert left + "" == left;
  }

  // ---------------------------------------------------------------- elements

  /** The printed opening tag, regrouped in the order it is read. */
  lemma ElementParts(d: Document, tail: string)
    ensures Show(d) + tail == "<" + (d.name + (ShowAttributes(d.attrs) + (d.tagGap + (ShowBody(d.body, d.name) + tail))))
  {
  }

  lemma OpenParts(text: seq<Piece>, children: seq<Child>, lastGap: Gap, closeGap: string, name: string, tail: string)
    ensures ShowBody(Open(text, children, lastGap, closeGap), name) + tail
         == ">" + (ShowPieces(text) + (ShowChildren(children) + (ShowGap(lastGap) + ("</" + (name + (closeGap + (">" + tail)))))))
  {
  }

  lemma AttributesEndName(attrs: seq<Attribute>, gap: string, tail: string)
    requires GoodAttributes(attrs) && Blank(gap) && ClosesTag(tail)
    ensures EndsName(ShowAttributes(attrs) + (gap + tail))
  {
    if attrs == [] {
      assert ShowAttributes(attrs) + (gap + tail) == gap + tail;
      BlankEndsName(gap, tail);
    } else {
      var first := attrs[0].gap;
      assert (ShowAttributes(attrs) + (gap + tail))[0] == first[0] && first[0] in first;
    }
  }

  /** An element reads back once its body does. */
  lemma TagReadsBack(d: Document, tail: string)
    requires Good(d) && ClosesTag(ShowBody(d.body, d.name))
    ensures ParseElement(Show(d) + tail) == ParseBody(ShowBody(d.body, d.name) + tail, d.name, AttributeMap(d.attrs))
  {
    var body := ShowBody(d.body, d.name) + tail;
    var attrs := ShowAttributes(d.attrs) + (d.tagGap + body);
    var inner := d.name + attrs;
    ElementParts(d, tail);
    assert ("<" + inner)[1..] == inner;
    assert d.name[0] in d.name && inner[0] == d.name[0];
    AttributesEndName(d.attrs, d.tagGap, body);
    NameReadsBack(d.name, attrs);
    AttributesReadBack(d.attrs, d.tagGap, body);
  }

  lemma ClosingReadsBack(name: string, closeGap: string, tail: string)
    requires IsName(name) && Blank(closeGap)
    ensures ParseClosing(name + (closeGap + (">" + tail)), name) == Ok([], tail)
  {
    BlankEndsName(closeGap, ">" + tail);
    NameReadsBack(name, closeGap + (">" + tail));
    BlankThen(closeGap, ">" + tail);
    assert (">" + tail)[1..] == tail;
  }

  /** The closing tag behind the last child. */
  lemma LastGapReadsBack(lastGap: Gap, name: string, closeGap: string, tail: string)
    requires GoodGap(lastGap) && IsName(name) && Blank(closeGap)
    ensures ParseChildren(ShowGap(lastGap) + ("</" + (name + (closeGap + (">" + tail)))), name) == Ok([], tail)
  {
    var rest := name + (closeGap + (">" + tail));
    var t := "</" + rest;
    assert t[1] == '/';
    GapIsSkipped(lastGap, t);
    assert t[1..] == "/" + rest && t[2..] == rest;
    ClosingReadsBack(name, closeGap, tail);
  }

  lemma ShowStarts(d: Document, tail: string)
    requires Good(d)
    ensures var s := Show(d) + tail; |s| > 1 && s[0] == '<' && IsNameChar(s[1]) && AfterGap(s)
  {
    ElementParts(d, tail);
    assert d.name[0] in d.name;
    assert (Show(d) + tail)[1] == d.name[0];
  }

  lemma {:induction false} ElementReadsBack(d: Document, tail: string)
    requires Good(d)
    ensures ParseElement(Show(d) + tail) == Ok(Tree(d), tail)
    decreases d, 1
  {
    TagReadsBack(d, tail);
    BodyReadsBack(d, tail);
  }

  lemma {:induction false} BodyReadsBack(d: Document, tail: string)
    requires Good(d)
    ensures ParseBody(ShowBody(d.body, d.name) + tail, d.name, AttributeMap(d.attrs)) == Ok(Tree(d), tail)
    decreases d, 0
  {
    var s := ShowBody(d.body, d.name) + tail;
    assert SkipSpace(s) == s;
    match d.body
    case SelfClosing =>
      assert s[1..] == ">" + tail && s[2..] == tail;
    case Open(text, children, lastGap, closeGap) =>
      var close := ShowGap(lastGap) + ("</" + (d.name + (closeGap + (">" + tail))));
      var inside := ShowChildren(children) + close;
      OpenParts(text, children, lastGap, closeGap, d.name, tail);
      assert s[1..] == ShowPieces(text) + inside;
      InsideStartsTag(children, lastGap, d.name + (closeGap + (">" + tail)));
      TextReadsBack(text, inside);
      ChildrenReadBack(children, lastGap, d.name, closeGap, tail);
  }

  /** Right behind the text comes a tag or a comment. */
  lemma InsideStartsTag(children: seq<Child>, lastGap: Gap, rest: string)
    requires Cuts(if children == [] then lastGap else children[0].gap)
    ensures Starts(ShowChildren(children) + (ShowGap(lastGap) + ("</" + rest)), '<')
  {
    if children != [] {
      ElementParts(children[0].element, "");
    }
  }

  lemma {:induction false} ChildrenReadBack(children: seq<Child>, lastGap: Gap, name: string, closeGap: string, tail: string)
    requires GoodChildren(children) && GoodGap(lastGap) && IsName(name) && Blank(closeGap)
    ensures var close := ShowGap(lastGap) + ("</" + (name + (closeGap + (">" + tail))));
            ParseChildren(ShowChildren(children) + close, name) == Ok(Trees(children), tail)
    decreases children, 0
  {
    var close := ShowGap(lastGap) + ("</" + (name + (closeGap + (">" + tail))));
    if children == [] {
      assert ShowChildren(children) + close == close;
      LastGapReadsBack(lastGap, name, closeGap, tail);
    } else {
      var first, more := children[0].element, ShowChildren(children[1..]) + close;
      ChildrenReadBack(children[1..], lastGap, name, closeGap, tail);
      ElementReadsBack(first, more);
      ChildParts(children, close);
      ShowStarts(first, more);
      GapIsSkipped(children[0].gap, Show(first) + more);
    }
  }

  lemma ChildParts(children: seq<Child>, close: string)
    requires children != []
    ensures ShowChildren(children) + close
         == ShowGap(children[0].gap) + (Show(children[0].element) + (ShowChildren(children[1..]) + close))
  {
    var shown := Show(children[0].element) + ShowChildren(children[1..]);
    Associate(ShowGap(children[0].gap), shown, close);
    Associate(Show(children[0].element), ShowChildren(children[1..]), close);
  }

  // ---------------------------------------------------------------- files

  lemma {:induction false} InstructionEnds(text: string, tail: string)
    requires Without(text, "?>")
    ensures AfterInstruction(text + ("?>" + tail)) == tail
  {
    var s := text + ("?>" + tail);
    if text == "" {
      assert s == "?>" + tail && s[2..] == tail;
    } else {
      assert !("?>" <= s) by {
        assert !("?>" <= text[0..]) && text[0..] == text;
        assert |text| == 1 ==> s[1] == '?';
      }
      assert forall i | 0 <= i < |text[1..]| :: text[1..][i..] == text[i + 1..];
      InstructionEnds(text[1..], tail);
      assert s[1..] == text[1..] + ("?>" + tail);
    }
  }

  lemma {:induction false} PrologIsSkipped(prolog: seq<Instruction>, tail: string)
    requires (forall i | 0 <= i < |prolog| :: GoodInstruction(prolog[i])) && AfterGap(tail) && !("<?" <= tail)
    ensures SkipProlog(ShowProlog(prolog) + tail) == tail
  {
    if prolog == [] {
      assert ShowProlog(prolog) + tail == tail;
    } else {
      var more := ShowProlog(prolog[1..]) + tail;
      var gap := ShowGap(prolog[0].gap) + more;
      var text := prolog[0].text + ("?>" + gap);
      var s := "<?" + text;
      PrologIsSkipped(prolog[1..], tail);
      PrologParts(prolog, tail);
      assert s[2..] == text && "<?" <= s;
      InstructionEnds(prolog[0].text, gap);
      assert AfterGap(more) by {
        assert prolog[1..] == [] ==> more == tail;
        assert prolog[1..] != [] ==> more[0] == '<' && more[1] == '?';
      }
      GapIsSkipped(prolog[0].gap, more);
    }
  }

  lemma PrologParts(prolog: seq<Instruction>, tail: string)
    requires prolog != []
    ensures ShowProlog(prolog) + tail
         == "<?" + (prolog[0].text + ("?>" + (ShowGap(prolog[0].gap) + (ShowProlog(prolog[1..]) + tail))))
  {
  }

  lemma TrailIsSkipped(trail: Gap, cut: Option<string>)
    requires GoodGap(trail) && (cut.Some? ==> GoodCut(cut.value))
    ensures SkipGap(ShowGap(trail) + ShowCut(cut)) == ""
  {
    PartsAreSkipped(trail, ShowCut(cut));
    if cut.Some? {
      CutIsSkipped(cut.value);
    }
  }

  /** Reading a printed file gives the tree of its root element, whatever its layout. */
  lemma FileReadsBack(f: File)
    requires GoodFile(f)
    ensures ParseRoot(ShowFile(f)) == Success(Tree(f.root))
  {
    var trail := ShowGap(f.trail) + ShowCut(f.cut);
    var root := Show(f.root) + trail;
    var prolog := ShowProlog(f.prolog) + root;
    ShowStarts(f.root, trail);
    var marked := (if f.bom then BOM else "") + prolog;
    assert marked[0] == if f.bom then BOM[0] else '<';
    BlankThen(f.lead, marked);
    assert SkipBom(marked) == prolog by {
      assert f.bom ==> marked[3..] == prolog;
      assert !f.bom ==> marked == prolog && prolog[0] == '<';
    }
    PrologIsSkipped(f.prolog, root);
    ElementReadsBack(f.root, trail);
    TrailIsSkipped(f.trail, f.cut);
  }

  // ---------------------------------------------------------------- every tree has a document

  predicate Legal(x: Xml) {
    IsName(x.name) && (forall key | key in x.attrs :: IsName(key)) && LegalAll(x.children)
  }

  predicate LegalAll(xs: seq<Xml>) {
    xs == [] || (Legal(xs[0]) && LegalAll(xs[1..]))
  }

  /** Special characters as entities, the others as themselves. */
  lemma {:induction false} PiecesFor(s: string) returns (pieces: seq<Piece>)
    ensures GoodText(pieces) && GoodValue(pieces, '"') && TextOf(pieces) == s
  {
    if s == "" {
      pieces := [];
    } else {
      var more := PiecesFor(s[1..]);
      pieces := [if Special(s[0]) then Entity(s[0], true) else Itself(s[0])] + more;
      assert pieces[1..] == more;
    }
  }

  lemma {:induction false} AttributesFor(m: map<string, string>) returns (attrs: seq<Attribute>)
    requires forall key | key in m :: IsName(key)
    ensures GoodAttributes(attrs) && AttributeMap(attrs) == m
    decreases |m|
  {
    if m == map[] {
      attrs := [];
    } else {
      var key :| key in m;
      var rest := map k | k in m && k != key :: m[k];
      assert rest.Keys == m.Keys - {key};
      assert |rest| == |rest.Keys| && |m| == |m.Keys|;
      var more := AttributesFor(rest);
      var value := PiecesFor(m[key]);
      var first := Attribute(" ", key, "", "", '"', value);
      attrs := [first] + more;
      assert AttributeMap(attrs) == rest[key := m[key]] == m;
    }
  }

  /** Every tree over legal names is the tree of some printable document, so the reader can produce it. */
  lemma {:induction false} TreeHasDocument(x: Xml) returns (d: Document)
    requires Legal(x)
    ensures Good(d) && Tree(d) == x
    decreases x, 0
  {
    var attrs := AttributesFor(x.attrs);
    var children := TreesHaveDocuments(x.children);
    var text := PiecesFor(x.text);
    d := Document(x.name, attrs, "", Open(text, children, [], ""));
  }

  lemma {:induction false} TreesHaveDocuments(xs: seq<Xml>) returns (children: seq<Child>)
    requires LegalAll(xs)
    ensures GoodChildren(children) && Trees(children) == xs && (children != [] ==> children[0].gap == [])
    decreases xs, 0
  {
    if xs == [] {
      children := [];
    } else {
      var d := TreeHasDocument(xs[0]);
      var more := TreesHaveDocuments(xs[1..]);
      children := [Child([], d)] + more;
    }
  }
}
