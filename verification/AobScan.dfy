/**
  Byte-pattern scanning: the textual patterns parse_aob accepts, and scan_aob's overlapping chunks, which
  find exactly what testing every address finds.
*/
module AobScan {
  import opened Common
  import opened ByteMemory

  const MAX_PATTERN: nat := 4096
  const MAX_RANGE: nat := 0x100_0000
  const CHUNK: nat := 0x1_0000

  /** A byte to match, or -1 for a wildcard. */
  type PatternByte = p: int | -1 <= p < 256

  // ---------------------------------------------------------------- pattern text

  /** What one word of a pattern stands for. */
  function Meaning(word: string): Option<PatternByte> {
    if word == "?" || word == "??" then Some(-1)
    else if |word| == 2 && Nibble(word[0]) >= 0 && Nibble(word[1]) >= 0 then Some(Nibble(word[0]) * 16 + Nibble(word[1]))
    else None
  }

  /** The length of the run of characters before the next space. */
  function WordLength(s: string): (n: nat)
    ensures n <= |s|
    ensures forall i | 0 <= i < n :: s[i] != ' '
    ensures n < |s| ==> s[n] == ' '
  {
    if s == "" || s[0] == ' ' then 0 else 1 + WordLength(s[1..])
  }

  /** The words of a text: its maximal runs without spaces. */
  function Words(s: string): seq<string>
    decreases |s|
  {
    if s == "" then []
    else if s[0] == ' ' then Words(s[1..])
    else [s[..WordLength(s)]] + Words(s[WordLength(s)..])
  }

  /** The pattern some words stand for, when each of them stands for something. */
  function Meanings(words: seq<string>): (r: Option<seq<PatternByte>>)
    ensures r.Some? <==> forall i | 0 <= i < |words| :: Meaning(words[i]).Some?
    ensures r.Some? ==> |r.value| == |words| && forall i | 0 <= i < |words| :: Meaning(words[i]) == Some(r.value[i])
  {
    if words == [] then Some([])
    else
      var first, more := Meaning(words[0]), Meanings(words[1..]);
      if first.None? || more.None? then None else Some([first.value] + more.value)
  }

  /** A pattern is 1 to 4096 words that all stand for something. */
  function Pattern(text: string): Option<seq<PatternByte>> {
    var words := Words(text);
    if 1 <= |words| <= MAX_PATTERN then Meanings(words) else None
  }

  function Ahead(pattern: seq<PatternByte>, r: Option<seq<PatternByte>>): Option<seq<PatternByte>> {
    if r.None? then None else Some(pattern + r.value)
  }

  lemma AheadSnoc(pattern: seq<PatternByte>, word: string, words: seq<string>)
    ensures Meaning(word).None? ==> Ahead(pattern, Meanings([word] + words)).None?
    ensures Meaning(word).Some? ==>
              Ahead(pattern, Meanings([word] + words)) == Ahead(pattern + [Meaning(word).value], Meanings(words))
  {
    assert ([word] + words)[0] == word && ([word] + words)[1..] == words;
    if Meaning(word).Some? && Meanings(words).Some? {
      Associate(pattern, [Meaning(word).value], Meanings(words).value);
    }
  }

  /** One step of the tokenizer: the word that starts at i. */
  lemma WordAt(text: string, i: nat, end: nat)
    requires i < end <= |text| && forall j | i <= j < end :: text[j] != ' '
    requires end == |text| || text[end] == ' '
    ensures Words(text[i..]) == [text[i..end]] + Words(text[end..])
  {
    var s := text[i..];
    var n := WordLength(s);
    assert forall j | 0 <= j < end - i :: s[j] == text[i + j];
    assert end < |text| ==> s[end - i] == text[end];
    assert s[..n] == text[i..end] && s[n..] == text[end..];
  }

  method ParseAob(text: string) returns (r: Option<seq<PatternByte>>)
    ensures r == Pattern(text)
  {
    var pattern: seq<PatternByte> := [];
    var i := 0;
    assert text[0..] == text;
    assert Meanings(Words(text)).Some? ==> [] + Meanings(Words(text)).value == Meanings(Words(text)).value;
    while i < |text|
      invariant i <= |text| && |pattern| <= MAX_PATTERN
      invariant |Words(text)| == |pattern| + |Words(text[i..])|
      invariant Meanings(Words(text)) == Ahead(pattern, Meanings(Words(text[i..])))
      decreases |text| - i
    {
      i := SkipSpaces(text, i);
      if i == |text| {
        break;
      }
      var end, value := ReadWord(text, i);
      if value.None? {
        return None;
      }
      WordAt(text, i, end);
      AheadSnoc(pattern, text[i..end], Words(text[end..]));
      i := end;
      pattern := pattern + [value.value];
      if |pattern| > MAX_PATTERN {
        return None;
      }
    }
    assert text[|text|..] == "";
    assert pattern + [] == pattern;
    return if pattern == [] then None else Some(pattern);
  }

  method SkipSpaces(text: string, from: nat) returns (i: nat)
    requires from <= |text|
    ensures from <= i <= |text| && Words(text[i..]) == Words(text[from..])
    ensures i < |text| ==> text[i] != ' '
  {
    i := from;
    while i < |text| && text[i] == ' '
      invariant from <= i <= |text| && Words(text[i..]) == Words(text[from..])
    {
      assert text[i..][1..] == text[i + 1..];
      i := i + 1;
    }
  }

  /** From end on the word is over. */
  predicate WordEnds(text: string, from: nat, end: nat) {
    && from < end <= |text| && (end == |text| || text[end] == ' ')
    && forall j | from <= j < end :: text[j] != ' '
  }

  lemma WordIsThere(text: string, from: nat) returns (end: nat)
    requires from < |text| && text[from] != ' '
    ensures WordEnds(text, from, end)
    ensures Meaning(text[from..end]).None? ==> Meanings(Words(text[from..])).None?
  {
    end := from + WordLength(text[from..]);
    assert forall j | from <= j < end :: text[j] == text[from..][j - from];
    assert end < |text| ==> text[end] == text[from..][end - from];
    WordAt(text, from, end);
    if Meaning(text[from..end]).None? {
      assert Words(text[from..])[0] == text[from..end];
    }
  }

  /** A word that begins with a question mark. */
  method ReadWildcard(text: string, from: nat, ghost end: nat) returns (i: nat, value: Option<PatternByte>)
    requires WordEnds(text, from, end) && text[from] == '?'
    ensures if value.Some? then i == end && Meaning(text[from..end]) == value else Meaning(text[from..end]).None?
  {
    ghost var word := text[from..end];
    i := from + 1;
    if i < |text| && text[i] == '?' {
      i := i + 1;
    }
    if i < |text| && text[i] != ' ' {
      assert |word| > i - from && word[0] == '?' && word[i - from] == text[i];
      return i, None;
    }
    assert i == end;
    return i, Some(-1);
  }

  /** Any other word must be two digits. */
  method ReadDigits(text: string, from: nat, ghost end: nat) returns (i: nat, value: Option<PatternByte>)
    requires WordEnds(text, from, end) && text[from] != '?'
    ensures if value.Some? then i == end && Meaning(text[from..end]) == value else Meaning(text[from..end]).None?
  {
    ghost var word := text[from..end];
    i := from;
    assert word[0] == text[from];
    if i + 1 >= |text| {
      assert |word| == 1;
      return i, None;
    }
    var a, b := Nibble(text[i]), Nibble(text[i + 1]);
    if a < 0 || b < 0 {
      assert |word| == 2 ==> word[1] == text[i + 1];
      return i, None;
    }
    i := i + 2;
    if i < |text| && text[i] != ' ' {
      assert |word| > 2;
      return i, None;
    }
    assert i == end;
    return i, Some(a * 16 + b);
  }

  /** The two branches of the tokenizer. A value comes with the end of its word; None refuses the text. */
  method ReadWord(text: string, from: nat) returns (i: nat, value: Option<PatternByte>)
    requires from < |text| && text[from] != ' '
    ensures value.Some? ==> from < i <= |text| && (forall j | from <= j < i :: text[j] != ' ')
                            && (i == |text| || text[i] == ' ') && Meaning(text[from..i]) == value
    ensures value.None? ==> Meanings(Words(text[from..])).None?
  {
    ghost var end := WordIsThere(text, from);
    if text[from] == '?' {
      i, value := ReadWildcard(text, from, end);
    } else {
      i, value := ReadDigits(text, from, end);
    }
  }

  // ---------------------------------------------------------------- layouts

  predicate Spaces(s: string) {
    forall c | c in s :: c == ' '
  }

  predicate IsWord(s: string) {
    s != "" && ' ' !in s
  }

  /** Words with gaps[i] in front of word i and trail behind the last. */
  function Layout(words: seq<string>, gaps: seq<string>, trail: string): string
    requires |gaps| == |words|
  {
    if words == [] then trail else gaps[0] + (words[0] + Layout(words[1..], gaps[1..], trail))
  }

  /** Gaps are spaces, and there is at least one space between two words. */
  predicate GoodGaps(gaps: seq<string>, trail: string) {
    Spaces(trail) && forall i | 0 <= i < |gaps| :: Spaces(gaps[i]) && (i > 0 ==> gaps[i] != "")
  }

  lemma {:induction false} WordsSkip(gap: string, s: string)
    requires Spaces(gap)
    ensures Words(gap + s) == Words(s)
  {
    if gap == "" {
      assert gap + s == s;
    } else {
      assert gap[0] in gap && forall c | c in gap[1..] :: c in gap;
      WordsSkip(gap[1..], s);
      assert (gap + s)[1..] == gap[1..] + s;
    }
  }

  /** Any layout of some words has just those words. */
  lemma {:induction false} WordsOfLayout(words: seq<string>, gaps: seq<string>, trail: string)
    requires |gaps| == |words| && GoodGaps(gaps, trail)
    requires forall w | w in words :: IsWord(w)
    ensures Words(Layout(words, gaps, trail)) == words
  {
    if words == [] {
      WordsSkip(trail, "");
      assert trail + "" == trail;
    } else {
      var more := Layout(words[1..], gaps[1..], trail);
      var text := words[0] + more;
      assert words[0] in words && forall w | w in words[1..] :: w in words;
      WordsOfLayout(words[1..], gaps[1..], trail);
      WordsSkip(gaps[0], text);
      LayoutStartsWithSpace(words[1..], gaps[1..], trail);
      assert text[0..] == text && text[0..|words[0]|] == words[0] && text[|words[0]|..] == more;
      assert forall j | 0 <= j < |words[0]| :: text[j] == words[0][j] && words[0][j] in words[0];
      assert more != "" ==> text[|words[0]|] == more[0];
      WordAt(text, 0, |words[0]|);
    }
  }

  lemma LayoutStartsWithSpace(words: seq<string>, gaps: seq<string>, trail: string)
    requires |gaps| == |words| && GoodGaps(gaps, trail) && (gaps != [] ==> gaps[0] != "")
    ensures var s := Layout(words, gaps, trail); s == "" || s[0] == ' '
  {
    if words == [] {
      assert trail != "" ==> trail[0] in trail;
    } else {
      assert gaps[0][0] in gaps[0];
    }
  }

  /** Every text is a layout of its words. */
  lemma {:induction false} TextIsLayout(text: string) returns (gaps: seq<string>, trail: string)
    ensures |gaps| == |Words(text)| && GoodGaps(gaps, trail)
    ensures Layout(Words(text), gaps, trail) == text
    ensures text != "" && text[0] == ' ' && gaps != [] ==> gaps[0] != ""
    decreases |text|
  {
    if text == "" {
      gaps, trail := [], "";
    } else if text[0] == ' ' {
      gaps, trail := TextIsLayout(text[1..]);
      if gaps == [] {
        trail := " " + trail;
      } else {
        WidenLayout(Words(text), gaps, trail);
        gaps := [" " + gaps[0]] + gaps[1..];
      }
    } else {
      var rest := text[WordLength(text)..];
      assert rest != "" ==> rest[0] == text[WordLength(text)];
      gaps, trail := TextIsLayout(rest);
      OpenLayout(text[..WordLength(text)], Words(rest), gaps, trail);
      gaps := [""] + gaps;
    }
  }

  lemma WidenLayout(words: seq<string>, gaps: seq<string>, trail: string)
    requires |gaps| == |words| > 0 && GoodGaps(gaps, trail)
    ensures GoodGaps([" " + gaps[0]] + gaps[1..], trail)
    ensures Layout(words, [" " + gaps[0]] + gaps[1..], trail) == " " + Layout(words, gaps, trail)
  {
    assert ([" " + gaps[0]] + gaps[1..])[1..] == gaps[1..];
    Associate(" ", gaps[0], words[0] + Layout(words[1..], gaps[1..], trail));
  }

  lemma OpenLayout(word: string, words: seq<string>, gaps: seq<string>, trail: string)
    requires |gaps| == |words| && GoodGaps(gaps, trail) && (gaps != [] ==> gaps[0] != "")
    ensures GoodGaps([""] + gaps, trail)
    ensures Layout([word] + words, [""] + gaps, trail) == word + Layout(words, gaps, trail)
  {
    assert ([word] + words)[1..] == words && ([""] + gaps)[1..] == gaps;
    assert "" + (word + Layout(words, gaps, trail)) == word + Layout(words, gaps, trail);
  }

  // ---------------------------------------------------------------- patterns as text

  function HexDigit(n: nat): (c: char)
    requires n < 16
    ensures Nibble(c) == n
  {
    if n < 10 then ('0' as int + n) as char else ('A' as int + n - 10) as char
  }

  /** One way to write a pattern byte. */
  function WordFor(p: PatternByte): (r: string)
    ensures IsWord(r) && Meaning(r) == Some(p)
  {
    if p < 0 then "??" else [HexDigit(p / 16), HexDigit(p % 16)]
  }

  function WordsFor(pattern: seq<PatternByte>): (r: seq<string>)
    ensures |r| == |pattern|
    ensures forall i | 0 <= i < |r| :: IsWord(r[i]) && Meaning(r[i]) == Some(pattern[i])
  {
    if pattern == [] then [] else [WordFor(pattern[0])] + WordsFor(pattern[1..])
  }

  /** Writing out any pattern of 1 to 4096 bytes, spaced in any way, and parsing it gives the pattern back. */
  lemma RenderThenParse(pattern: seq<PatternByte>, gaps: seq<string>, trail: string)
    requires 1 <= |pattern| <= MAX_PATTERN && |gaps| == |pattern| && GoodGaps(gaps, trail)
    ensures Pattern(Layout(WordsFor(pattern), gaps, trail)) == Some(pattern)
  {
    WordsOfLayout(WordsFor(pattern), gaps, trail);
    var found := Meanings(WordsFor(pattern)).value;
    forall i | 0 <= i < |pattern| ensures found[i] == pattern[i] {
      assert Meaning(WordsFor(pattern)[i]) == Some(found[i]);
    }
    assert found == pattern;
  }

  /** The accepted texts are exactly the layouts of 1 to 4096 words that each stand for a pattern byte. */
  lemma AcceptedTexts(text: string)
    ensures Pattern(text).Some? <==>
            exists words: seq<string>, gaps: seq<string>, trail: string ::
              IsPatternText(text, words, gaps, trail)
  {
    if Pattern(text).Some? {
      var gaps, trail := TextIsLayout(text);
      assert IsPatternText(text, Words(text), gaps, trail);
    }
    forall words: seq<string>, gaps: seq<string>, trail: string | IsPatternText(text, words, gaps, trail)
      ensures Pattern(text).Some?
    {
      forall w | w in words ensures IsWord(w) {
        MeaningfulIsWord(w);
      }
      WordsOfLayout(words, gaps, trail);
    }
  }

  predicate IsPatternText(text: string, words: seq<string>, gaps: seq<string>, trail: string) {
    && 1 <= |words| <= MAX_PATTERN && |gaps| == |words| && GoodGaps(gaps, trail)
    && (forall w | w in words :: Meaning(w).Some?)
    && text == Layout(words, gaps, trail)
  }

  lemma MeaningfulIsWord(w: string)
    requires Meaning(w).Some?
    ensures IsWord(w)
  {
    assert |w| == 2 ==> w == [w[0], w[1]];
  }

  // ---------------------------------------------------------------- the naive search

  predicate Matches(mem: Memory, a: int, pattern: seq<PatternByte>) {
    && 0 <= a < ADDRESS_SPACE && a + |pattern| <= ADDRESS_SPACE
    && forall k | 0 <= k < |pattern| :: a + k in mem && (pattern[k] >= 0 ==> mem[a + k] == pattern[k])
  }

  /** All addresses from lo up to but not including hi where the pattern matches, tested one by one. */
  function Naive(mem: Memory, lo: int, hi: int, pattern: seq<PatternByte>): seq<Address>
    decreases hi - lo
  {
    if hi <= lo then []
    else Naive(mem, lo, hi - 1, pattern) + if Matches(mem, hi - 1, pattern) then [hi - 1] else []
  }

  lemma {:induction false} NaiveIsExact(mem: Memory, lo: int, hi: int, pattern: seq<PatternByte>)
    requires pattern != []
    ensures var found := Naive(mem, lo, hi, pattern);
            && (forall a :: a in found <==> lo <= a < hi && Matches(mem, a, pattern))
            && (forall i, j | 0 <= i < j < |found| :: found[i] < found[j])
    decreases hi - lo
  {
    if lo < hi {
      NaiveIsExact(mem, lo, hi - 1, pattern);
      var front := Naive(mem, lo, hi - 1, pattern);
      assert forall i | 0 <= i < |front| :: front[i] in front;
    }
  }

  lemma {:induction false} NaivePrefix(mem: Memory, lo: int, mid: int, hi: int, pattern: seq<PatternByte>)
    requires mid <= hi
    ensures Naive(mem, lo, mid, pattern) <= Naive(mem, lo, hi, pattern)
    decreases hi - mid
  {
    if mid < hi {
      NaivePrefix(mem, lo, mid, hi - 1, pattern);
    }
  }

  // ---------------------------------------------------------------- the chunked search

  predicate ValidRange(start: Address, length: nat, max: nat) {
    1 <= length <= MAX_RANGE && max > 0 && start <= MAX_ADDRESS - length
  }

  function ChunkSize(length: nat, offset: nat, width: nat): nat
    requires offset <= length && width > 0
  {
    if length - offset <= CHUNK + width - 1 then length - offset else CHUNK + width - 1
  }

  /** The chunk at offset is read: it does not follow the last one, and the earlier chunks hold too few matches. */
  predicate Reached(mem: Memory, start: Address, length: nat, pattern: seq<PatternByte>, max: nat, offset: nat) {
    && offset % CHUNK == 0 && (offset == 0 || offset + |pattern| <= length)
    && |Naive(mem, start, start + offset, pattern)| < max
  }

  /** Some chunk that is reached cannot be read. */
  predicate Blocked(mem: Memory, start: Address, length: nat, pattern: seq<PatternByte>, max: nat)
    requires pattern != []
  {
    exists offset: nat :: offset < length && Reached(mem, start, length, pattern, max, offset)
                          && !Mapped(mem, start + offset, ChunkSize(length, offset, |pattern|))
  }

  predicate InRange(start: Address, length: nat, read: (Address, nat)) {
    start <= read.0 && read.0 + read.1 <= start + length && ValidateRequest(read.0, read.1).Success?
  }

  predicate AllInRange(start: Address, length: nat, issued: seq<(Address, nat)>) {
    forall read | read in issued :: InRange(start, length, read)
  }

  class Scanner {
    const backend: ByteMapBackend

    constructor (backend: ByteMapBackend)
      ensures this.backend == backend
    {
      this.backend := backend;
    }

    /** The comparison loop at one position of a chunk. */
    method MatchesAt(bytes: seq<Byte>, i: nat, pattern: seq<PatternByte>) returns (match_: bool)
      requires i + |pattern| <= |bytes|
      ensures match_ <==> forall k | 0 <= k < |pattern| :: pattern[k] >= 0 ==> bytes[i + k] == pattern[k]
    {
      match_ := true;
      for k := 0 to |pattern|
        invariant match_ && forall j | 0 <= j < k :: pattern[j] >= 0 ==> bytes[i + j] == pattern[j]
      {
        if pattern[k] >= 0 && bytes[i + k] != pattern[k] {
          return false;
        }
      }
    }

    /** The same about the memory the bytes were read from. */
    method MatchesThere(ghost mem: Memory, ghost chunk: Address, bytes: seq<Byte>, i: nat, pattern: seq<PatternByte>) returns (hit: bool)
      requires pattern != [] && i + |pattern| <= |bytes|
      requires Mapped(mem, chunk, |bytes|) && bytes == Window(mem, chunk, |bytes|)
      ensures hit <==> Matches(mem, chunk + i, pattern)
    {
      hit := MatchesAt(bytes, i, pattern);
      WindowMatches(mem, chunk, bytes, i, pattern);
    }

    /** The matches of one chunk that was read, added to those found before it until there are max of them. */
    method ScanChunk(ghost mem: Memory, ghost start: Address, chunk: Address, bytes: seq<Byte>, pattern: seq<PatternByte>,
                     before: seq<Address>, max: nat)
      returns (matches: seq<Address>)
      requires pattern != [] && |pattern| <= |bytes| && start <= chunk && chunk + |bytes| < ADDRESS_SPACE
      requires Mapped(mem, chunk, |bytes|) && bytes == Window(mem, chunk, |bytes|)
      requires before == Naive(mem, start, chunk, pattern) && |before| < max
      ensures var found := Naive(mem, start, chunk + |bytes| - |pattern| + 1, pattern);
              if |matches| < max then matches == found else |matches| == max && matches <= found
    {
      matches := before;
      var count := |bytes| - |pattern| + 1;
      for i := 0 to count
        invariant matches == Naive(mem, start, chunk + i, pattern) && |matches| < max
      {
        var hit := MatchesThere(mem, chunk, bytes, i, pattern);
        NaiveNext(mem, start, chunk + i, chunk + count, pattern);
        if hit {
          matches := matches + [chunk + i];
          if |matches| >= max {
            return;
          }
        }
      }
    }

    method ScanChunks(start: Address, length: nat, pattern: seq<PatternByte>, max: nat)
      returns (r: Result<seq<Address>>, ghost issued: seq<(Address, nat)>)
      requires ValidRange(start, length, max) && 1 <= |pattern| <= length && |pattern| <= MAX_PATTERN
      ensures r == if Blocked(backend.memory, start, length, pattern, max) then Failure(ReadFailed)
                   else Success(Take(Naive(backend.memory, start, start + length - |pattern| + 1, pattern), max))
      ensures AllInRange(start, length, issued)
    {
      ghost var mem := backend.memory;
      issued := [];
      var matches: seq<Address> := [];
      var offset := 0;
      while offset < length
        invariant Scanning(mem, start, length, pattern, max, offset, matches)
        invariant AllInRange(start, length, issued)
        decreases length - offset
      {
        var size := ChunkSize(length, offset, |pattern|);
        IssueInRange(start, length, offset, size, issued);
        issued := issued + [(start + offset, size)];
        var bytes := backend.Read(start + offset, size);
        if bytes.Failure? {
          ChunkBlocks(mem, start, length, pattern, max, offset, matches);
          return Failure(bytes.error), issued;
        }
        ghost var before := matches;
        matches := ScanChunk(mem, start, start + offset, bytes.value, pattern, matches, max);
        ChunkIsScanned(mem, start, length, pattern, max, offset, before, matches);
        if |matches| >= max {
          return Success(matches), issued;
        }
        if size == length - offset {
          return Success(matches), issued;
        }
        offset := offset + CHUNK;
      }
    }

    method ScanAob(start: Address, length: nat, signature: string, max: nat)
      returns (r: Result<seq<Address>>, ghost issued: seq<(Address, nat)>)
      ensures var pattern := Pattern(signature);
              if pattern.None? then r == Failure(InvalidType)
              else if !ValidRange(start, length, max) then r == Failure(InvalidSize)
              else if |pattern.value| <= length && Blocked(backend.memory, start, length, pattern.value, max)
              then r == Failure(ReadFailed)
              else r == Success(Take(Naive(backend.memory, start, start + length - |pattern.value| + 1, pattern.value), max))
      ensures AllInRange(start, length, issued)
    {
      issued := [];
      var parsed := ParseAob(signature);
      if parsed.None? {
        return Failure(InvalidType), issued;
      }
      var pattern := parsed.value;
      if length == 0 || length > MAX_RANGE || max == 0 || start > MAX_ADDRESS - length {
        return Failure(InvalidSize), issued;
      }
      if |pattern| > length {
        return Success([]), issued;
      }
      r, issued := ScanChunks(start, length, pattern, max);
    }
  }

  lemma IssueInRange(start: Address, length: nat, offset: nat, size: nat, issued: seq<(Address, nat)>)
    requires AllInRange(start, length, issued) && start + length < ADDRESS_SPACE
    requires 1 <= size <= MAX_TRANSFER && offset + size <= length
    ensures AllInRange(start, length, issued + [(start + offset, size)])
    ensures ValidateRequest(start + offset, size).Success?
  {
  }

  /** The loop invariant of the scan: every chunk before the offset was read, and its matches are found. */
  predicate Scanning(mem: Memory, start: Address, length: nat, pattern: seq<PatternByte>, max: nat, offset: nat, matches: seq<Address>) {
    && offset % CHUNK == 0 && 1 <= |pattern| && offset + |pattern| <= length
    && matches == Naive(mem, start, start + offset, pattern) && |matches| < max
    && ChunksMapped(mem, start, length, |pattern|, offset)
  }

  /** The matches of all chunks up to and including the one at the offset, or the first max of them. */
  predicate Scanned(mem: Memory, start: Address, length: nat, pattern: seq<PatternByte>, max: nat, offset: nat, matches: seq<Address>)
    requires 1 <= |pattern| && offset <= length
  {
    var found := Naive(mem, start, start + offset + ChunkSize(length, offset, |pattern|) - |pattern| + 1, pattern);
    if |matches| < max then matches == found else |matches| == max && matches <= found
  }

  /** What the scan returns: nothing when a chunk blocks it. */
  predicate Answers(mem: Memory, start: Address, length: nat, pattern: seq<PatternByte>, max: nat, matches: seq<Address>)
    requires 1 <= |pattern|
  {
    && !Blocked(mem, start, length, pattern, max)
    && matches == Take(Naive(mem, start, start + length - |pattern| + 1, pattern), max)
  }

  lemma ChunkBlocks(mem: Memory, start: Address, length: nat, pattern: seq<PatternByte>, max: nat, offset: nat, matches: seq<Address>)
    requires Scanning(mem, start, length, pattern, max, offset, matches)
    requires !Mapped(mem, start + offset, ChunkSize(length, offset, |pattern|))
    ensures Blocked(mem, start, length, pattern, max)
  {
    assert Reached(mem, start, length, pattern, max, offset);
  }

  /** After a chunk the scan is done, or goes on with the next chunk. */
  lemma ChunkIsScanned(mem: Memory, start: Address, length: nat, pattern: seq<PatternByte>, max: nat, offset: nat,
                       before: seq<Address>, matches: seq<Address>)
    requires Scanning(mem, start, length, pattern, max, offset, before)
    requires Mapped(mem, start + offset, ChunkSize(length, offset, |pattern|))
    requires Scanned(mem, start, length, pattern, max, offset, matches)
    ensures if |matches| >= max || ChunkSize(length, offset, |pattern|) == length - offset
            then Answers(mem, start, length, pattern, max, matches)
            else Scanning(mem, start, length, pattern, max, offset + CHUNK, matches)
  {
    NextChunk(mem, start, length, |pattern|, offset);
    if |matches| >= max {
      EnoughFound(mem, start, length, pattern, max, offset, matches);
    } else if ChunkSize(length, offset, |pattern|) == length - offset {
      LastChunkRead(mem, start, length, pattern, max, offset);
    }
  }

  lemma NaiveNext(mem: Memory, lo: int, a: int, hi: int, pattern: seq<PatternByte>)
    requires lo <= a < hi
    ensures Naive(mem, lo, a + 1, pattern) == Naive(mem, lo, a, pattern) + if Matches(mem, a, pattern) then [a] else []
    ensures Naive(mem, lo, a + 1, pattern) <= Naive(mem, lo, hi, pattern)
  {
    NaivePrefix(mem, lo, a + 1, hi, pattern);
  }

  /** Every chunk before the offset can be read. */
  predicate ChunksMapped(mem: Memory, start: Address, length: nat, width: nat, offset: nat)
    requires width > 0 && offset <= length + CHUNK
  {
    forall o: nat | o < offset && o % CHUNK == 0 && o <= length :: Mapped(mem, start + o, ChunkSize(length, o, width))
  }

  lemma NextChunk(mem: Memory, start: Address, length: nat, width: nat, offset: nat)
    requires width > 0 && offset % CHUNK == 0 && offset <= length
    requires ChunksMapped(mem, start, length, width, offset) && Mapped(mem, start + offset, ChunkSize(length, offset, width))
    ensures ChunksMapped(mem, start, length, width, offset + CHUNK)
  {
    assert forall o: nat | offset < o && o % CHUNK == 0 :: o >= offset + CHUNK;
  }

  lemma WindowMatches(mem: Memory, a: int, bytes: seq<Byte>, i: nat, pattern: seq<PatternByte>)
    requires Mapped(mem, a, |bytes|) && bytes == Window(mem, a, |bytes|) && i + |pattern| <= |bytes| && pattern != []
    ensures Matches(mem, a + i, pattern) <==> forall k | 0 <= k < |pattern| :: pattern[k] >= 0 ==> bytes[i + k] == pattern[k]
  {
    forall k | 0 <= k < |pattern| ensures a + i + k in mem && (bytes[i + k] == pattern[k] <==> mem[a + i + k] == pattern[k]) {
      assert bytes[i + k] == mem[a + (i + k)];
    }
  }

  /** Once max matches are found nothing behind them is reached. */
  lemma EnoughFound(mem: Memory, start: Address, length: nat, pattern: seq<PatternByte>, max: nat, offset: nat, matches: seq<Address>)
    requires pattern != [] && offset % CHUNK == 0 && offset + |pattern| <= length && max > 0
    requires ChunksMapped(mem, start, length, |pattern|, offset + CHUNK)
    requires |matches| == max
    requires matches <= Naive(mem, start, start + offset + ChunkSize(length, offset, |pattern|) - |pattern| + 1, pattern)
    ensures matches == Take(Naive(mem, start, start + length - |pattern| + 1, pattern), max)
    ensures !Blocked(mem, start, length, pattern, max)
  {
    var end := start + offset + ChunkSize(length, offset, |pattern|) - |pattern| + 1;
    NaivePrefix(mem, start, end, start + length - |pattern| + 1, pattern);
    forall o: nat | offset < o && o % CHUNK == 0
      ensures !Reached(mem, start, length, pattern, max, o)
    {
      LongerThanPrefix(mem, start, end, start + o, pattern, matches);
    }
  }

  lemma LongerThanPrefix(mem: Memory, lo: int, mid: int, hi: int, pattern: seq<PatternByte>, found: seq<Address>)
    requires mid <= hi && found <= Naive(mem, lo, mid, pattern)
    ensures |Naive(mem, lo, hi, pattern)| >= |found|
  {
    NaivePrefix(mem, lo, mid, hi, pattern);
  }

  lemma LastChunkRead(mem: Memory, start: Address, length: nat, pattern: seq<PatternByte>, max: nat, offset: nat)
    requires pattern != [] && offset % CHUNK == 0 && offset + |pattern| <= length
    requires ChunkSize(length, offset, |pattern|) == length - offset
    requires ChunksMapped(mem, start, length, |pattern|, offset + CHUNK)
    ensures !Blocked(mem, start, length, pattern, max)
  {
    assert forall o: nat | offset < o && o % CHUNK == 0 :: o >= offset + CHUNK;
  }

  /** When the whole range is mapped the scan is never blocked, so it equals the naive search. */
  lemma MappedRangeIsNotBlocked(mem: Memory, start: Address, length: nat, pattern: seq<PatternByte>, max: nat)
    requires pattern != [] && Mapped(mem, start, length)
    ensures !Blocked(mem, start, length, pattern, max)
  {
  }
}
