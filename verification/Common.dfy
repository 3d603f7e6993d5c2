/** Vocabulary shared by every module: error codes, results, and text read from the front. */
module Common {

  datatype Option<+T> = None | Some(value: T) {
    function GetOr(fallback: T): T {
      if Some? then value else fallback
    }
  }

  /** The codes a public operation can fail with. Messages, operation names and system errors are not modelled. */
  datatype ErrorCode =
    | NotConnected
    | TargetDead
    | TargetIdentityMismatch
    | InvalidAddress
    | InvalidSize
    | InvalidOffsets
    | InvalidEntryId
    | InvalidType
    | InvalidString
    | ReadFailed
    | WriteFailed
    | PartialWrite
    | SnapshotMissing
    | ParseFailed
    | ParseUnsupported
    | PolicyDenied
    | ApprovalRequired
    | CapabilityMissing
    | RateLimited
    | Timeout

  datatype Result<+T> = Success(value: T) | Failure(error: ErrorCode) {
    predicate IsFailure() {
      Failure?
    }

    function PropagateFailure<U>(): Result<U>
      requires Failure?
    {
      Failure(error)
    }

    function Extract(): T
      requires Success?
    {
      value
    }
  }

  /** The first n elements of s, or all of s when it is shorter. */
  function Take<T>(s: seq<T>, n: nat): (r: seq<T>)
    ensures r <= s
  {
    if n <= |s| then s[..n] else s
  }

  lemma Associate<T>(a: seq<T>, b: seq<T>, c: seq<T>)
    ensures (a + b) + c == a + (b + c)
  {
  }

  // ---------------------------------------------------------------- runs

  /** The state after every step of a run. */
  ghost function Fold<S, T>(next: (S, T) -> S, s: S, steps: seq<T>): S {
    if steps == [] then s else next(Fold(next, s, steps[..|steps| - 1]), steps[|steps| - 1])
  }

  lemma {:induction false} FoldAppend<S, T>(next: (S, T) -> S, s: S, xs: seq<T>, ys: seq<T>)
    ensures Fold(next, s, xs + ys) == Fold(next, Fold(next, s, xs), ys)
    decreases |ys|
  {
    if ys == [] {
      assert xs + ys == xs;
    } else {
      var last := |ys| - 1;
      assert (xs + ys)[..|xs| + last] == xs + ys[..last];
      FoldAppend(next, s, xs, ys[..last]);
    }
  }

  // ---------------------------------------------------------------- text, as bytes held in chars

  predicate IsSpace(c: char) {
    c == ' ' || '\t' <= c <= '\r'
  }

  predicate IsDigit(c: char) {
    '0' <= c <= '9'
  }

  /** The value of a hex digit, or -1. */
  function Nibble(c: char): (r: int)
    ensures -1 <= r < 16
  {
    if '0' <= c <= '9' then c as int - '0' as int
    else if 'a' <= c <= 'f' then c as int - 'a' as int + 10
    else if 'A' <= c <= 'F' then c as int - 'A' as int + 10
    else -1
  }

  /** What a production returns: a value and the unread rest of the input. */
  datatype Parsed<+T> = Ok(value: T, rest: string) | Bad

  function SkipSpace(s: string): (r: string)
    ensures |r| <= |s|
    ensures r != "" ==> !IsSpace(r[0])
  {
    if s != "" && IsSpace(s[0]) then SkipSpace(s[1..]) else s
  }

  predicate Blank(s: string) {
    forall c | c in s :: IsSpace(c)
  }

  lemma {:induction false} SkipBlank(b: string, s: string)
    requires Blank(b)
    ensures SkipSpace(b + s) == SkipSpace(s)
  {
    if b != "" {
      SkipBlank(b[1..], s);
      assert (b + s)[1..] == b[1..] + s;
    } else {
      assert b + s == s;
    }
  }

  /** One more element in front of what p gives. */
  function Cons<T>(x: T, p: Parsed<seq<T>>): Parsed<seq<T>> {
    if p.Ok? then Ok([x] + p.value, p.rest) else Bad
  }

  /** The elements a loop has gathered in front of what p gives. */
  function Prepend<T>(items: seq<T>, p: Parsed<seq<T>>): Parsed<seq<T>> {
    if p.Ok? then Ok(items + p.value, p.rest) else Bad
  }

  lemma PrependNothing<T>(p: Parsed<seq<T>>)
    ensures Prepend([], p) == p
  {
    if p.Ok? {
      assert [] + p.value == p.value;
    }
  }

  lemma PrependCons<T>(items: seq<T>, x: T, p: Parsed<seq<T>>)
    ensures Prepend(items, Cons(x, p)) == Prepend(items + [x], p)
  {
    if p.Ok? {
      Associate(items, [x], p.value);
    }
  }
}
