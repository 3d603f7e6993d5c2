/**
  RateLimiter: one fixed one-minute window per alias, opened by the first call that finds no live one.
  The clock is a parameter of every call; a window whose start is 0 counts as not opened yet, so the
  bounds need a positive clock.
*/
module RateLimit {
  import opened Common

  /** One minute in milliseconds. */
  const MINUTE: int := 60_000

  datatype Window = Window(start: int, count: nat)

  type Windows = map<string, Window>

  function WindowOf(windows: Windows, alias: string): Window {
    if alias in windows then windows[alias] else Window(0, 0)
  }

  /** The window a call at time now uses: a new one when none was opened or the old one is a minute old. */
  function Rolled(w: Window, now: int): Window {
    if w.start == 0 || now - w.start >= MINUTE then Window(now, 0) else w
  }

  predicate Admits(w: Window, now: int, max: nat) {
    Rolled(w, now).count < max
  }

  function AfterCall(w: Window, now: int, max: nat): Window {
    var r := Rolled(w, now);
    if r.count < max then r.(count := r.count + 1) else r
  }

  class RateLimiter {
    const maxPerMinute: nat
    var windows: Windows

    constructor (maxPerMinute: nat)
      ensures this.maxPerMinute == maxPerMinute && windows == map[]
    {
      this.maxPerMinute := maxPerMinute;
      windows := map[];
    }

    method Allow(alias: string, now: int) returns (r: Result<()>)
      modifies this
      ensures r == if Admits(WindowOf(old(windows), alias), now, maxPerMinute) then Success(()) else Failure(RateLimited)
      ensures windows == old(windows)[alias := AfterCall(WindowOf(old(windows), alias), now, maxPerMinute)]
    {
      if alias !in windows {
        windows := windows[alias := Window(0, 0)];
      }
      var window := windows[alias];
      if window.start == 0 || now - window.start >= MINUTE {
        window := Window(now, 0);
        windows := windows[alias := window];
      }
      if window.count >= maxPerMinute {
        return Failure(RateLimited);
      }
      windows := windows[alias := window.(count := window.count + 1)];
      return Success(());
    }
  }

  // ---------------------------------------------------------------- runs

  datatype Call = Call(alias: string, now: int)

  /** What the limiter answers to each call of a run. */
  function Answers(windows: Windows, calls: seq<Call>, max: nat): (r: seq<bool>)
    ensures |r| == |calls|
    decreases |calls|
  {
    if calls == [] then []
    else
      var w := WindowOf(windows, calls[0].alias);
      [Admits(w, calls[0].now, max)]
      + Answers(windows[calls[0].alias := AfterCall(w, calls[0].now, max)], calls[1..], max)
  }

  /** A positive clock that never runs backwards. */
  ghost predicate Clocked(times: seq<int>, from: int) {
    from > 0 && forall i | 0 <= i < |times| :: from <= times[i] && forall j | i <= j < |times| :: times[i] <= times[j]
  }

  function Times(calls: seq<Call>): (r: seq<int>)
    ensures |r| == |calls|
    ensures forall i | 0 <= i < |r| :: r[i] == calls[i].now
  {
    if calls == [] then [] else [calls[0].now] + Times(calls[1..])
  }

  function Granted(calls: seq<Call>, answers: seq<bool>, alias: string, lo: int, hi: int): nat
    requires |answers| == |calls|
  {
    if calls == [] then 0
    else
      (if answers[0] && calls[0].alias == alias && lo <= calls[0].now <= hi then 1 else 0)
      + Granted(calls[1..], answers[1..], alias, lo, hi)
  }

  // ---------------------------------------------------------------- one alias on its own

  function TimesOf(calls: seq<Call>, alias: string): seq<int> {
    if calls == [] then []
    else if calls[0].alias == alias then [calls[0].now] + TimesOf(calls[1..], alias)
    else TimesOf(calls[1..], alias)
  }

  /** The answers of one window to calls at the given times. */
  function Verdicts(w: Window, times: seq<int>, max: nat): (r: seq<bool>)
    ensures |r| == |times|
    decreases |times|
  {
    if times == [] then [] else [Admits(w, times[0], max)] + Verdicts(AfterCall(w, times[0], max), times[1..], max)
  }

  function AnswersFor(calls: seq<Call>, answers: seq<bool>, alias: string): seq<bool>
    requires |answers| == |calls|
  {
    if calls == [] then []
    else if calls[0].alias == alias then [answers[0]] + AnswersFor(calls[1..], answers[1..], alias)
    else AnswersFor(calls[1..], answers[1..], alias)
  }

  /** An alias gets the answers it would get if it were the only one: other aliases never change them. */
  lemma {:induction false} AliasesAreIndependent(windows: Windows, calls: seq<Call>, max: nat, alias: string)
    ensures AnswersFor(calls, Answers(windows, calls, max), alias)
         == Verdicts(WindowOf(windows, alias), TimesOf(calls, alias), max)
    decreases |calls|
  {
    if calls != [] {
      var c := calls[0];
      var windows' := windows[c.alias := AfterCall(WindowOf(windows, c.alias), c.now, max)];
      AliasesAreIndependent(windows', calls[1..], max, alias);
      var answers := Answers(windows, calls, max);
      assert answers[1..] == Answers(windows', calls[1..], max);
      if c.alias == alias {
        assert ([c.now] + TimesOf(calls[1..], alias))[1..] == TimesOf(calls[1..], alias);
      }
    }
  }

  /** How many of one window's calls succeed between lo and hi. */
  function Served(w: Window, times: seq<int>, max: nat, lo: int, hi: int): nat
    decreases |times|
  {
    if times == [] then 0
    else
      (if Admits(w, times[0], max) && lo <= times[0] <= hi then 1 else 0)
      + Served(AfterCall(w, times[0], max), times[1..], max, lo, hi)
  }

  lemma {:induction false} GrantedIsServed(windows: Windows, calls: seq<Call>, max: nat, alias: string, lo: int, hi: int)
    ensures Granted(calls, Answers(windows, calls, max), alias, lo, hi)
         == Served(WindowOf(windows, alias), TimesOf(calls, alias), max, lo, hi)
    decreases |calls|
  {
    if calls != [] {
      var c := calls[0];
      var windows' := windows[c.alias := AfterCall(WindowOf(windows, c.alias), c.now, max)];
      GrantedIsServed(windows', calls[1..], max, alias, lo, hi);
      assert Answers(windows, calls, max)[1..] == Answers(windows', calls[1..], max);
      if c.alias == alias {
        assert ([c.now] + TimesOf(calls[1..], alias))[1..] == TimesOf(calls[1..], alias);
      }
    }
  }

  // ---------------------------------------------------------------- the bound

  /** How many windows can open between from and hi. */
  function Openings(from: int, hi: int): nat {
    if hi < from then 0 else (hi - from) / MINUTE + 1
  }

  /** Once every call is at or after time t: what is left of the live window, and the windows that can still open. */
  function Room(w: Window, t: int, max: nat, hi: int): nat
    requires w.count <= max
  {
    if w.start == 0 || t - w.start >= MINUTE then max * Openings(t, hi)
    else max - w.count + max * Openings(w.start + MINUTE, hi)
  }

  /** A window was opened at a positive time, and the call that opened it took the first slot. */
  predicate Opened(w: Window, t: int, max: nat) {
    w.count <= max && (w == Window(0, 0) || (0 < w.start <= t && (w.count >= 1 || max == 0)))
  }

  lemma MoreOpenings(max: nat, from: int, later: int, hi: int)
    requires from <= later
    ensures max * Openings(later, hi) <= max * Openings(from, hi)
  {
    assert Openings(later, hi) <= Openings(from, hi);
  }

  lemma FewerLater(w: Window, t: int, later: int, max: nat, hi: int)
    requires Opened(w, t, max) && t <= later
    ensures Room(w, later, max, hi) <= Room(w, t, max, hi)
  {
    MoreOpenings(max, t, later, hi);
    if later - w.start >= MINUTE {
      MoreOpenings(max, w.start + MINUTE, later, hi);
    }
  }

  /** A call that succeeds between t and hi uses up one place. */
  lemma CallTakesRoom(w: Window, t: int, max: nat, hi: int)
    requires Opened(w, t, max) && 0 < t
    ensures Opened(AfterCall(w, t, max), t, max)
    ensures t <= hi ==> Room(AfterCall(w, t, max), t, max, hi) + (if Admits(w, t, max) then 1 else 0) <= Room(w, t, max, hi)
  {
    if t <= hi && Rolled(w, t) == Window(t, 0) && max > 0 {
      assert Openings(t, hi) == 1 + Openings(t + MINUTE, hi);
      assert max * (1 + Openings(t + MINUTE, hi)) == max + max * Openings(t + MINUTE, hi);
    }
  }

  lemma {:induction false} NothingPasses(w: Window, times: seq<int>, max: nat, lo: int, hi: int)
    requires forall i | 0 <= i < |times| :: times[i] > hi
    ensures Served(w, times, max, lo, hi) == 0
    decreases |times|
  {
    if times != [] {
      NothingPasses(AfterCall(w, times[0], max), times[1..], max, lo, hi);
    }
  }

  lemma {:induction false} ServedFitsRoom(w: Window, times: seq<int>, t: int, max: nat, lo: int, hi: int)
    requires Clocked(times, t) && Opened(w, t, max)
    ensures Served(w, times, max, lo, hi) <= Room(w, t, max, hi)
    decreases |times|
  {
    if times != [] {
      var now := times[0];
      FewerLater(w, t, now, max, hi);
      CallTakesRoom(w, now, max, hi);
      if now > hi {
        NothingPasses(w, times, max, lo, hi);
      } else {
        ServedFitsRoom(AfterCall(w, now, max), times[1..], now, max, lo, hi);
      }
    }
  }

  /** The most calls one alias can get through in a closed interval of the given length. */
  function Bound(length: nat, max: nat): nat {
    if max == 0 then 0
    else if length % MINUTE == 0 then max * (length / MINUTE + 1)
    else max * (length / MINUTE + 2) - 1
  }

  lemma RoomAtStart(w: Window, lo: int, max: nat, hi: int)
    requires Opened(w, lo, max) && lo <= hi
    ensures Room(w, lo, max, hi) <= Bound(hi - lo, max)
  {
    var n := (hi - lo) / MINUTE;
    assert Openings(lo, hi) == n + 1;
    assert max * (n + 2) == max * (n + 1) + max && max * (n + 1) == max * n + max;
    if w.start != 0 && lo - w.start < MINUTE {
      MoreOpenings(max, lo + 1, w.start + MINUTE, hi);
      assert Openings(lo + 1, hi) == if (hi - lo) % MINUTE == 0 then n else n + 1;
    }
  }

  lemma {:induction false} ServedIsBounded(w: Window, times: seq<int>, t: int, max: nat, lo: int, hi: int)
    requires Clocked(times, t) && Opened(w, t, max) && t <= lo <= hi
    ensures Served(w, times, max, lo, hi) <= Bound(hi - lo, max)
    decreases |times|
  {
    if times == [] || times[0] >= lo {
      assert Clocked(times, lo);
      FewerLater(w, t, lo, max, hi);
      ServedFitsRoom(w, times, lo, max, lo, hi);
      RoomAtStart(w, lo, max, hi);
    } else {
      CallTakesRoom(w, times[0], max, hi);
      ServedIsBounded(AfterCall(w, times[0], max), times[1..], times[0], max, lo, hi);
    }
  }

  lemma {:induction false} TimesOfAreTimes(calls: seq<Call>, alias: string)
    ensures forall t | t in TimesOf(calls, alias) :: t in Times(calls)
  {
    if calls != [] {
      TimesOfAreTimes(calls[1..], alias);
      assert Times(calls) == [calls[0].now] + Times(calls[1..]);
    }
  }

  lemma {:induction false} AliasIsClocked(calls: seq<Call>, alias: string, from: int)
    requires Clocked(Times(calls), from)
    ensures Clocked(TimesOf(calls, alias), from)
  {
    if calls != [] {
      var now, later := calls[0].now, TimesOf(calls[1..], alias);
      assert Times(calls) == [now] + Times(calls[1..]);
      AliasIsClocked(calls[1..], alias, from);
      TimesOfAreTimes(calls[1..], alias);
      forall i | 0 <= i < |later| ensures now <= later[i] {
        assert later[i] in later;
      }
    }
  }

  /**
    With a positive clock that never runs backwards, no alias gets more than Bound calls through in any
    closed interval, however the calls of other aliases are interleaved.
  */
  lemma RateBound(calls: seq<Call>, max: nat, alias: string, lo: int, hi: int)
    requires Clocked(Times(calls), 1) && lo <= hi
    ensures Granted(calls, Answers(map[], calls, max), alias, lo, hi) <= Bound(hi - lo, max)
    ensures Bound(hi - lo, max) <= ((hi - lo) / MINUTE + 2) * max
  {
    GrantedIsServed(map[], calls, max, alias, lo, hi);
    AliasIsClocked(calls, alias, 1);
    var times := TimesOf(calls, alias);
    if 1 <= lo {
      ServedIsBounded(Window(0, 0), times, 1, max, lo, hi);
    } else if 1 <= hi {
      ServedFitsRoom(Window(0, 0), times, 1, max, lo, hi);
      MoreOpenings(max, lo, 1, hi);
      RoomAtStart(Window(0, 0), lo, max, hi);
    } else {
      NothingPasses(Window(0, 0), times, max, lo, hi);
    }
    var n := (hi - lo) / MINUTE;
    assert max * (n + 2) == (n + 2) * max && max * (n + 2) == max * (n + 1) + max;
  }

  // ---------------------------------------------------------------- the bound is reached

  /** n calls at the same time. */
  function Burst(t: int, n: nat): (r: seq<int>)
    ensures |r| == n
    ensures forall i | 0 <= i < n :: r[i] == t
  {
    seq(n, _ => t)
  }

  /** A full burst at the start of each of n windows that follow one another without a gap. */
  function Bursts(t: int, n: nat, max: nat): seq<int>
    decreases n
  {
    if n == 0 then [] else Burst(t, max) + Bursts(t + MINUTE, n - 1, max)
  }

  lemma {:induction false} BurstFills(w: Window, t: int, n: nat, rest: seq<int>, max: nat, lo: int, hi: int)
    requires 0 < w.start <= t < w.start + MINUTE && w.count + n <= max && lo <= t <= hi
    ensures Served(w, Burst(t, n) + rest, max, lo, hi) == n + Served(w.(count := w.count + n), rest, max, lo, hi)
    decreases n
  {
    var times := Burst(t, n) + rest;
    if n == 0 {
      assert times == rest;
    } else {
      assert times[1..] == Burst(t, n - 1) + rest;
      BurstFills(w.(count := w.count + 1), t, n - 1, rest, max, lo, hi);
    }
  }

  lemma {:induction false} BurstsFill(w: Window, t: int, n: nat, max: nat, lo: int, hi: int)
    requires max > 0 && 0 < t && (w.start == 0 || t - w.start >= MINUTE)
    requires lo <= t && t + (n - 1) * MINUTE <= hi
    ensures Served(w, Bursts(t, n, max), max, lo, hi) == max * n
    decreases n
  {
    if n > 0 {
      var rest := Bursts(t + MINUTE, n - 1, max);
      var times := Burst(t, max) + rest;
      assert times[1..] == Burst(t, max - 1) + rest;
      assert 0 <= (n - 1) * MINUTE;
      BurstFills(Window(t, 1), t, max - 1, rest, max, lo, hi);
      BurstsFill(Window(t, max), t + MINUTE, n - 1, max, lo, hi);
      assert max * n == max * (n - 1) + max;
    }
  }

  lemma ClockedAppend(first: seq<int>, rest: seq<int>, from: int, next: int)
    requires Clocked(first, from) && Clocked(rest, next) && from <= next
    requires forall i | 0 <= i < |first| :: first[i] <= next
    ensures Clocked(first + rest, from)
  {
  }

  lemma {:induction false} BurstsAreClocked(t: int, n: nat, max: nat)
    requires 0 < t
    ensures Clocked(Bursts(t, n, max), t)
    decreases n
  {
    if n > 0 {
      BurstsAreClocked(t + MINUTE, n - 1, max);
      ClockedAppend(Burst(t, max), Bursts(t + MINUTE, n - 1, max), t, t + MINUTE);
    }
  }

  /** For every limit and every length some run reaches the bound, so no smaller one holds. */
  lemma BoundIsReached(max: nat, length: nat) returns (times: seq<int>, lo: int)
    requires max > 0
    ensures Clocked(times, 1)
    ensures Served(Window(0, 0), times, max, lo, lo + length) == Bound(length, max)
  {
    var n := length / MINUTE;
    lo := MINUTE;
    if length % MINUTE == 0 {
      times := Bursts(lo, n + 1, max);
      BurstsAreClocked(lo, n + 1, max);
      BurstsFill(Window(0, 0), lo, n + 1, max, lo, lo + length);
    } else {
      var late := Bursts(lo + 1, n + 1, max);
      BurstsAreClocked(lo + 1, n + 1, max);
      times := [1] + (Burst(lo, max - 1) + late);
      ClockedAppend(Burst(lo, max - 1), late, lo, lo + 1);
      ClockedAppend([1], Burst(lo, max - 1) + late, 1, lo);
      assert times[1..] == Burst(lo, max - 1) + late;
      BurstFills(Window(1, 1), lo, max - 1, late, max, lo, lo + length);
      BurstsFill(Window(1, max), lo + 1, n + 1, max, lo, lo + length);
      assert max * (n + 2) == max * (n + 1) + max;
    }
  }

  /** A clock that stands at 0 switches the limiter off: every call opens a new window. */
  lemma {:induction false} ZeroClockNeverLimits(count: nat, times: seq<int>, max: nat)
    requires max > 0 && forall i | 0 <= i < |times| :: times[i] == 0
    ensures Served(Window(0, count), times, max, 0, 0) == |times|
    decreases |times|
  {
    if times != [] {
      ZeroClockNeverLimits(1, times[1..], max);
    }
  }
}
