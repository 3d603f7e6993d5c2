/**
  next_scan, and whole scan sessions: one first scan followed by any number of next scans while the memory
  changes. The survivors are exactly the first candidates that passed every comparison.
*/
module ScanSession {
  import opened Common
  import opened ByteMemory
  import opened CandidateScan

  /** The arguments of one next_scan, and the memory it reads. */
  datatype Round = Round(mem: Memory, comparison: Comparison, target: int, upper: int, max: nat)

  /** The address can be read again, and its value compares as asked to the one stored before. */
  predicate Passes(r: Round, t: IntType, a: Address, before: int) {
    Mapped(r.mem, a, t.width) && Holds(r.comparison, ValueAt(r.mem, a, t), before, r.target, r.upper)
  }

  /** The addresses next_scan does not refuse. */
  predicate Usable(t: IntType, a: Address) {
    a != 0 && a <= MAX_ADDRESS - t.width
  }

  /** The candidates among the first n that pass, with their new values. */
  function Refined(r: Round, t: IntType, s: Snapshot, n: nat): Snapshot
    requires n <= |s.addresses| == |s.values|
  {
    if n == 0 then Snapshot([], [])
    else
      var before, a := Refined(r, t, s, n - 1), s.addresses[n - 1];
      if Passes(r, t, a, s.values[n - 1]) then Push(before, a, ValueAt(r.mem, a, t)) else before
  }

  /** What next_scan returns. */
  function NextOf(r: Round, t: IntType, s: Snapshot): Result<Snapshot> {
    if |s.addresses| != |s.values| || |s.addresses| > r.max || r.max == 0 then Failure(InvalidSize)
    else if exists i :: 0 <= i < |s.addresses| && !Usable(t, s.addresses[i]) then Failure(InvalidSize)
    else Success(Refined(r, t, s, |s.addresses|))
  }

  method NextScan(backend: ByteMapBackend, t: IntType, previous: Snapshot, comparison: Comparison, target: int, upper: int, max: nat)
    returns (r: Result<Snapshot>)
    requires t.Valid()
    ensures r == NextOf(Round(backend.memory, comparison, target, upper, max), t, previous)
  {
    if |previous.addresses| != |previous.values| || |previous.addresses| > max || max == 0 {
      return Failure(InvalidSize);
    }
    ghost var round := Round(backend.memory, comparison, target, upper, max);
    var refined := Snapshot([], []);
    for index := 0 to |previous.addresses|
      invariant forall i | 0 <= i < index :: Usable(t, previous.addresses[i])
      invariant refined == Refined(round, t, previous, index)
    {
      var address := previous.addresses[index];
      if address == 0 || address > MAX_ADDRESS - t.width {
        assert !Usable(t, previous.addresses[index]);
        return Failure(InvalidSize);
      }
      var read := backend.Read(address, t.width);
      if read.Success? {
        var now, was := ValueOf(read.value, t), previous.values[index];
        if Holds(comparison, now, was, target, upper) {
          refined := Push(refined, address, now);
        }
      }
    }
    return Success(refined);
  }

  // ---------------------------------------------------------------- one round

  /** A snapshot whose addresses ascend, can be used and hold the values of a memory. */
  predicate Sound(mem: Memory, t: IntType, s: Snapshot) {
    Ascending(s.addresses) && HoldsValues(mem, s, t) && forall a | a in s.addresses :: Usable(t, a)
  }

  lemma {:induction false} RefinedIsSound(mem: Memory, r: Round, t: IntType, s: Snapshot, n: nat)
    requires Sound(mem, t, s) && n <= |s.addresses|
    ensures var found := Refined(r, t, s, n);
            Sound(r.mem, t, found) && |found.addresses| <= n && forall a | a in found.addresses :: a in s.addresses[..n]
  {
    if n > 0 {
      RefinedIsSound(mem, r, t, s, n - 1);
      var a := s.addresses[n - 1];
      assert s.addresses[..n] == s.addresses[..n - 1] + [a];
      assert a in s.addresses;
      if Passes(r, t, a, s.values[n - 1]) {
        PushIsSound(r.mem, t, Refined(r, t, s, n - 1), a, s.addresses[..n - 1]);
      }
    }
  }

  lemma {:induction false} RefinedIsExact(mem: Memory, r: Round, t: IntType, s: Snapshot, n: nat)
    requires HoldsValues(mem, s, t) && n <= |s.addresses|
    ensures forall a :: a in Refined(r, t, s, n).addresses <==>
              a in s.addresses[..n] && Mapped(mem, a, t.width) && Passes(r, t, a, ValueAt(mem, a, t))
  {
    if n > 0 {
      RefinedIsExact(mem, r, t, s, n - 1);
      assert s.addresses[..n] == s.addresses[..n - 1] + [s.addresses[n - 1]];
      assert s.values[n - 1] == ValueAt(mem, s.addresses[n - 1], t);
    }
  }

  lemma PushIsSound(mem: Memory, t: IntType, s: Snapshot, a: Address, above: seq<Address>)
    requires Sound(mem, t, s) && Usable(t, a) && Mapped(mem, a, t.width)
    requires forall b | b in s.addresses :: b in above
    requires forall i | 0 <= i < |above| :: above[i] < a
    ensures Sound(mem, t, Push(s, a, ValueAt(mem, a, t)))
  {
    assert forall i | 0 <= i < |s.addresses| :: s.addresses[i] in above;
  }

  // ---------------------------------------------------------------- sessions

  /** The snapshot after all rounds. */
  function Session(t: IntType, s: Snapshot, rounds: seq<Round>): Result<Snapshot> {
    if rounds == [] then Success(s)
    else
      var last := |rounds| - 1;
      var before := Session(t, s, rounds[..last]);
      if before.Failure? then before else NextOf(rounds[last], t, before.value)
  }

  /** The memory the latest values come from. */
  function Latest(mem: Memory, rounds: seq<Round>): Memory {
    if rounds == [] then mem else rounds[|rounds| - 1].mem
  }

  /** The value at the address passed every comparison with the value of the step before. */
  predicate PassesAll(mem: Memory, t: IntType, rounds: seq<Round>, a: Address) {
    if rounds == [] then Mapped(mem, a, t.width)
    else
      var last := |rounds| - 1;
      && PassesAll(mem, t, rounds[..last], a)
      && Mapped(Latest(mem, rounds[..last]), a, t.width)
      && Passes(rounds[last], t, a, ValueAt(Latest(mem, rounds[..last]), a, t))
  }

  predicate Roomy(rounds: seq<Round>, n: nat) {
    forall r | r in rounds :: r.max >= n && r.max > 0
  }

  /**
    No round refuses a candidate, the values are those of the latest memory, and the survivors are the
    candidates that passed every round, in the order of their addresses.
  */
  lemma {:induction false} SessionIsExact(mem: Memory, t: IntType, s: Snapshot, rounds: seq<Round>)
    requires Sound(mem, t, s) && Roomy(rounds, |s.addresses|)
    ensures var r := Session(t, s, rounds);
            && r.Success? && Sound(Latest(mem, rounds), t, r.value) && |r.value.addresses| <= |s.addresses|
            && forall a :: a in r.value.addresses <==> a in s.addresses && PassesAll(mem, t, rounds, a)
  {
    if rounds == [] {
      forall a | a in s.addresses ensures PassesAll(mem, t, rounds, a) {
        var i :| 0 <= i < |s.addresses| && s.addresses[i] == a;
      }
    } else {
      var last := |rounds| - 1;
      assert rounds[last] in rounds && forall r | r in rounds[..last] :: r in rounds;
      SessionIsExact(mem, t, s, rounds[..last]);
      var before := Session(t, s, rounds[..last]).value;
      assert forall i | 0 <= i < |before.addresses| :: before.addresses[i] in before.addresses;
      RefinedIsSound(Latest(mem, rounds[..last]), rounds[last], t, before, |before.addresses|);
      RefinedIsExact(Latest(mem, rounds[..last]), rounds[last], t, before, |before.addresses|);
      assert before.addresses[..|before.addresses|] == before.addresses;
    }
  }

  /** A first scan starts a sound session: none of its addresses is ever refused. */
  lemma FirstScanIsSound(mem: Memory, q: Query, t: IntType, max: nat)
    requires t.Valid() && q.Valid()
    ensures Sound(mem, t, First(Eligibles(mem, q, t, q.start + q.size), max))
  {
    EligiblesAreUsable(mem, q, t);
    PrefixIsSound(mem, t, Eligibles(mem, q, t, q.start + q.size), max);
  }

  lemma ReachableIsUsable(mem: Memory, q: Query, t: IntType, a: Address)
    requires t.Valid() && q.Valid() && InReadableChunk(mem, q, t, a)
    ensures Usable(t, a)
  {
  }

  lemma EligiblesAreUsable(mem: Memory, q: Query, t: IntType)
    requires t.Valid() && q.Valid()
    ensures Sound(mem, t, Eligibles(mem, q, t, q.start + q.size))
  {
    var found := Eligibles(mem, q, t, q.start + q.size);
    EligiblesAreExact(mem, q, t, q.start + q.size);
    EligiblesHoldValues(mem, q, t, q.start + q.size);
    forall a | a in found.addresses ensures Usable(t, a) {
      ReachableIsUsable(mem, q, t, a);
    }
  }

  lemma PrefixIsSound(mem: Memory, t: IntType, s: Snapshot, n: nat)
    requires Sound(mem, t, s)
    ensures Sound(mem, t, First(s, n))
  {
    assert forall a | a in First(s, n).addresses :: a in s.addresses;
  }

  /** The whole session: one first scan and any next scans. */
  lemma ScanSessionIsExact(mem: Memory, q: Query, t: IntType, max: nat, rounds: seq<Round>)
    requires t.Valid() && q.Valid() && Roomy(rounds, max)
    ensures var first := First(Eligibles(mem, q, t, q.start + q.size), max);
            var r := Session(t, first, rounds);
            && r.Success? && Ascending(r.value.addresses) && HoldsValues(Latest(mem, rounds), r.value, t)
            && forall a :: a in r.value.addresses <==> a in first.addresses && PassesAll(mem, t, rounds, a)
  {
    FirstScanIsSound(mem, q, t, max);
    SessionIsExact(mem, t, First(Eligibles(mem, q, t, q.start + q.size), max), rounds);
  }

  /** n rounds that ask for an increase leave only values that grew by at least n. */
  lemma {:induction false} IncreasesAddUp(mem: Memory, t: IntType, rounds: seq<Round>, a: Address)
    requires PassesAll(mem, t, rounds, a)
    requires forall r | r in rounds :: r.comparison == Increased
    ensures Mapped(mem, a, t.width) && Mapped(Latest(mem, rounds), a, t.width)
    ensures ValueAt(Latest(mem, rounds), a, t) >= ValueAt(mem, a, t) + |rounds|
  {
    if rounds != [] {
      var last := |rounds| - 1;
      assert rounds[last] in rounds && forall r | r in rounds[..last] :: r in rounds;
      IncreasesAddUp(mem, t, rounds[..last], a);
    }
  }

  /** n rounds that ask for a decrease leave only values that fell by at least n. */
  lemma {:induction false} DecreasesAddUp(mem: Memory, t: IntType, rounds: seq<Round>, a: Address)
    requires PassesAll(mem, t, rounds, a)
    requires forall r | r in rounds :: r.comparison == Decreased
    ensures Mapped(mem, a, t.width) && Mapped(Latest(mem, rounds), a, t.width)
    ensures ValueAt(Latest(mem, rounds), a, t) <= ValueAt(mem, a, t) - |rounds|
  {
    if rounds != [] {
      var last := |rounds| - 1;
      assert rounds[last] in rounds && forall r | r in rounds[..last] :: r in rounds;
      DecreasesAddUp(mem, t, rounds[..last], a);
    }
  }

  /** Rounds that ask for no change leave only values that are what they were. */
  lemma {:induction false} UnchangedStays(mem: Memory, t: IntType, rounds: seq<Round>, a: Address)
    requires PassesAll(mem, t, rounds, a)
    requires forall r | r in rounds :: r.comparison == Unchanged
    ensures Mapped(mem, a, t.width) && Mapped(Latest(mem, rounds), a, t.width)
    ensures ValueAt(Latest(mem, rounds), a, t) == ValueAt(mem, a, t)
  {
    if rounds != [] {
      var last := |rounds| - 1;
      assert rounds[last] in rounds && forall r | r in rounds[..last] :: r in rounds;
      UnchangedStays(mem, t, rounds[..last], a);
    }
  }

  // ---------------------------------------------------------------- what each comparison keeps

  /** The survivors of one round. */
  function Survivors(r: Round, t: IntType, s: Snapshot): seq<Address>
    requires |s.addresses| == |s.values|
  {
    Refined(r, t, s, |s.addresses|).addresses
  }

  /** The candidates that can still be read. */
  predicate Readable(r: Round, t: IntType, s: Snapshot, a: Address) {
    a in s.addresses && Mapped(r.mem, a, t.width)
  }

  lemma SurvivorsPass(mem: Memory, r: Round, t: IntType, s: Snapshot)
    requires HoldsValues(mem, s, t)
    ensures forall a: Address :: a in Survivors(r, t, s) <==>
              Readable(r, t, s, a) && Mapped(mem, a, t.width)
              && Holds(r.comparison, ValueAt(r.mem, a, t), ValueAt(mem, a, t), r.target, r.upper)
    ensures forall a: Address | Readable(r, t, s, a) :: Mapped(mem, a, t.width)
  {
    RefinedIsExact(mem, r, t, s, |s.addresses|);
    assert s.addresses[..|s.addresses|] == s.addresses;
  }

  /**
    On one memory, Increased, Decreased and Unchanged share the readable candidates out among them, and Changed
    takes the first two shares.
  */
  lemma ThreeWays(mem: Memory, r: Round, t: IntType, s: Snapshot)
    requires HoldsValues(mem, s, t)
    ensures var up, down := Survivors(r.(comparison := Increased), t, s), Survivors(r.(comparison := Decreased), t, s);
            var same, other := Survivors(r.(comparison := Unchanged), t, s), Survivors(r.(comparison := Changed), t, s);
            && (forall a: Address :: Readable(r, t, s, a) <==> a in up || a in down || a in same)
            && (forall a: Address :: !(a in up && a in down) && !(a in up && a in same) && !(a in down && a in same))
            && (forall a: Address :: a in other <==> a in up || a in down)
  {
    SurvivorsPass(mem, r.(comparison := Increased), t, s);
    SurvivorsPass(mem, r.(comparison := Decreased), t, s);
    SurvivorsPass(mem, r.(comparison := Unchanged), t, s);
    SurvivorsPass(mem, r.(comparison := Changed), t, s);
  }

  /** The readable candidates whose latest value is in some range. */
  predicate ReadsWithin(r: Round, t: IntType, s: Snapshot, a: Address, lo: int, hi: int) {
    Readable(r, t, s, a) && lo <= ValueAt(r.mem, a, t) <= hi
  }

  /** Equal and Between keep exactly the candidates whose latest value is the target, or in the stated range. */
  lemma TargetsAreMet(mem: Memory, r: Round, t: IntType, s: Snapshot)
    requires HoldsValues(mem, s, t)
    ensures forall a: Address :: a in Survivors(r.(comparison := Equal), t, s) <==> ReadsWithin(r, t, s, a, r.target, r.target)
    ensures forall a: Address :: a in Survivors(r.(comparison := Between), t, s) <==> ReadsWithin(r, t, s, a, r.target, r.upper)
  {
    SurvivorsPass(mem, r.(comparison := Equal), t, s);
    SurvivorsPass(mem, r.(comparison := Between), t, s);
  }

  /** LessThan, Equal and GreaterThan share out the readable candidates: those below, at and above the target. */
  lemma TargetSplits(mem: Memory, r: Round, t: IntType, s: Snapshot)
    requires HoldsValues(mem, s, t)
    ensures var below, above := Survivors(r.(comparison := LessThan), t, s), Survivors(r.(comparison := GreaterThan), t, s);
            && (forall a: Address | a in below :: Readable(r, t, s, a) && ValueAt(r.mem, a, t) <= r.target - 1)
            && (forall a: Address | a in above :: Readable(r, t, s, a) && ValueAt(r.mem, a, t) >= r.target + 1)
            && (forall a: Address | Readable(r, t, s, a) :: a in below || a in above || ValueAt(r.mem, a, t) == r.target)
  {
    SurvivorsPass(mem, r.(comparison := LessThan), t, s);
    SurvivorsPass(mem, r.(comparison := GreaterThan), t, s);
  }

  // ---------------------------------------------------------------- what a first scan selects

  /** Aligned, and in one chunk that can be read. */
  predicate Reachable(mem: Memory, q: Query, t: IntType, a: int)
    requires t.Sized() && q.alignment > 0
  {
    InReadableChunk(mem, q, t, a) && a % q.alignment == 0
  }

  lemma ChunkIsMapped(mem: Memory, q: Query, t: IntType, a: int)
    requires t.Sized() && q.Fits() && InReadableChunk(mem, q, t, a)
    ensures Mapped(mem, a, t.width)
  {
  }

  /** The value at the address is the target of an exact scan, or in the range of a range scan. */
  predicate Wanted(mem: Memory, q: Query, t: IntType, a: int)
    requires Mapped(mem, a, t.width)
  {
    var v := ValueAt(mem, a, t);
    (q.scan == Exact ==> v == q.target) && (q.scan == Range ==> q.target <= v <= q.upper)
  }

  /** A first scan finds every reachable address, as far as its value is wanted. */
  lemma ScanSelects(mem: Memory, q: Query, t: IntType, a: Address)
    requires t.Sized() && q.Fits()
    ensures a in Eligibles(mem, q, t, q.start + q.size).addresses <==>
              Reachable(mem, q, t, a) && Mapped(mem, a, t.width) && Wanted(mem, q, t, a)
  {
    EligiblesAreExact(mem, q, t, q.start + q.size);
    if InReadableChunk(mem, q, t, a) {
      ChunkIsMapped(mem, q, t, a);
    }
  }

  /** What one address gives: a wanted value of one scan is any value of the other that passes the round. */
  lemma WantedIsPassed(mem: Memory, q: Query, t: IntType, r: Round, a: Address)
    requires t.Sized() && q.Fits() && r.mem == mem && r.target == q.target && r.upper == q.upper && Mapped(mem, a, t.width)
    requires (q.scan == Exact && r.comparison == Equal) || (q.scan == Range && r.comparison == Between)
    ensures var unknown := q.(scan := UnknownInitial);
            && (Reachable(mem, q, t, a) <==> Reachable(mem, unknown, t, a)) && Wanted(mem, unknown, t, a)
            && (Wanted(mem, q, t, a) <==> Holds(r.comparison, ValueAt(mem, a, t), ValueAt(mem, a, t), r.target, r.upper))
  {
  }

  lemma SurvivorPasses(mem: Memory, r: Round, t: IntType, s: Snapshot, a: Address)
    requires HoldsValues(mem, s, t)
    ensures a in Survivors(r, t, s) <==>
              Readable(r, t, s, a) && Mapped(mem, a, t.width)
              && Holds(r.comparison, ValueAt(r.mem, a, t), ValueAt(mem, a, t), r.target, r.upper)
  {
    SurvivorsPass(mem, r, t, s);
  }

  /** So an exact scan finds what an unknown scan and then Equal leave on the same memory; a range scan, Between. */
  lemma ScanIsUnknownThenRound(mem: Memory, q: Query, t: IntType, r: Round, a: Address)
    requires t.Valid() && q.Valid() && r.mem == mem && r.target == q.target && r.upper == q.upper
    requires (q.scan == Exact && r.comparison == Equal) || (q.scan == Range && r.comparison == Between)
    ensures var all := Eligibles(mem, q.(scan := UnknownInitial), t, q.start + q.size);
            && |all.addresses| == |all.values|
            && (a in Eligibles(mem, q, t, q.start + q.size).addresses <==> a in Survivors(r, t, all))
  {
    var unknown := q.(scan := UnknownInitial);
    EligiblesHoldValues(mem, unknown, t, q.start + q.size);
    ScanSelects(mem, q, t, a);
    ScanSelects(mem, unknown, t, a);
    SurvivorPasses(mem, r, t, Eligibles(mem, unknown, t, q.start + q.size), a);
    if Mapped(mem, a, t.width) {
      WantedIsPassed(mem, q, t, r, a);
    }
  }
}
