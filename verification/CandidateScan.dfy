/**
  Value scanning: first_scan over chunks that do not overlap, against the test of every address. Values are
  integers of 1, 2, 4 or 8 bytes, little-endian.
*/
module CandidateScan {
  import opened Common
  import opened ByteMemory

  const CHUNK: nat := 0x1_0000

  /** The scanned type T. */
  datatype IntType = IntType(width: nat, signed: bool) {
    predicate Valid() {
      width == 1 || width == 2 || width == 4 || width == 8
    }

    predicate Sized() {
      1 <= width <= 8
    }
  }

  datatype Comparison = Equal | Changed | Unchanged | Increased | Decreased | GreaterThan | LessThan | Between

  datatype ScanType = Exact | Range | UnknownInitial

  datatype Snapshot = Snapshot(addresses: seq<Address>, values: seq<int>)

  function HalfRange(width: nat): int {
    if width == 0 then 1 else if width == 1 then 128 else 256 * HalfRange(width - 1)
  }

  /** The value of the type's bytes: two's complement for a signed type. */
  function ValueOf(bytes: seq<Byte>, t: IntType): int {
    var v := FromBytes(bytes);
    if t.signed && v >= HalfRange(t.width) then v - 2 * HalfRange(t.width) else v
  }

  /** The values of the type. */
  predicate InType(v: int, t: IntType) {
    var all: int := Power256(t.width);
    if t.signed then -all <= 2 * v < all else 0 <= v < all
  }

  /** The bytes of a value: little-endian, two's complement. */
  function Image(v: int, t: IntType): seq<Byte>
    requires InType(v, t)
  {
    ToBytes(if v < 0 then v + Power256(t.width) else v, t.width)
  }

  lemma {:induction false} TwoHalves(width: nat)
    requires width > 0
    ensures 2 * HalfRange(width) == Power256(width)
  {
    if width > 1 {
      TwoHalves(width - 1);
    } else {
      assert Power256(1) == 256 * Power256(0);
    }
  }

  /** The bytes of a value of the type are read as that value. */
  lemma ImageIsRead(v: int, t: IntType)
    requires t.Sized() && InType(v, t)
    ensures |Image(v, t)| == t.width && ValueOf(Image(v, t), t) == v
  {
    TwoHalves(t.width);
    ValueOfBytesOfValue(if v < 0 then v + Power256(t.width) else v, t.width);
  }

  predicate Holds(c: Comparison, now: int, old_: int, target: int, upper: int) {
    match c
    case Equal => now == target
    case Changed => now != old_
    case Unchanged => now == old_
    case Increased => now > old_
    case Decreased => now < old_
    case GreaterThan => now > target
    case LessThan => now < target
    case Between => target <= now <= upper
  }

  predicate Selects(s: ScanType, value: int, target: int, upper: int) {
    match s
    case Exact => value == target
    case Range => target <= value <= upper
    case UnknownInitial => true
  }

  // ---------------------------------------------------------------- powers of two

  /** Bitwise and of two non-negative integers. */
  function BitAnd(a: nat, b: nat): nat {
    if a == 0 || b == 0 then 0 else (a % 2) * (b % 2) + 2 * BitAnd(a / 2, b / 2)
  }

  predicate PowerOfTwo(n: nat) {
    n == 1 || (n > 1 && n % 2 == 0 && PowerOfTwo(n / 2))
  }

  lemma {:induction false} AndWithItself(n: nat)
    ensures BitAnd(n, n) == n
  {
    if n > 0 {
      AndWithItself(n / 2);
      assert (n % 2) * (n % 2) == n % 2;
    }
  }

  /** The bit trick of first_scan: n & (n - 1) is 0 for exactly the powers of two. */
  lemma {:induction false} PowerOfTwoTest(n: nat)
    requires n > 0
    ensures BitAnd(n, n - 1) == 0 <==> PowerOfTwo(n)
  {
    if n > 1 {
      if n % 2 == 0 {
        assert (n - 1) / 2 == n / 2 - 1 && (n - 1) % 2 == 1;
        PowerOfTwoTest(n / 2);
      } else {
        assert (n - 1) / 2 == n / 2 && (n - 1) % 2 == 0;
        AndWithItself(n / 2);
      }
    }
  }

  /** Of two powers of two the smaller divides the larger. */
  lemma {:induction false} SmallerDivides(a: nat, n: nat) returns (q: nat)
    requires PowerOfTwo(a) && PowerOfTwo(n) && a <= n
    ensures n == q * a
  {
    if a == 1 {
      q := n;
    } else {
      q := SmallerDivides(a / 2, n / 2);
      assert n == 2 * (q * (a / 2));
    }
  }

  // ---------------------------------------------------------------- first scan

  datatype Query = Query(start: Address, size: nat, scan: ScanType, target: int, upper: int, alignment: nat) {
    /** The arguments first_scan does not refuse. */
    predicate Valid() {
      start != 0 && PowerOfTwo(alignment) && Fits()
    }

    predicate Fits() {
      size > 0 && alignment > 0 && start <= MAX_ADDRESS - size
    }

    function ChunkAt(offset: nat): nat
      requires offset <= size
    {
      if size - offset < CHUNK then size - offset else CHUNK
    }
  }

  /** The value at an address, in memory where all its bytes are mapped. */
  function ValueAt(mem: Memory, a: int, t: IntType): int
    requires Mapped(mem, a, t.width)
  {
    ValueOf(Window(mem, a, t.width), t)
  }

  /** The value's window at a lies in one chunk, and that chunk can be read. */
  predicate InReadableChunk(mem: Memory, q: Query, t: IntType, a: int)
    requires t.Sized()
  {
    q.start <= a < q.start + q.size &&
    var offset := (a - q.start) / CHUNK * CHUNK;
    a - q.start + t.width <= offset + q.ChunkAt(offset) && Mapped(mem, q.start + offset, q.ChunkAt(offset))
  }

  predicate Hit(mem: Memory, q: Query, t: IntType, a: int)
    requires t.Sized() && q.alignment > 0
  {
    a % q.alignment == 0 && Mapped(mem, a, t.width) && Selects(q.scan, ValueAt(mem, a, t), q.target, q.upper)
  }

  /** What first_scan is meant to find at one address. */
  predicate Eligible(mem: Memory, q: Query, t: IntType, a: int)
    requires t.Sized() && q.alignment > 0
  {
    InReadableChunk(mem, q, t, a) && Hit(mem, q, t, a)
  }

  function Push(s: Snapshot, a: Address, value: int): Snapshot {
    Snapshot(s.addresses + [a], s.values + [value])
  }

  /** The first n candidates. */
  function First(s: Snapshot, n: nat): Snapshot {
    Snapshot(Take(s.addresses, n), Take(s.values, n))
  }

  /** All eligible addresses from the start of the range up to but not including hi, tested one by one, with their values. */
  function Eligibles(mem: Memory, q: Query, t: IntType, hi: int): Snapshot
    requires t.Sized() && q.alignment > 0
    decreases hi - q.start
  {
    if hi <= q.start then Snapshot([], [])
    else
      var below := Eligibles(mem, q, t, hi - 1);
      if Eligible(mem, q, t, hi - 1) && hi <= ADDRESS_SPACE then Push(below, hi - 1, ValueAt(mem, hi - 1, t)) else below
  }

  lemma {:induction false} EligiblesAreExact(mem: Memory, q: Query, t: IntType, hi: int)
    requires t.Sized() && q.Fits() && hi <= q.start + q.size
    ensures var found := Eligibles(mem, q, t, hi).addresses;
            (forall a :: a in found <==> q.start <= a < hi && Eligible(mem, q, t, a)) && Ascending(found)
    decreases hi - q.start
  {
    if q.start < hi {
      EligiblesAreExact(mem, q, t, hi - 1);
      var front := Eligibles(mem, q, t, hi - 1).addresses;
      assert forall i | 0 <= i < |front| :: front[i] in front;
    }
  }

  lemma {:induction false} EligiblesHoldValues(mem: Memory, q: Query, t: IntType, hi: int)
    requires t.Sized() && q.alignment > 0
    ensures HoldsValues(mem, Eligibles(mem, q, t, hi), t)
    decreases hi - q.start
  {
    if q.start < hi {
      EligiblesHoldValues(mem, q, t, hi - 1);
    }
  }

  predicate Ascending(addresses: seq<Address>) {
    forall i, j | 0 <= i < j < |addresses| :: addresses[i] < addresses[j]
  }

  /** Each stored value is the one in memory. */
  predicate HoldsValues(mem: Memory, s: Snapshot, t: IntType) {
    && |s.values| == |s.addresses|
    && forall i | 0 <= i < |s.addresses| :: Mapped(mem, s.addresses[i], t.width) && s.values[i] == ValueAt(mem, s.addresses[i], t)
  }

  predicate IsPrefix(s: Snapshot, r: Snapshot) {
    s.addresses <= r.addresses && s.values <= r.values
  }

  lemma {:induction false} EligiblesPrefix(mem: Memory, q: Query, t: IntType, mid: int, hi: int)
    requires t.Sized() && q.alignment > 0 && mid <= hi
    ensures IsPrefix(Eligibles(mem, q, t, mid), Eligibles(mem, q, t, hi))
    decreases hi - mid
  {
    if mid < hi {
      EligiblesPrefix(mem, q, t, mid, hi - 1);
    }
  }

  /** A stretch without eligible addresses adds nothing. */
  lemma {:induction false} NoneBetween(mem: Memory, q: Query, t: IntType, mid: int, hi: int)
    requires t.Sized() && q.alignment > 0 && mid <= hi
    requires forall a | mid <= a < hi :: !Eligible(mem, q, t, a)
    ensures Eligibles(mem, q, t, mid) == Eligibles(mem, q, t, hi)
    decreases hi - mid
  {
    if mid < hi {
      NoneBetween(mem, q, t, mid, hi - 1);
    }
  }

  // ---------------------------------------------------------------- the chunk loop

  /** Every byte before the offset's chunk belongs to that chunk or to none. */
  lemma ChunkOf(q: Query, offset: nat, a: int)
    requires offset % CHUNK == 0 && q.start + offset <= a < q.start + offset + CHUNK
    ensures (a - q.start) / CHUNK * CHUNK == offset
  {
  }

  /** In a chunk that was read, eligible means aligned and selected, for every window inside the chunk. */
  lemma InChunk(mem: Memory, q: Query, t: IntType, offset: nat, i: nat)
    requires t.Sized() && q.Fits() && offset % CHUNK == 0 && offset < q.size
    requires Mapped(mem, q.start + offset, q.ChunkAt(offset)) && i + t.width <= q.ChunkAt(offset)
    ensures Mapped(mem, q.start + offset + i, t.width)
    ensures Eligible(mem, q, t, q.start + offset + i) <==>
            (q.start + offset + i) % q.alignment == 0
            && Selects(q.scan, ValueAt(mem, q.start + offset + i, t), q.target, q.upper)
  {
    ChunkOf(q, offset, q.start + offset + i);
  }

  /** A chunk that cannot be read, and the end of one that can, hold nothing eligible. */
  lemma NothingLeft(mem: Memory, q: Query, t: IntType, offset: nat, lo: int, hi: int)
    requires t.Sized() && q.Fits() && offset % CHUNK == 0 && offset < q.size
    requires q.start + offset <= lo <= hi == q.start + offset + q.ChunkAt(offset)
    requires !Mapped(mem, q.start + offset, q.ChunkAt(offset)) || lo + t.width > hi
    ensures forall a | lo <= a < hi :: !Eligible(mem, q, t, a)
  {
    forall a | lo <= a < hi ensures !Eligible(mem, q, t, a) {
      ChunkOf(q, offset, a);
    }
  }

  // ---------------------------------------------------------------- the loops as functions

  /** The snapshot after the first i positions of a chunk. */
  function AfterItems(q: Query, t: IntType, chunk: int, bytes: seq<Byte>, i: nat, before: Snapshot, max: nat): Snapshot
    requires q.alignment > 0 && (i == 0 || i + t.width <= |bytes| + 1) && 0 <= chunk && chunk + |bytes| <= ADDRESS_SPACE && t.Sized()
  {
    if i == 0 then before
    else Turn(q, t, chunk, bytes, i - 1, AfterItems(q, t, chunk, bytes, i - 1, before, max), max)
  }

  function WithItem(q: Query, t: IntType, item: Address, bytes: seq<Byte>, s: Snapshot): Snapshot
    requires q.alignment > 0
  {
    if item % q.alignment == 0 && Selects(q.scan, ValueOf(bytes, t), q.target, q.upper) then Push(s, item, ValueOf(bytes, t)) else s
  }

  /** One turn of the item loop. */
  function Turn(q: Query, t: IntType, chunk: int, bytes: seq<Byte>, k: nat, s: Snapshot, max: nat): Snapshot
    requires q.alignment > 0 && k + t.width <= |bytes| && 0 <= chunk && chunk + |bytes| <= ADDRESS_SPACE && t.Sized()
  {
    if |s.addresses| >= max then s else WithItem(q, t, chunk + k, bytes[k..k + t.width], s)
  }

  lemma {:induction false} FullStaysFull(q: Query, t: IntType, chunk: int, bytes: seq<Byte>, i: nat, j: nat, before: Snapshot, max: nat)
    requires q.alignment > 0 && t.Sized() && i <= j && (j == 0 || j + t.width <= |bytes| + 1) && 0 <= chunk && chunk + |bytes| <= ADDRESS_SPACE
    requires |AfterItems(q, t, chunk, bytes, i, before, max).addresses| >= max
    ensures AfterItems(q, t, chunk, bytes, j, before, max) == AfterItems(q, t, chunk, bytes, i, before, max)
  {
    if i < j {
      FullStaysFull(q, t, chunk, bytes, i, j - 1, before, max);
    }
  }

  /** The rest of the scan from a chunk on. */
  function ScanFrom(mem: Memory, q: Query, t: IntType, max: nat, offset: nat, s: Snapshot): Snapshot
    requires t.Sized() && q.Fits() && offset <= q.size
    decreases q.size - offset
  {
    if offset == q.size || |s.addresses| >= max || q.ChunkAt(offset) < t.width then s
    else ScanFrom(mem, q, t, max, offset + q.ChunkAt(offset), WithChunk(mem, q, t, max, offset, s))
  }

  function WithChunk(mem: Memory, q: Query, t: IntType, max: nat, offset: nat, s: Snapshot): Snapshot
    requires t.Sized() && q.Fits() && offset <= q.size && t.width <= q.ChunkAt(offset)
  {
    var chunk := q.start + offset;
    var bytes := Load(mem, chunk, q.ChunkAt(offset));
    if bytes.Failure? then s
    else AfterItems(q, t, chunk, bytes.value, |bytes.value| - t.width + 1, s, max)
  }

  lemma ScanStep(mem: Memory, q: Query, t: IntType, max: nat, offset: nat, s: Snapshot)
    requires t.Sized() && q.Fits() && offset < q.size && |s.addresses| < max && t.width <= q.ChunkAt(offset)
    ensures ScanFrom(mem, q, t, max, offset, s)
         == ScanFrom(mem, q, t, max, offset + q.ChunkAt(offset), WithChunk(mem, q, t, max, offset, s))
  {
  }

  class Scanner {
    const backend: ByteMapBackend

    constructor (backend: ByteMapBackend)
      ensures this.backend == backend
    {
      this.backend := backend;
    }

    /** The item loop over one chunk that was read. */
    method ScanChunk(q: Query, t: IntType, chunk: Address, bytes: seq<Byte>, before: Snapshot, max: nat) returns (snapshot: Snapshot)
      requires q.alignment > 0 && t.Sized() && t.width <= |bytes| && chunk + |bytes| <= ADDRESS_SPACE
      ensures snapshot == AfterItems(q, t, chunk, bytes, |bytes| - t.width + 1, before, max)
    {
      snapshot := before;
      var limit := |bytes| - t.width;
      var i := 0;
      while i <= limit && |snapshot.addresses| < max
        invariant 0 <= i <= limit + 1
        invariant snapshot == AfterItems(q, t, chunk, bytes, i, before, max)
      {
        var item := chunk + i;
        if item % q.alignment == 0 {
          var value := ValueOf(bytes[i..i + t.width], t);
          if Selects(q.scan, value, q.target, q.upper) {
            snapshot := Push(snapshot, item, value);
          }
        }
        i := i + 1;
      }
      if i <= limit {
        FullStaysFull(q, t, chunk, bytes, i, limit + 1, before, max);
      }
    }

    method ScanOneChunk(q: Query, t: IntType, max: nat, offset: nat, before: Snapshot) returns (snapshot: Snapshot)
      requires t.Sized() && q.Fits() && TurnAt(q, t, offset)
      ensures snapshot == WithChunk(backend.memory, q, t, max, offset, before)
    {
      snapshot := before;
      var bytes := backend.Read(q.start + offset, q.ChunkAt(offset));
      if bytes.Success? {
        snapshot := ScanChunk(q, t, q.start + offset, bytes.value, before, max);
      }
    }

    /** The chunk loop: a chunk that cannot be read is skipped. */
    method ScanRange(q: Query, t: IntType, max: nat) returns (snapshot: Snapshot)
      requires t.Sized() && q.Fits()
      ensures snapshot == ScanFrom(backend.memory, q, t, max, 0, Snapshot([], []))
    {
      snapshot := Snapshot([], []);
      ghost var all := ScanFrom(backend.memory, q, t, max, 0, snapshot);
      var offset := 0;
      while offset < q.size && |snapshot.addresses| < max
        invariant AtChunk(q, offset)
        invariant all == ScanFrom(backend.memory, q, t, max, offset, snapshot)
        decreases q.size - offset
      {
        var size := q.ChunkAt(offset);
        if size < t.width {
          break;
        }
        ScanStep(backend.memory, q, t, max, offset, snapshot);
        NextOffset(q, offset);
        snapshot := ScanOneChunk(q, t, max, offset, snapshot);
        offset := offset + size;
      }
    }

    /** The scan finds the first max eligible addresses, and their values; memory that cannot be read is no error. */
    method FirstScan(q: Query, t: IntType, max: nat) returns (r: Result<Snapshot>)
      requires t.Valid()
      ensures q.start == 0 || q.size == 0 || max == 0 || !PowerOfTwo(q.alignment) ==> r == Failure(InvalidSize)
      ensures q.start != 0 && q.size != 0 && max != 0 && PowerOfTwo(q.alignment) && !q.Valid() ==> r == Failure(InvalidAddress)
      ensures q.Valid() && max != 0 ==> r == Success(First(Eligibles(backend.memory, q, t, q.start + q.size), max))
    {
      if q.start == 0 || q.size == 0 || max == 0 {
        return Failure(InvalidSize);
      }
      if q.alignment > 0 {
        PowerOfTwoTest(q.alignment);
      }
      if q.alignment == 0 || BitAnd(q.alignment, q.alignment - 1) != 0 {
        return Failure(InvalidSize);
      }
      if q.start > MAX_ADDRESS - q.size {
        return Failure(InvalidAddress);
      }
      var snapshot := ScanRange(q, t, max);
      ScanFindsFirst(backend.memory, q, t, max);
      return Success(snapshot);
    }
  }

  // ---------------------------------------------------------------- the loops find what the naive search finds

  /** The snapshot holds every eligible address below hi, and no more than max of them. */
  predicate Found(mem: Memory, q: Query, t: IntType, hi: int, snapshot: Snapshot, max: nat)
    requires t.Sized() && q.alignment > 0
  {
    snapshot == Eligibles(mem, q, t, hi) && |snapshot.addresses| <= max
  }

  lemma RestFound(mem: Memory, q: Query, t: IntType, offset: nat, lo: int, hi: int, snapshot: Snapshot, max: nat)
    requires t.Sized() && q.Fits() && offset % CHUNK == 0 && offset < q.size
    requires q.start + offset <= lo <= hi == q.start + offset + q.ChunkAt(offset)
    requires !Mapped(mem, q.start + offset, q.ChunkAt(offset)) || lo + t.width > hi
    requires Found(mem, q, t, lo, snapshot, max)
    ensures Found(mem, q, t, hi, snapshot, max)
  {
    NothingLeft(mem, q, t, offset, lo, hi);
    NoneBetween(mem, q, t, lo, hi);
  }

  predicate IsChunk(mem: Memory, q: Query, t: IntType, offset: nat, bytes: seq<Byte>) {
    && t.Sized() && q.Fits() && offset % CHUNK == 0 && offset < q.size && t.width <= q.ChunkAt(offset) == |bytes|
    && Mapped(mem, q.start + offset, |bytes|) && bytes == Window(mem, q.start + offset, |bytes|)
  }

  lemma NextItem(mem: Memory, q: Query, t: IntType, offset: nat, bytes: seq<Byte>, i: nat, item: int, s: Snapshot, max: nat)
    requires IsChunk(mem, q, t, offset, bytes) && i + t.width <= |bytes| && item == q.start + offset + i
    requires Found(mem, q, t, item, s, max) && |s.addresses| < max
    ensures Found(mem, q, t, item + 1, WithItem(q, t, item, bytes[i..i + t.width], s), max)
  {
    InChunk(mem, q, t, offset, i);
    assert bytes[i..i + t.width] == Window(mem, item, t.width);
  }

  /** The scan may stop at the end of the range, or once it has max candidates. */
  lemma AllFound(mem: Memory, q: Query, t: IntType, hi: int, snapshot: Snapshot, max: nat)
    requires t.Sized() && q.Fits() && Found(mem, q, t, hi, snapshot, max)
    requires hi == q.start + q.size || (hi <= q.start + q.size && |snapshot.addresses| >= max)
    ensures snapshot == First(Eligibles(mem, q, t, q.start + q.size), max)
  {
    EligiblesPrefix(mem, q, t, hi, q.start + q.size);
    EligiblesHoldValues(mem, q, t, hi);
    EligiblesHoldValues(mem, q, t, q.start + q.size);
  }

  /** All eligible addresses below hi, or the first max of them. */
  ghost predicate FoundUpTo(mem: Memory, q: Query, t: IntType, hi: int, s: Snapshot, max: nat)
    requires t.Sized() && q.alignment > 0
  {
    Found(mem, q, t, hi, s, max) || (|s.addresses| >= max && exists h :: h <= hi && Found(mem, q, t, h, s, max))
  }

  lemma FullUpTo(mem: Memory, q: Query, t: IntType, lo: int, hi: int, s: Snapshot, max: nat)
    requires t.Sized() && q.alignment > 0 && FoundUpTo(mem, q, t, lo, s, max) && |s.addresses| >= max && lo <= hi
    ensures FoundUpTo(mem, q, t, hi, s, max)
  {
    if Found(mem, q, t, lo, s, max) {
    } else {
      var h :| h <= lo && Found(mem, q, t, h, s, max);
    }
  }

  lemma OneItem(mem: Memory, q: Query, t: IntType, offset: nat, bytes: seq<Byte>, i: nat, item: int, s: Snapshot, max: nat)
    requires IsChunk(mem, q, t, offset, bytes) && i + t.width <= |bytes| && item == q.start + offset + i
    requires FoundUpTo(mem, q, t, item, s, max)
    ensures FoundUpTo(mem, q, t, item + 1, Turn(q, t, q.start + offset, bytes, i, s, max), max)
  {
    if |s.addresses| < max {
      NextItem(mem, q, t, offset, bytes, i, item, s, max);
    } else {
      FullUpTo(mem, q, t, item, item + 1, s, max);
    }
  }

  /** What one turn of the item loop keeps, all of them keep. */
  lemma {:induction false} ItemsKeep(q: Query, t: IntType, chunk: int, bytes: seq<Byte>, i: nat, before: Snapshot, max: nat,
                                     keeps: (int, Snapshot) -> bool)
    requires q.alignment > 0 && t.Sized() && i + t.width <= |bytes| + 1 && 0 <= chunk && chunk + |bytes| <= ADDRESS_SPACE
    requires keeps(0, before)
    requires forall k: nat, s | k < i && keeps(k, s) :: keeps(k + 1, Turn(q, t, chunk, bytes, k, s, max))
    ensures keeps(i, AfterItems(q, t, chunk, bytes, i, before, max))
  {
    if i > 0 {
      ItemsKeep(q, t, chunk, bytes, i - 1, before, max, keeps);
      assert keeps(i - 1, AfterItems(q, t, chunk, bytes, i - 1, before, max));
    }
  }

  /** The item loop's invariant at position k of the chunk. */
  ghost function FoundAt(mem: Memory, q: Query, t: IntType, chunk: int, max: nat): (int, Snapshot) -> bool
    requires t.Sized() && q.alignment > 0
  {
    (k, s) => FoundUpTo(mem, q, t, chunk + k, s, max)
  }

  lemma FoundAtMeans(mem: Memory, q: Query, t: IntType, chunk: int, max: nat, k: int, s: Snapshot)
    requires t.Sized() && q.alignment > 0
    ensures FoundAt(mem, q, t, chunk, max)(k, s) <==> FoundUpTo(mem, q, t, chunk + k, s, max)
  {
  }

  lemma TurnsKeep(mem: Memory, q: Query, t: IntType, offset: nat, bytes: seq<Byte>, i: nat, chunk: int, max: nat)
    requires IsChunk(mem, q, t, offset, bytes) && i + t.width <= |bytes| + 1 && chunk == q.start + offset
    ensures forall k: nat, s | k < i && FoundAt(mem, q, t, chunk, max)(k, s) ::
              FoundAt(mem, q, t, chunk, max)(k + 1, Turn(q, t, chunk, bytes, k, s, max))
  {
    forall k: nat, s | k < i && FoundAt(mem, q, t, chunk, max)(k, s)
      ensures FoundAt(mem, q, t, chunk, max)(k + 1, Turn(q, t, chunk, bytes, k, s, max))
    {
      OneItem(mem, q, t, offset, bytes, k, chunk + k, s, max);
    }
  }

  lemma ItemsFind(mem: Memory, q: Query, t: IntType, offset: nat, bytes: seq<Byte>, i: nat, chunk: int, before: Snapshot, max: nat)
    requires IsChunk(mem, q, t, offset, bytes) && i + t.width <= |bytes| + 1 && chunk == q.start + offset
    requires FoundUpTo(mem, q, t, chunk, before, max)
    ensures FoundUpTo(mem, q, t, chunk + i, AfterItems(q, t, chunk, bytes, i, before, max), max)
  {
    TurnsKeep(mem, q, t, offset, bytes, i, chunk, max);
    FoundAtMeans(mem, q, t, chunk, max, 0, before);
    ItemsKeep(q, t, chunk, bytes, i, before, max, FoundAt(mem, q, t, chunk, max));
    FoundAtMeans(mem, q, t, chunk, max, i, AfterItems(q, t, chunk, bytes, i, before, max));
  }

  /** The end of a chunk, or all of one that cannot be read, is passed over. */
  lemma RestUpTo(mem: Memory, q: Query, t: IntType, offset: nat, lo: int, hi: int, s: Snapshot, max: nat)
    requires t.Sized() && q.Fits() && offset % CHUNK == 0 && offset < q.size
    requires q.start + offset <= lo <= hi == q.start + offset + q.ChunkAt(offset)
    requires !Mapped(mem, q.start + offset, q.ChunkAt(offset)) || lo + t.width > hi
    requires FoundUpTo(mem, q, t, lo, s, max)
    ensures FoundUpTo(mem, q, t, hi, s, max)
  {
    if |s.addresses| < max {
      RestFound(mem, q, t, offset, lo, hi, s, max);
    } else {
      FullUpTo(mem, q, t, lo, hi, s, max);
    }
  }

  predicate AtChunk(q: Query, offset: int) {
    0 <= offset <= q.size && (offset % CHUNK == 0 || offset == q.size)
  }

  lemma NextOffset(q: Query, offset: nat)
    requires AtChunk(q, offset) && offset < q.size
    ensures AtChunk(q, offset + q.ChunkAt(offset))
  {
  }

  /** A turn of the chunk loop happens at this offset. */
  predicate TurnAt(q: Query, t: IntType, offset: int) {
    AtChunk(q, offset) && offset < q.size && t.width <= q.ChunkAt(offset)
  }

  lemma ReadChunkFinds(mem: Memory, q: Query, t: IntType, max: nat, offset: nat, chunk: int, bytes: seq<Byte>, s: Snapshot)
    requires IsChunk(mem, q, t, offset, bytes) && chunk == q.start + offset && FoundUpTo(mem, q, t, chunk, s, max)
    ensures var count := |bytes| - t.width + 1;
            FoundUpTo(mem, q, t, chunk + |bytes|, AfterItems(q, t, chunk, bytes, count, s, max), max)
  {
    var count := |bytes| - t.width + 1;
    ItemsFind(mem, q, t, offset, bytes, count, chunk, s, max);
    RestUpTo(mem, q, t, offset, chunk + count, chunk + |bytes|, AfterItems(q, t, chunk, bytes, count, s, max), max);
  }

  lemma ReadChunkIsChunk(mem: Memory, q: Query, t: IntType, offset: nat, bytes: seq<Byte>)
    requires t.Sized() && q.Fits() && TurnAt(q, t, offset) && Load(mem, q.start + offset, q.ChunkAt(offset)) == Success(bytes)
    ensures IsChunk(mem, q, t, offset, bytes) && |bytes| == q.ChunkAt(offset)
  {
  }

  lemma UnreadableChunkFinds(mem: Memory, q: Query, t: IntType, max: nat, offset: nat, end: int, s: Snapshot)
    requires t.Sized() && q.Fits() && TurnAt(q, t, offset) && end == q.start + offset + q.ChunkAt(offset)
    requires Load(mem, q.start + offset, q.ChunkAt(offset)).Failure? && FoundUpTo(mem, q, t, q.start + offset, s, max)
    ensures FoundUpTo(mem, q, t, end, s, max)
  {
    assert !Mapped(mem, q.start + offset, q.ChunkAt(offset));
    RestUpTo(mem, q, t, offset, q.start + offset, end, s, max);
  }

  lemma ChunkFinds(mem: Memory, q: Query, t: IntType, max: nat, offset: nat, chunk: int, end: int, s: Snapshot)
    requires t.Sized() && q.Fits() && TurnAt(q, t, offset)
    requires chunk == q.start + offset && end == chunk + q.ChunkAt(offset)
    requires FoundUpTo(mem, q, t, chunk, s, max)
    ensures FoundUpTo(mem, q, t, end, WithChunk(mem, q, t, max, offset, s), max)
  {
    var bytes := Load(mem, chunk, q.ChunkAt(offset));
    if bytes.Success? {
      ReadChunkIsChunk(mem, q, t, offset, bytes.value);
      ReadChunkFinds(mem, q, t, max, offset, chunk, bytes.value, s);
    } else {
      UnreadableChunkFinds(mem, q, t, max, offset, end, s);
    }
  }

  /** What one turn of the chunk loop keeps holds where the loop stops. */
  lemma {:induction false} ChunksKeep(mem: Memory, q: Query, t: IntType, max: nat, offset: nat, s: Snapshot,
                                      keeps: (int, Snapshot) -> bool) returns (stop: nat)
    requires t.Sized() && q.Fits() && AtChunk(q, offset) && keeps(offset, s)
    requires forall o: nat, r | TurnAt(q, t, o) && keeps(o, r) :: keeps(o + q.ChunkAt(o), WithChunk(mem, q, t, max, o, r))
    ensures AtChunk(q, stop) && keeps(stop, ScanFrom(mem, q, t, max, offset, s))
    ensures TurnAt(q, t, stop) ==> |ScanFrom(mem, q, t, max, offset, s).addresses| >= max
    decreases q.size - offset
  {
    if TurnAt(q, t, offset) && |s.addresses| < max {
      ScanStep(mem, q, t, max, offset, s);
      NextOffset(q, offset);
      stop := ChunksKeep(mem, q, t, max, offset + q.ChunkAt(offset), WithChunk(mem, q, t, max, offset, s), keeps);
    } else {
      stop := offset;
    }
  }

  lemma ChunkTurnsKeep(mem: Memory, q: Query, t: IntType, max: nat)
    requires t.Sized() && q.Fits()
    ensures forall o: nat, r | TurnAt(q, t, o) && FoundAt(mem, q, t, q.start, max)(o, r) ::
              FoundAt(mem, q, t, q.start, max)(o + q.ChunkAt(o), WithChunk(mem, q, t, max, o, r))
  {
    forall o: nat, r | TurnAt(q, t, o) && FoundAt(mem, q, t, q.start, max)(o, r)
      ensures FoundAt(mem, q, t, q.start, max)(o + q.ChunkAt(o), WithChunk(mem, q, t, max, o, r))
    {
      var chunk := q.start + o;
      ChunkFinds(mem, q, t, max, o, chunk, chunk + q.ChunkAt(o), r);
    }
  }

  lemma NothingFoundYet(mem: Memory, q: Query, t: IntType, max: nat)
    requires t.Sized() && q.Fits()
    ensures FoundAt(mem, q, t, q.start, max)(0, Snapshot([], []))
  {
    assert Eligibles(mem, q, t, q.start) == Snapshot([], []);
    assert FoundUpTo(mem, q, t, q.start + 0, Snapshot([], []), max);
  }

  lemma ScanFindsFirst(mem: Memory, q: Query, t: IntType, max: nat)
    requires t.Sized() && q.Fits()
    ensures ScanFrom(mem, q, t, max, 0, Snapshot([], [])) == First(Eligibles(mem, q, t, q.start + q.size), max)
  {
    var end, empty := q.start + q.size, Snapshot([], []);
    ChunkTurnsKeep(mem, q, t, max);
    NothingFoundYet(mem, q, t, max);
    var stop := ChunksKeep(mem, q, t, max, 0, empty, FoundAt(mem, q, t, q.start, max));
    var s := ScanFrom(mem, q, t, max, 0, empty);
    assert FoundUpTo(mem, q, t, q.start + stop, s, max);
    if !TurnAt(q, t, stop) && stop < q.size {
      RestUpTo(mem, q, t, stop, q.start + stop, end, s, max);
      ScanStops(mem, q, t, end, s, max);
    } else {
      ScanStops(mem, q, t, q.start + stop, s, max);
    }
  }

  lemma ScanStops(mem: Memory, q: Query, t: IntType, hi: int, s: Snapshot, max: nat)
    requires t.Sized() && q.Fits() && hi <= q.start + q.size && FoundUpTo(mem, q, t, hi, s, max)
    requires hi == q.start + q.size || |s.addresses| >= max
    ensures s == First(Eligibles(mem, q, t, q.start + q.size), max)
  {
    if Found(mem, q, t, hi, s, max) {
      AllFound(mem, q, t, hi, s, max);
    } else {
      var h :| h <= hi && Found(mem, q, t, h, s, max);
      AllFound(mem, q, t, h, s, max);
    }
  }

  // ---------------------------------------------------------------- what the chunks miss

  /** Tested against the whole range, as if it were not cut into chunks. */
  predicate Plain(mem: Memory, q: Query, t: IntType, a: int)
    requires t.Sized() && q.alignment > 0
  {
    q.start <= a && a + t.width <= q.start + q.size && Hit(mem, q, t, a)
  }

  /** The window at a begins in one chunk and ends in the next. */
  predicate Straddles(q: Query, t: IntType, a: int) {
    (a - q.start) % CHUNK + t.width > CHUNK
  }

  /** When the whole range can be read, the windows that straddle two chunks are all that first_scan misses. */
  lemma OnlyStraddlersAreMissed(mem: Memory, q: Query, t: IntType, a: int)
    requires t.Sized() && q.Fits() && Mapped(mem, q.start, q.size)
    ensures Eligible(mem, q, t, a) <==> Plain(mem, q, t, a) && !Straddles(q, t, a)
  {
    if q.start <= a < q.start + q.size {
      var offset := (a - q.start) / CHUNK * CHUNK;
      assert a - q.start == offset + (a - q.start) % CHUNK;
      assert Mapped(mem, q.start + offset, q.ChunkAt(offset));
    }
  }

  /** With an aligned start and an alignment no smaller than the value, no aligned window straddles. */
  lemma AlignedNeverStraddles(q: Query, t: IntType, a: int)
    requires t.Valid() && q.Valid() && q.start % t.width == 0 && q.alignment >= t.width
    requires a % q.alignment == 0
    ensures !Straddles(q, t, a)
  {
    WidthIsPowerOfTwo(t);
    var m := SmallerDivides(t.width, q.alignment);
    var k := a / q.alignment;
    assert a == q.alignment * k;
    Regroup(m, t.width, k);
    MultipleOfWidth(t, a, m * k);
    RemainderLeavesRoom(t, a, q.start);
  }

  lemma WidthIsPowerOfTwo(t: IntType)
    requires t.Valid()
    ensures PowerOfTwo(t.width)
  {
    assert PowerOfTwo(1) && PowerOfTwo(2) && PowerOfTwo(4);
  }

  lemma Regroup(x: int, y: int, z: int)
    ensures (x * y) * z == y * (x * z)
  {
  }

  lemma MultipleOfWidth(t: IntType, a: int, k: int)
    requires t.Valid() && a == t.width * k
    ensures a % t.width == 0
  {
    if t.width == 2 {
      assert a == 2 * k;
    } else if t.width == 4 {
      assert a == 4 * k;
    } else if t.width == 8 {
      assert a == 8 * k;
    }
  }

  /** The chunk size is a multiple of the width, so the offset of an aligned address in its chunk is one too. */
  lemma RemainderLeavesRoom(t: IntType, a: int, start: int)
    requires t.Valid() && a % t.width == 0 && start % t.width == 0
    ensures (a - start) % CHUNK + t.width <= CHUNK
  {
    if t.width == 2 {
      RoomForTwo(a - start);
    } else if t.width == 4 {
      RoomForFour(a - start);
    } else if t.width == 8 {
      RoomForEight(a - start);
    }
  }

  lemma RoomForTwo(d: int)
    requires d % 2 == 0
    ensures d % CHUNK + 2 <= CHUNK
  {
    assert d % CHUNK % 2 == 0;
  }

  lemma RoomForFour(d: int)
    requires d % 4 == 0
    ensures d % CHUNK + 4 <= CHUNK
  {
    assert d % CHUNK % 4 == 0;
  }

  lemma RoomForEight(d: int)
    requires d % 8 == 0
    ensures d % CHUNK + 8 <= CHUNK
  {
    assert d % CHUNK % 8 == 0;
  }

  /** Then the scan finds exactly what testing every address of the range finds, in order. */
  lemma AlignedScanIsComplete(mem: Memory, q: Query, t: IntType)
    requires t.Valid() && q.Valid() && q.start % t.width == 0 && q.alignment >= t.width
    requires Mapped(mem, q.start, q.size)
    ensures var found := Eligibles(mem, q, t, q.start + q.size).addresses;
            (forall a :: a in found <==> Plain(mem, q, t, a)) && Ascending(found)
  {
    EligiblesAreExact(mem, q, t, q.start + q.size);
    var found := Eligibles(mem, q, t, q.start + q.size).addresses;
    forall a ensures a in found <==> Plain(mem, q, t, a) {
      OnlyStraddlersAreMissed(mem, q, t, a);
      if a % q.alignment == 0 {
        AlignedNeverStraddles(q, t, a);
      }
    }
  }

  /** A two-byte value across the first chunk boundary: aligned to single bytes, matching, readable, and missed. */
  lemma StraddlerIsMissed(mem: Memory) returns (q: Query, t: IntType, a: Address)
    requires Mapped(mem, 0x1000, 2 * CHUNK)
    ensures t.Valid() && q.Valid() && Mapped(mem, q.start, q.size)
    ensures Plain(mem, q, t, a) && !Eligible(mem, q, t, a)
  {
    q, t, a := Query(0x1000, 2 * CHUNK, UnknownInitial, 0, 0, 1), IntType(2, false), 0x1000 + CHUNK - 1;
    OnlyStraddlersAreMissed(mem, q, t, a);
  }
}
