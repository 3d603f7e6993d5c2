/**
  The three pointer-chain resolvers over the byte-map memory: the session's, the command line tool's with
  its 64-bit and 32-bit walks, and the legacy 32-bit one. Each loop is proved to follow a recursive walk,
  and the walks are compared.
*/
module PointerChain {
  import opened Common
  import opened ByteMemory

  const WORD32: int := 0x1_0000_0000

  type Word32 = w: int | 0 <= w < WORD32

  lemma ValueFitsWidth(bytes: seq<Byte>)
    ensures |bytes| == 4 ==> FromBytes(bytes) < WORD32
    ensures |bytes| == 8 ==> FromBytes(bytes) < ADDRESS_SPACE
  {
    ValueFits(bytes);
    assert Power256(4) == WORD32 by {
      assert Power256(2) == 0x1_0000;
    }
    assert Power256(8) == ADDRESS_SPACE by {
      assert Power256(4) == WORD32;
    }
  }

  /** MemorySession::read of an unsigned integer of the given width. */
  function ReadWord(mem: Memory, address: Address, width: nat): (r: Result<Address>)
    requires width == 4 || width == 8
    ensures r.Success? && width == 4 ==> r.value < WORD32
  {
    var bytes := Load(mem, address, width);
    if bytes.Failure? then Failure(bytes.error)
    else
      ValueFitsWidth(bytes.value);
      Success(FromBytes(bytes.value))
  }

  // ---------------------------------------------------------------- the walks

  /** The session adds an offset, reads, and refuses a null link. */
  function SessionWalk(mem: Memory, current: Address, offsets: seq<Address>): Result<Address>
    decreases |offsets|
  {
    if offsets == [] then Success(current)
    else
      var link := ReadWord(mem, Wrap(current + offsets[0]), 8);
      if link.Failure? then link
      else if link.value == 0 then Failure(InvalidAddress)
      else SessionWalk(mem, link.value, offsets[1..])
  }

  /** The tool reads and then adds an offset. */
  function ToolWalk(mem: Memory, current: Address, offsets: seq<Address>, width: nat): Result<Address>
    requires width == 4 || width == 8
    decreases |offsets|
  {
    if offsets == [] then Success(current)
    else
      var link := ReadWord(mem, current, width);
      if link.Failure? then link
      else ToolWalk(mem, Wrap(link.value + offsets[0]), offsets[1..], width)
  }

  /** A legacy read: 0 when it fails. */
  function LegacyRead(mem: Memory, address: Word32): Word32 {
    var bytes := Load(mem, address, 4);
    if bytes.Failure? then 0
    else
      ValueFitsWidth(bytes.value);
      FromBytes(bytes.value)
  }

  function Wrap32(x: int): Word32 {
    x % WORD32
  }

  /** The legacy resolver from a pointer it has read: every offset but the last is followed. */
  function LegacyWalk(mem: Memory, pointer: Word32, offsets: seq<Word32>): Word32
    requires offsets != []
    decreases |offsets|
  {
    if |offsets| == 1 then Wrap32(pointer + offsets[0])
    else LegacyWalk(mem, LegacyRead(mem, Wrap32(pointer + offsets[0])), offsets[1..])
  }

  // ---------------------------------------------------------------- the loops

  class MemorySession {
    const backend: ByteMapBackend
    const isX64: bool

    constructor (backend: ByteMapBackend, isX64: bool)
      ensures this.backend == backend && this.isX64 == isX64
    {
      this.backend := backend;
      this.isX64 := isX64;
    }

    method ReadInteger(address: Address, width: nat) returns (r: Result<Address>)
      requires width == 4 || width == 8
      ensures r == ReadWord(backend.memory, address, width)
    {
      var valid := ValidateRequest(address, width);
      if valid.Failure? {
        return Failure(valid.error);
      }
      var raw := backend.Read(address, width);
      if raw.Failure? {
        return Failure(raw.error);
      }
      ValueFitsWidth(raw.value);
      return Success(FromBytes(raw.value));
    }

    method ResolvePointerChain(base: Address, offsets: seq<Address>) returns (r: Result<Address>)
      ensures r == if offsets == [] then Failure(InvalidOffsets) else SessionWalk(backend.memory, base, offsets)
    {
      if offsets == [] {
        return Failure(InvalidOffsets);
      }
      var current := base;
      for step := 0 to |offsets|
        invariant SessionWalk(backend.memory, base, offsets) == SessionWalk(backend.memory, current, offsets[step..])
      {
        var target := Wrap(current as int + offsets[step]);
        var read := ReadInteger(target, 8);
        if read.Failure? {
          return Failure(read.error);
        }
        if read.value == 0 {
          return Failure(InvalidAddress);
        }
        current := read.value;
      }
      return Success(current);
    }

    /** The free function of the command line tool. */
    method ResolveInTool(base: Address, offsets: seq<Address>, force64: bool) returns (r: Result<Address>)
      ensures r == ToolWalk(backend.memory, base, offsets, if force64 || base >= WORD32 || isX64 then 8 else 4)
    {
      if offsets == [] {
        return Success(base);
      }
      var width := if force64 || base >= WORD32 || isX64 then 8 else 4;
      var current := base;
      for i := 0 to |offsets|
        invariant ToolWalk(backend.memory, base, offsets, width) == ToolWalk(backend.memory, current, offsets[i..], width)
      {
        var read := ReadInteger(current, width);
        if read.Failure? {
          return Failure(read.error);
        }
        if i == |offsets| - 1 {
          assert offsets[i..][1..] == [];
          return Success(Wrap(read.value as int + offsets[i]));
        }
        current := Wrap(read.value as int + offsets[i]);
      }
      return Success(current);
    }

    /**
      Writes bytes at base plus each offset until one write fails. The addresses done are those of a prefix
      of the offsets, and the memory is what writing that prefix gives.
    */
    method WriteOffsets(base: Address, offsets: seq<Address>, bytes: seq<Byte>) returns (done: seq<Address>, error: Option<ErrorCode>)
      modifies backend
      ensures done == Take(Targets(base, offsets), |done|)
      ensures WrittenAtAll(old(backend.memory), done, bytes) == Some(backend.memory)
      ensures error.None? ==> |done| == |offsets|
      ensures error.Some? ==>
        |done| < |offsets| && ValidateRequest(Targets(base, offsets)[|done|], |bytes|) == Failure(error.value)
    {
      done := [];
      for i := 0 to |offsets|
        invariant done == Targets(base, offsets)[..i]
        invariant WrittenAtAll(old(backend.memory), done, bytes) == Some(backend.memory)
      {
        var target := Wrap(base + offsets[i]);
        var written := backend.Write(target, bytes);
        if written.Failure? {
          return done, Some(written.error);
        }
        assert (done + [target])[..i] == done;
        done := done + [target];
      }
      return done, None;
    }
  }

  function Targets(base: Address, offsets: seq<Address>): (r: seq<Address>)
    ensures |r| == |offsets|
    ensures forall i | 0 <= i < |r| :: r[i] == Wrap(base + offsets[i])
  {
    if offsets == [] then [] else [Wrap(base + offsets[0])] + Targets(base, offsets[1..])
  }

  /** The same bytes written at each address in turn; None when some address does not take them. */
  function WrittenAtAll(mem: Memory, addresses: seq<Address>, bytes: seq<Byte>): Option<Memory> {
    if addresses == [] then Some(mem)
    else
      var last := |addresses| - 1;
      var before := WrittenAtAll(mem, addresses[..last], bytes);
      if before.None? || ValidateRequest(addresses[last], |bytes|).Failure? then None
      else Some(Written(before.value, addresses[last], bytes))
  }

  predicate Covered(addresses: seq<Address>, size: nat, a: Address) {
    exists i :: 0 <= i < |addresses| && addresses[i] <= a < addresses[i] + size
  }

  /** What some writes have done to memory: only covered bytes are new or different. */
  ghost predicate StaysInside(mem: Memory, after: Memory, addresses: seq<Address>, size: nat) {
    && (forall a: Address :: a in after <==> a in mem || Covered(addresses, size, a))
    && forall a: Address | a in mem && !Covered(addresses, size, a) :: after[a] == mem[a]
  }

  lemma OneWriteMore(mem: Memory, before: Memory, addresses: seq<Address>, bytes: seq<Byte>)
    requires addresses != [] && ValidateRequest(addresses[|addresses| - 1], |bytes|).Success?
    requires StaysInside(mem, before, addresses[..|addresses| - 1], |bytes|)
    ensures StaysInside(mem, Written(before, addresses[|addresses| - 1], bytes), addresses, |bytes|)
  {
    forall a: Address
      ensures Covered(addresses, |bytes|, a) <==>
                Covered(addresses[..|addresses| - 1], |bytes|, a)
                || addresses[|addresses| - 1] <= a < addresses[|addresses| - 1] + |bytes|
    {
      CoveredBySnoc(addresses, |bytes|, a);
    }
  }

  /** Batch writes change nothing outside their windows, and no overlap hides the last one. */
  lemma {:induction false} BatchWritesStayInside(mem: Memory, addresses: seq<Address>, bytes: seq<Byte>)
    requires WrittenAtAll(mem, addresses, bytes).Some?
    ensures var after := WrittenAtAll(mem, addresses, bytes).value;
            && StaysInside(mem, after, addresses, |bytes|)
            && (addresses != [] ==> Load(after, addresses[|addresses| - 1], |bytes|) == Success(bytes))
  {
    if addresses != [] {
      var last := |addresses| - 1;
      var before := WrittenAtAll(mem, addresses[..last], bytes).value;
      BatchWritesStayInside(mem, addresses[..last], bytes);
      OneWriteMore(mem, before, addresses, bytes);
      WriteIsLoaded(before, addresses[last], bytes);
    }
  }

  lemma CoveredBySnoc(addresses: seq<Address>, size: nat, a: Address)
    requires addresses != []
    ensures var last := |addresses| - 1;
            Covered(addresses, size, a) <==> Covered(addresses[..last], size, a) || addresses[last] <= a < addresses[last] + size
  {
    var last := |addresses| - 1;
    assert forall i | 0 <= i < last :: addresses[..last][i] == addresses[i];
  }

  lemma WrapBack(base: Word32, address: Word32)
    ensures Wrap32(base as int + Wrap32(address as int - base)) == address
  {
  }

  /** The walk from offset i goes on from offset i + 1. */
  lemma LegacyStep(mem: Memory, pointer: Word32, offsets: seq<Word32>, i: nat)
    requires i + 1 < |offsets|
    ensures LegacyWalk(mem, pointer, offsets[i..])
         == LegacyWalk(mem, LegacyRead(mem, Wrap32(pointer as int + offsets[i])), offsets[i + 1..])
  {
    assert offsets[i..][1..] == offsets[i + 1..];
  }

  /** The legacy library: 32-bit arithmetic throughout. */
  class LegacyLibrary {
    const gameBase: Word32
    const memory: Memory

    constructor (gameBase: Word32, memory: Memory)
      ensures this.gameBase == gameBase && this.memory == memory
    {
      this.gameBase := gameBase;
      this.memory := memory;
    }

    method ReadPointerOffset(address: Word32, offset: Word32) returns (r: Word32)
      ensures r == LegacyRead(memory, Wrap32(address + offset))
    {
      var pointer := Wrap32(address + offset);
      r := LegacyRead(memory, pointer);
    }

    method ResolveAddressGeneric(address: Word32, offsets: seq<Word32>) returns (result: Word32)
      ensures result == if offsets == [] then address else LegacyWalk(memory, LegacyRead(memory, address), offsets)
    {
      if offsets == [] {
        return address;
      }
      var staticAddress := Wrap32(address - gameBase);
      WrapBack(gameBase, address);
      result := ReadPointerOffset(gameBase, staticAddress);
      ghost var end := LegacyWalk(memory, result, offsets);
      if |offsets| > 1 {
        for i := 0 to |offsets| - 1
          invariant end == LegacyWalk(memory, result, offsets[i..])
        {
          LegacyStep(memory, result, offsets, i);
          result := ReadPointerOffset(result, offsets[i]);
        }
      }
      var last := |offsets| - 1;
      assert offsets[last..] == [offsets[last]];
      result := Wrap32(result + offsets[last]);
    }
  }

  // ---------------------------------------------------------------- the pointers in memory

  /** Memory holds the little-endian image of the pointer at the address, and it can be read there. */
  predicate Stored(mem: Memory, address: Address, pointer: nat, width: nat) {
    pointer < Power256(width) && Load(mem, address, width) == Success(ToBytes(pointer, width))
  }

  /** A word is read exactly when all its bytes are in memory. */
  lemma ReadIffStored(mem: Memory, address: Address, width: nat, pointer: Address)
    requires width == 4 || width == 8
    ensures ReadWord(mem, address, width) == Success(pointer) <==> Stored(mem, address, pointer, width)
  {
    var bytes := Load(mem, address, width);
    if bytes.Success? {
      ValueFits(bytes.value);
      BytesOfValueOfBytes(bytes.value);
    }
    if pointer < Power256(width) {
      ValueOfBytesOfValue(pointer, width);
    }
  }

  lemma WriteIsLoaded(mem: Memory, address: Address, bytes: seq<Byte>)
    requires ValidateRequest(address, |bytes|).Success?
    ensures Load(Written(mem, address, bytes), address, |bytes|) == Success(bytes)
  {
    assert Window(Written(mem, address, bytes), address, |bytes|) == bytes;
  }

  /** What is written at an address is what is read there. */
  lemma WrittenWordIsRead(mem: Memory, address: Address, width: nat, pointer: Address)
    requires (width == 4 || width == 8) && pointer < Power256(width) && ValidateRequest(address, width).Success?
    ensures ReadWord(Written(mem, address, ToBytes(pointer, width)), address, width) == Success(pointer)
  {
    var bytes := ToBytes(pointer, width);
    WriteIsLoaded(mem, address, bytes);
    ReadIffStored(Written(mem, address, bytes), address, width, pointer);
  }

  /** The pointer before number k, or where the walk begins. */
  function Before(pointers: seq<Address>, start: Address, k: nat): Address
    requires k <= |pointers|
  {
    if k == 0 then start else pointers[k - 1]
  }

  function Last(pointers: seq<Address>, start: Address): Address {
    Before(pointers, start, |pointers|)
  }

  /** All eight bytes of the pointer stand at the offset from the address, and it is not null. */
  predicate Links(mem: Memory, from: Address, offset: Address, pointer: Address) {
    pointer != 0 && Stored(mem, Wrap(from as int + offset), pointer, 8)
  }

  /** Each pointer stands where base, the pointers before it and the offsets lead. */
  predicate SessionLinks(mem: Memory, base: Address, offsets: seq<Address>, pointers: seq<Address>) {
    && |pointers| == |offsets|
    && forall k | 0 <= k < |offsets| :: Links(mem, Before(pointers, base, k), offsets[k], pointers[k])
  }

  lemma SessionLinksFirst(mem: Memory, base: Address, offsets: seq<Address>, p: Address, rest: seq<Address>)
    requires offsets != []
    ensures SessionLinks(mem, base, offsets, [p] + rest) <==>
              Links(mem, base, offsets[0], p) && SessionLinks(mem, p, offsets[1..], rest)
    ensures Last([p] + rest, base) == Last(rest, p)
  {
    assert Before([p] + rest, base, 0) == base;
    assert forall k | 1 <= k <= |rest| + 1 :: Before([p] + rest, base, k) == Before(rest, p, k - 1);
    SessionLinksApart(mem, base, offsets, p, rest);
    if Links(mem, base, offsets[0], p) && SessionLinks(mem, p, offsets[1..], rest) {
      var pointers := [p] + rest;
      forall k | 0 <= k < |pointers| ensures Links(mem, Before(pointers, base, k), offsets[k], pointers[k]) {
        assert k > 0 ==> Links(mem, Before(rest, p, k - 1), offsets[1..][k - 1], rest[k - 1]);
      }
    }
  }

  lemma SessionLinksApart(mem: Memory, base: Address, offsets: seq<Address>, p: Address, rest: seq<Address>)
    requires offsets != []
    ensures SessionLinks(mem, base, offsets, [p] + rest) ==>
              Links(mem, base, offsets[0], p) && SessionLinks(mem, p, offsets[1..], rest)
  {
    var pointers := [p] + rest;
    if SessionLinks(mem, base, offsets, pointers) {
      assert Links(mem, Before(pointers, base, 0), offsets[0], pointers[0]);
      forall k | 0 <= k < |rest| ensures Links(mem, Before(rest, p, k), offsets[1..][k], rest[k]) {
        assert Links(mem, Before(pointers, base, k + 1), offsets[k + 1], pointers[k + 1]);
      }
    }
  }

  lemma {:induction false} SessionFindsPointers(mem: Memory, base: Address, offsets: seq<Address>) returns (pointers: seq<Address>)
    requires SessionWalk(mem, base, offsets).Success?
    ensures SessionLinks(mem, base, offsets, pointers) && SessionWalk(mem, base, offsets) == Success(Last(pointers, base))
    decreases |offsets|
  {
    pointers := [];
    if offsets != [] {
      var place := Wrap(base as int + offsets[0]);
      var p := ReadWord(mem, place, 8).value;
      ReadIffStored(mem, place, 8, p);
      var rest := SessionFindsPointers(mem, p, offsets[1..]);
      pointers := [p] + rest;
      SessionLinksFirst(mem, base, offsets, p, rest);
    }
  }

  lemma {:induction false} SessionReachesLast(mem: Memory, base: Address, offsets: seq<Address>, pointers: seq<Address>)
    requires SessionLinks(mem, base, offsets, pointers)
    ensures SessionWalk(mem, base, offsets) == Success(Last(pointers, base))
    decreases |offsets|
  {
    if offsets != [] {
      var p, rest := pointers[0], pointers[1..];
      assert pointers == [p] + rest;
      SessionLinksFirst(mem, base, offsets, p, rest);
      ReadIffStored(mem, Wrap(base as int + offsets[0]), 8, p);
      SessionReachesLast(mem, p, offsets[1..], rest);
    }
  }

  /** The session's walk ends at an address exactly when memory links base to it through the offsets. */
  lemma SessionFollowsPointers(mem: Memory, base: Address, offsets: seq<Address>, found: Address)
    ensures SessionWalk(mem, base, offsets) == Success(found)
       <==> exists pointers :: SessionLinks(mem, base, offsets, pointers) && Last(pointers, base) == found
  {
    if SessionWalk(mem, base, offsets) == Success(found) {
      var pointers := SessionFindsPointers(mem, base, offsets);
    }
    if pointers :| SessionLinks(mem, base, offsets, pointers) && Last(pointers, base) == found {
      SessionReachesLast(mem, base, offsets, pointers);
    }
  }

  /** Where the tool finds pointer k: base itself, or the pointer before it plus its offset. */
  function ToolPlace(base: Address, offsets: seq<Address>, pointers: seq<Address>, k: nat): Address
    requires k <= |offsets| == |pointers|
  {
    if k == 0 then base else Wrap(pointers[k - 1] as int + offsets[k - 1])
  }

  predicate ToolLinks(mem: Memory, base: Address, offsets: seq<Address>, pointers: seq<Address>, width: nat) {
    && |pointers| == |offsets|
    && forall k | 0 <= k < |offsets| :: Stored(mem, ToolPlace(base, offsets, pointers, k), pointers[k], width)
  }

  lemma ToolLinksFirst(mem: Memory, base: Address, offsets: seq<Address>, p: Address, rest: seq<Address>, width: nat)
    requires offsets != [] && |rest| == |offsets| - 1
    ensures var next := Wrap(p as int + offsets[0]);
            && (ToolLinks(mem, base, offsets, [p] + rest, width) <==>
                  Stored(mem, base, p, width) && ToolLinks(mem, next, offsets[1..], rest, width))
            && ToolPlace(base, offsets, [p] + rest, |offsets|) == ToolPlace(next, offsets[1..], rest, |rest|)
  {
    var next, pointers, tail := Wrap(p as int + offsets[0]), [p] + rest, offsets[1..];
    assert forall k | 1 <= k <= |pointers| :: ToolPlace(base, offsets, pointers, k) == ToolPlace(next, tail, rest, k - 1);
    if ToolLinks(mem, base, offsets, pointers, width) {
      assert Stored(mem, ToolPlace(base, offsets, pointers, 0), pointers[0], width);
      forall k | 0 <= k < |rest| ensures Stored(mem, ToolPlace(next, tail, rest, k), rest[k], width) {
        assert Stored(mem, ToolPlace(base, offsets, pointers, k + 1), pointers[k + 1], width);
      }
    }
    if Stored(mem, base, p, width) && ToolLinks(mem, next, tail, rest, width) {
      forall k | 0 <= k < |pointers| ensures Stored(mem, ToolPlace(base, offsets, pointers, k), pointers[k], width) {
        assert k > 0 ==> Stored(mem, ToolPlace(next, tail, rest, k - 1), rest[k - 1], width);
      }
    }
  }

  lemma {:induction false} ToolFindsPointers(mem: Memory, base: Address, offsets: seq<Address>, width: nat) returns (pointers: seq<Address>)
    requires (width == 4 || width == 8) && ToolWalk(mem, base, offsets, width).Success?
    ensures ToolLinks(mem, base, offsets, pointers, width)
    ensures ToolWalk(mem, base, offsets, width) == Success(ToolPlace(base, offsets, pointers, |offsets|))
    decreases |offsets|
  {
    pointers := [];
    if offsets != [] {
      var p := ReadWord(mem, base, width).value;
      ReadIffStored(mem, base, width, p);
      var rest := ToolFindsPointers(mem, Wrap(p as int + offsets[0]), offsets[1..], width);
      pointers := [p] + rest;
      ToolLinksFirst(mem, base, offsets, p, rest, width);
    }
  }

  lemma {:induction false} ToolReachesLast(mem: Memory, base: Address, offsets: seq<Address>, width: nat, pointers: seq<Address>)
    requires (width == 4 || width == 8) && ToolLinks(mem, base, offsets, pointers, width)
    ensures ToolWalk(mem, base, offsets, width) == Success(ToolPlace(base, offsets, pointers, |offsets|))
    decreases |offsets|
  {
    if offsets != [] {
      var p, rest := pointers[0], pointers[1..];
      assert pointers == [p] + rest;
      ToolLinksFirst(mem, base, offsets, p, rest, width);
      ReadIffStored(mem, base, width, p);
      ToolReachesLast(mem, Wrap(p as int + offsets[0]), offsets[1..], width, rest);
    }
  }

  /** The tool's walk ends at the last pointer plus the last offset, exactly when memory holds such pointers. */
  lemma ToolFollowsPointers(mem: Memory, base: Address, offsets: seq<Address>, width: nat, found: Address)
    requires width == 4 || width == 8
    ensures ToolWalk(mem, base, offsets, width) == Success(found)
       <==> exists pointers ::
              ToolLinks(mem, base, offsets, pointers, width) && ToolPlace(base, offsets, pointers, |offsets|) == found
  {
    if ToolWalk(mem, base, offsets, width) == Success(found) {
      var pointers := ToolFindsPointers(mem, base, offsets, width);
    }
    if pointers :| ToolLinks(mem, base, offsets, pointers, width) && ToolPlace(base, offsets, pointers, |offsets|) == found {
      ToolReachesLast(mem, base, offsets, width, pointers);
    }
  }

  /** The legacy library reads a 32-bit pointer where one is stored, and 0 where nothing can be read. */
  lemma LegacyReadIffStored(mem: Memory, address: Word32, pointer: Word32)
    ensures LegacyRead(mem, address) == pointer
       <==> Stored(mem, address, pointer, 4) || (pointer == 0 && Load(mem, address, 4).Failure?)
  {
    ReadIffStored(mem, address, 4, pointer);
  }

  /** What the legacy resolver finds is the last of such pointers plus the last offset. */
  predicate LegacyLinks(mem: Memory, first: Word32, offsets: seq<Word32>, pointers: seq<Word32>) {
    && |pointers| == |offsets| > 0 && pointers[0] == first
    && forall k | 1 <= k < |offsets| :: LegacyLink(mem, Wrap32(pointers[k - 1] as int + offsets[k - 1]), pointers[k])
  }

  predicate LegacyLink(mem: Memory, address: Word32, pointer: Word32) {
    Stored(mem, address, pointer, 4) || (pointer == 0 && Load(mem, address, 4).Failure?)
  }

  /** A pointer in front of a chain of them. */
  lemma LegacyLinksFirst(mem: Memory, first: Word32, offsets: seq<Word32>, rest: seq<Word32>)
    requires |offsets| > 1 && rest != []
    requires LegacyLinks(mem, rest[0], offsets[1..], rest) && LegacyLink(mem, Wrap32(first as int + offsets[0]), rest[0])
    ensures LegacyLinks(mem, first, offsets, [first] + rest)
  {
    var pointers := [first] + rest;
    forall k | 1 <= k < |offsets| ensures LegacyLink(mem, Wrap32(pointers[k - 1] as int + offsets[k - 1]), pointers[k]) {
      if k > 1 {
        assert LegacyLink(mem, Wrap32(rest[k - 2] as int + offsets[1..][k - 2]), rest[k - 1]);
      }
    }
  }

  lemma {:induction false} LegacyFollowsPointers(mem: Memory, first: Word32, offsets: seq<Word32>) returns (pointers: seq<Word32>)
    requires offsets != []
    ensures LegacyLinks(mem, first, offsets, pointers)
    ensures LegacyWalk(mem, first, offsets) == Wrap32(pointers[|pointers| - 1] as int + offsets[|offsets| - 1])
    decreases |offsets|
  {
    pointers := [first];
    if |offsets| > 1 {
      var next := Wrap32(first as int + offsets[0]);
      var p := LegacyRead(mem, next);
      LegacyReadIffStored(mem, next, p);
      var rest := LegacyFollowsPointers(mem, p, offsets[1..]);
      LegacyLinksFirst(mem, first, offsets, rest);
      pointers := [first] + rest;
    }
  }

  // ---------------------------------------------------------------- the comparison

  lemma WrapSmall(x: int)
    requires 0 <= x < ADDRESS_SPACE
    ensures Wrap(x) == x
  {
  }

  lemma Wrap32Small(x: int)
    requires 0 <= x < WORD32
    ensures Wrap32(x) == x
  {
  }

  /** No read of the tool's walk gives a null pointer. */
  predicate NoNullLink(mem: Memory, current: Address, offsets: seq<Address>)
    decreases |offsets|
  {
    offsets == [] ||
    var link := ReadWord(mem, current, 8);
    link.Failure? || (link.value != 0 && NoNullLink(mem, Wrap(link.value + offsets[0]), offsets[1..]))
  }

  /** One step of the session's walk. */
  lemma SessionStep(mem: Memory, current: Address, first: Address, rest: seq<Address>)
    ensures var link := ReadWord(mem, Wrap(current + first), 8);
            SessionWalk(mem, current, [first] + rest)
            == if link.Failure? then link
               else if link.value == 0 then Failure(InvalidAddress)
               else SessionWalk(mem, link.value, rest)
  {
    assert ([first] + rest)[1..] == rest;
  }

  lemma FirstOf(s: seq<Address>, n: nat)
    requires 0 < n < |s|
    ensures s[..n] == [s[0]] + s[1..][..n - 1]
  {
  }

  /** One step of the tool's walk. */
  lemma ToolStep(mem: Memory, place: Address, offsets: seq<Address>)
    requires offsets != []
    ensures var link := ReadWord(mem, place, 8);
            if link.Failure? then ToolWalk(mem, place, offsets, 8) == link && NoNullLink(mem, place, offsets)
            else
              var next := Wrap(link.value + offsets[0]);
              && ToolWalk(mem, place, offsets, 8) == ToolWalk(mem, next, offsets[1..], 8)
              && (NoNullLink(mem, place, offsets) <==> link.value != 0 && NoNullLink(mem, next, offsets[1..]))
  {
  }

  /** The results differ by the last offset when no link is null; otherwise the session refuses. */
  predicate Agree(session: Result<Address>, tool: Result<Address>, noNull: bool, last: Address) {
    if noNull then tool == (if session.Success? then Success(Wrap(session.value as int + last)) else session)
    else session == Failure(InvalidAddress)
  }

  /** The session on a first offset and all offsets but the last, against the tool on all offsets. */
  lemma {:induction false} SessionAgreesWithTool(mem: Memory, current: Address, first: Address, offsets: seq<Address>)
    requires offsets != []
    ensures var n, place := |offsets| - 1, Wrap(current + first);
            Agree(SessionWalk(mem, current, [first] + offsets[..n]), ToolWalk(mem, place, offsets, 8),
                  NoNullLink(mem, place, offsets), offsets[n])
    decreases |offsets|
  {
    var n, place := |offsets| - 1, Wrap(current + first);
    var link := ReadWord(mem, place, 8);
    SessionStep(mem, current, first, offsets[..n]);
    ToolStep(mem, place, offsets);
    if link.Success? && link.value != 0 {
      if n == 0 {
        OneOffset(mem, link.value, offsets);
      } else {
        FirstOf(offsets, n);
        SessionAgreesWithTool(mem, link.value, offsets[0], offsets[1..]);
      }
    }
  }

  /** The end of both walks, once the last link has been read. */
  lemma OneOffset(mem: Memory, link: Address, offsets: seq<Address>)
    requires |offsets| == 1
    ensures SessionWalk(mem, link, offsets[..0]) == Success(link)
    ensures var last := Wrap(link as int + offsets[0]);
            ToolWalk(mem, last, offsets[1..], 8) == Success(last) && NoNullLink(mem, last, offsets[1..])
  {
    assert offsets[..0] == [] && offsets[1..] == [];
  }

  /** The two resolvers on the same chain, the session's with a leading zero offset. */
  lemma ResolversAgree(mem: Memory, base: Address, offsets: seq<Address>)
    requires offsets != []
    ensures var n := |offsets| - 1;
            var session := SessionWalk(mem, base, [0] + offsets[..n]);
            var tool := ToolWalk(mem, base, offsets, 8);
            && (session.Success? ==> tool == Success(Wrap(session.value + offsets[n])))
            && (tool.Success? ==> (session.Success? <==> NoNullLink(mem, base, offsets)))
  {
    WrapSmall(base);
    SessionAgreesWithTool(mem, base, 0, offsets);
  }

  /** No sum of the 32-bit walk leaves the 32-bit address space. */
  predicate NoWrap(mem: Memory, current: Address, offsets: seq<Address>)
    decreases |offsets|
  {
    offsets == [] ||
    var link := ReadWord(mem, current, 4);
    link.Failure? || (link.value + offsets[0] < WORD32 && NoWrap(mem, Wrap(link.value + offsets[0]), offsets[1..]))
  }

  /** Where no sum wraps and no read fails, the legacy resolver and the tool's 32-bit walk find the same address. */
  lemma {:induction false} LegacyAgreesWithTool(mem: Memory, address: Word32, offsets: seq<Word32>)
    requires offsets != [] && NoWrap(mem, address, offsets)
    requires ToolWalk(mem, address, offsets, 4).Success?
    ensures ToolWalk(mem, address, offsets, 4) == Success(LegacyWalk(mem, LegacyRead(mem, address), offsets))
    decreases |offsets|
  {
    var link := ReadWord(mem, address, 4).value;
    assert link == LegacyRead(mem, address);
    Wrap32Small(link + offsets[0]);
    if |offsets| == 1 {
      WrapSmall(link + offsets[0]);
      assert offsets[1..] == [];
    } else {
      WrapSmall(link + offsets[0]);
      LegacyAgreesWithTool(mem, link + offsets[0], offsets[1..]);
    }
  }
}
