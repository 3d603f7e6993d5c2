/**
  The target's memory as a map from 64-bit addresses to bytes, guarded by the
  request validators of backend.hpp. Reads succeed only on mapped bytes.
*/
module ByteMemory {
  import opened Common

  const ADDRESS_SPACE: int := 0x1_0000_0000_0000_0000
  const MAX_ADDRESS: int := 0xFFFF_FFFF_FFFF_FFFF
  const MAX_TRANSFER: int := 0x10_0000

  type Address = a: int | 0 <= a < ADDRESS_SPACE
  type Byte = b: int | 0 <= b < 256
  type Memory = map<Address, Byte>

  /** Unsigned 64-bit wrap-around. */
  function Wrap(x: int): Address {
    x % ADDRESS_SPACE
  }

  /** validate_read_request and validate_write_request make the same three checks. */
  function ValidateRequest(address: Address, size: nat): (r: Result<nat>)
    ensures r.Success? <==> 1 <= size <= MAX_TRANSFER && address + size < ADDRESS_SPACE
    ensures r.Success? ==> r.value == size
  {
    if size == 0 then Failure(InvalidSize)
    else if size > MAX_TRANSFER then Failure(InvalidSize)
    else if Wrap(address + size) < address then Failure(InvalidAddress)
    else
      assert address + size >= ADDRESS_SPACE ==> Wrap(address + size) == address + size - ADDRESS_SPACE;
      Success(size)
  }

  /** The little-endian image of the low size bytes of a value. */
  function ToBytes(value: nat, size: nat): (r: seq<Byte>)
    ensures |r| == size
  {
    if size == 0 then [] else [value % 256] + ToBytes(value / 256, size - 1)
  }

  /** The unsigned little-endian value of some bytes. */
  function FromBytes(bytes: seq<Byte>): nat {
    if bytes == [] then 0 else bytes[0] + 256 * FromBytes(bytes[1..])
  }

  /** Bytes survive the detour through an integer, so a saved value read as an integer loses nothing. */
  lemma {:induction false} BytesOfValueOfBytes(bytes: seq<Byte>)
    ensures ToBytes(FromBytes(bytes), |bytes|) == bytes
  {
    if bytes != [] {
      BytesOfValueOfBytes(bytes[1..]);
      assert FromBytes(bytes) % 256 == bytes[0] && FromBytes(bytes) / 256 == FromBytes(bytes[1..]);
    }
  }

  /** 256 to the power of size. */
  function Power256(size: nat): (r: nat)
    ensures r >= 1
  {
    if size == 0 then 1 else 256 * Power256(size - 1)
  }

  lemma {:induction false} ValueFits(bytes: seq<Byte>)
    ensures FromBytes(bytes) < Power256(|bytes|)
  {
    if bytes != [] {
      ValueFits(bytes[1..]);
    }
  }

  /** And an integer that fits survives the detour through its bytes. */
  lemma {:induction false} ValueOfBytesOfValue(value: nat, size: nat)
    requires value < Power256(size)
    ensures FromBytes(ToBytes(value, size)) == value
  {
    if size > 0 {
      ValueOfBytesOfValue(value / 256, size - 1);
    }
  }

  predicate Mapped(mem: Memory, address: int, size: nat) {
    0 <= address && address + size <= ADDRESS_SPACE
    && forall a: Address | address <= a < address + size :: a in mem
  }

  /** The size bytes from address on. */
  function Window(mem: Memory, address: int, size: nat): (r: seq<Byte>)
    requires Mapped(mem, address, size)
    ensures |r| == size
    ensures forall i | 0 <= i < size :: r[i] == mem[address + i]
  {
    seq(size, i requires 0 <= i < size => mem[address + i])
  }

  /** MemorySession::read_bytes over this memory. */
  function Load(mem: Memory, address: Address, size: nat): (r: Result<seq<Byte>>)
    ensures r.Success? <==> ValidateRequest(address, size).Success? && Mapped(mem, address, size)
    ensures r.Success? ==> r.value == Window(mem, address, size)
  {
    var valid := ValidateRequest(address, size);
    if valid.Failure? then Failure(valid.error)
    else if !Mapped(mem, address, size) then Failure(ReadFailed)
    else Success(Window(mem, address, size))
  }

  /** The memory once bytes have been written from address on; no other byte changes. */
  function Written(mem: Memory, address: int, bytes: seq<Byte>): (r: Memory)
    requires 0 <= address && address + |bytes| <= ADDRESS_SPACE
    ensures forall a: Address :: a in r <==> a in mem || address <= a < address + |bytes|
    ensures forall a: Address | a in r :: r[a] == if address <= a < address + |bytes| then bytes[a - address] else mem[a]
  {
    if bytes == [] then mem
    else
      var last := |bytes| - 1;
      Written(mem, address, bytes[..last])[address + last := bytes[last]]
  }

  /** Writing what was read puts every byte back, whatever was written in between. */
  lemma WriteBackUndoesWrite(mem: Memory, address: Address, bytes: seq<Byte>)
    requires Load(mem, address, |bytes|).Success?
    ensures Written(Written(mem, address, bytes), address, Load(mem, address, |bytes|).value) == mem
  {
    var saved := Load(mem, address, |bytes|).value;
    var back := Written(Written(mem, address, bytes), address, saved);
    forall a: Address | a in back ensures a in mem && back[a] == mem[a] {
      if address <= a < address + |bytes| {
        assert saved[a - address] == mem[a];
      }
    }
  }

  /** The simulated game's backend: a byte map updated in place. */
  class ByteMapBackend {
    var memory: Memory

    constructor (initial: Memory)
      ensures memory == initial
    {
      memory := initial;
    }

    method Read(address: Address, size: nat) returns (r: Result<seq<Byte>>)
      ensures r == Load(memory, address, size)
    {
      var valid := ValidateRequest(address, size);
      if valid.Failure? {
        return Failure(valid.error);
      }
      var bytes: seq<Byte> := [];
      for i := 0 to size
        invariant |bytes| == i
        invariant forall a: Address | address <= a < address + i :: a in memory && bytes[a - address] == memory[a]
      {
        if address + i !in memory {
          return Failure(ReadFailed);
        }
        bytes := bytes + [memory[address + i]];
      }
      assert bytes == Window(memory, address, size);
      return Success(bytes);
    }

    method Write(address: Address, bytes: seq<Byte>) returns (r: Result<nat>)
      modifies this
      ensures r == ValidateRequest(address, |bytes|)
      ensures memory == if r.Success? then Written(old(memory), address, bytes) else old(memory)
    {
      r := ValidateRequest(address, |bytes|);
      if r.Failure? {
        return;
      }
      for i := 0 to |bytes|
        invariant memory == Written(old(memory), address, bytes[..i])
      {
        memory := memory[address + i := bytes[i]];
        assert bytes[..i + 1][..i] == bytes[..i];
      }
      assert bytes[..|bytes|] == bytes;
    }
  }
}
