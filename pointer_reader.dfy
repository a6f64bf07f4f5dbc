/**
  Dereferencing a managed address: find the section holding it, turn the
  address into an offset in that section's bytes and read the pointer
  stored there; and reading the length of a single-dimension array.
 */
module PointerReader {
  import opened Wrappers
  import opened Faults
  import opened Words
  import opened Segments

  /** The fields of the snapshot's VirtualMachineInformation that the reader uses. */
  datatype VirtualMachineInformation = VirtualMachineInformation(
    pointerSize: int,
    objectHeaderSize: int,
    arrayHeaderSize: int,
    arrayBoundsOffsetInHeader: int)

  /** ReadPointerByAddress's return value together with its two out parameters. */
  datatype Deref = Deref(value: u64, memory: Option<Segment>, offset: int)

  /** The sentinel returned for an address that lies in no section. */
  const NotFound: Deref := Deref(0, None, 0)

  /**
    MemorySnapshotCacheData.ReadPointerByAddress: no section gives value 0,
    no memory and offset 0; otherwise the pointer read at addr - start in the
    section found, which fails when fewer than pointerSize bytes remain there.
   */
  function ReadPointerByAddress(sortedManagedMemory: seq<Segment>, pointerSize: int, addr: u64): (r: Result<Deref, Fault>)
    ensures FindSegment(sortedManagedMemory, addr).None? ==> r == Success(NotFound)
    ensures r.Success? && r.value.memory.None? ==> r.value == NotFound
    ensures r.Success? && r.value.memory.Some? ==>
      var m := r.value.memory.value;
      && FindSegment(sortedManagedMemory, addr) == Some(m)
      && r.value.offset == addr - m.startAddress
      && 0 <= r.value.offset && r.value.offset + pointerSize <= |m.bytes|
      && (pointerSize == 4 || pointerSize == 8)
      && r.value.value == FromLittleEndian(m.bytes[r.value.offset..r.value.offset + pointerSize])
    ensures FindSegment(sortedManagedMemory, addr).Some? ==>
      var m := FindSegment(sortedManagedMemory, addr).value;
      (r.Success? <==> (pointerSize == 4 || pointerSize == 8) && addr - m.startAddress + pointerSize <= |m.bytes|)
  {
    match FindSegment(sortedManagedMemory, addr)
    case None => Success(NotFound)
    case Some(memory) =>
      ContainedOffset(memory, addr);
      var offset := addr - memory.startAddress;
      match ReadPointer(memory.bytes, offset, pointerSize)
      case Failure(e) => Failure(e)
      case Success(v) => Success(Deref(v, Some(memory), offset))
  }

  /**
    A pointer stored little-endian inside a section that the lookup can find
    is read back by ReadPointerByAddress at the address where it is stored.
   */
  lemma {:induction false} ReadPointerByAddressFindsStoredPointer(s: seq<Segment>, j: nat, offset: nat, v: u64, pointerSize: int)
    requires SortedDisjoint(s)
    requires j < |s| && (1 <= j || |s| == 1)
    requires pointerSize == 4 || pointerSize == 8
    requires v < Pow256(pointerSize)
    requires offset + pointerSize <= |s[j].bytes|
    requires s[j].bytes[offset..offset + pointerSize] == ToLittleEndian(v, pointerSize)
    ensures s[j].startAddress + offset < TWO_64
    ensures ReadPointerByAddress(s, pointerSize, s[j].startAddress + offset) == Success(Deref(v, Some(s[j]), offset))
  {
    ReadStoredPointer(s[j].bytes, offset, v, pointerSize);
    ReadPointerFound(s, j, offset, v, pointerSize);
  }

  /** A pointer that ReadPointer gets at an offset of a findable section is what the address lookup returns. */
  lemma {:induction false} ReadPointerFound(s: seq<Segment>, j: nat, offset: nat, v: u64, pointerSize: int)
    requires SortedDisjoint(s)
    requires j < |s| && (1 <= j || |s| == 1)
    requires offset + pointerSize <= |s[j].bytes|
    requires ReadPointer(s[j].bytes, offset, pointerSize) == Success(v)
    ensures s[j].startAddress + offset < TWO_64
    ensures ReadPointerByAddress(s, pointerSize, s[j].startAddress + offset) == Success(Deref(v, Some(s[j]), offset))
  {
    StoredAddressFound(s, j, offset);
    ReadFoundPointer(s, s[j], offset, v, pointerSize);
  }

  lemma StoredAddressFound(s: seq<Segment>, j: nat, offset: nat)
    requires SortedDisjoint(s)
    requires j < |s| && (1 <= j || |s| == 1)
    requires offset <= |s[j].bytes|
    ensures s[j].startAddress + offset < TWO_64
    ensures FindSegment(s, s[j].startAddress + offset) == Some(s[j])
  {
    assert s[j].startAddress + |s[j].bytes| < TWO_64;
    assert Contains(s[j], s[j].startAddress + offset);
    FindSegmentComplete(s, s[j].startAddress + offset, j);
  }

  lemma ReadFoundPointer(s: seq<Segment>, m: Segment, offset: nat, v: u64, pointerSize: int)
    requires m.startAddress + offset < TWO_64
    requires FindSegment(s, m.startAddress + offset) == Some(m)
    requires ReadPointer(m.bytes, offset, pointerSize) == Success(v)
    ensures ReadPointerByAddress(s, pointerSize, m.startAddress + offset) == Success(Deref(v, Some(m), offset))
  {
  }

  lemma ReadStoredPointer(bytes: seq<Byte>, offset: nat, v: u64, pointerSize: int)
    requires pointerSize == 4 || pointerSize == 8
    requires v < Pow256(pointerSize)
    requires offset + pointerSize <= |bytes|
    requires bytes[offset..offset + pointerSize] == ToLittleEndian(v, pointerSize)
    ensures ReadPointer(bytes, offset, pointerSize) == Success(v)
  {
    DecodeEncode(v, pointerSize);
  }

  /**
    The inclusive upper bound lets the lookup hand out an offset too close to
    the end of the section: an 8-byte section at 0x1000 contains 0x1008, and
    the 8-byte read there fails.
   */
  lemma DereferencePastLastPointerFails()
    ensures var s := [Segment(0x1000, seq(8, _ => 0))];
      && Contains(s[0], 0x1008)
      && ReadPointerByAddress(s, 8, 0x1008) == Failure(ReadOutOfRange(8, 8, 8))
  {
    var s := [Segment(0x1000, seq(8, _ => 0))];
    assert FindSegment(s, 0x1008) == Some(s[0]);
  }

  /**
    MemorySnapshotCacheData.ReadArraySize: the bounds pointer sits
    arrayBoundsOffsetInHeader bytes into the array header; when it is zero
    the length is the int32 found as far again, otherwise 0 is returned.
   */
  function ReadArraySize(bytes: seq<Byte>, offset: int, vm: VirtualMachineInformation): (r: Result<int, Fault>)
    ensures var bounds := ReadPointer(bytes, offset + vm.arrayBoundsOffsetInHeader, vm.pointerSize);
      && (bounds.Failure? ==> r == Failure(bounds.error))
      && (bounds.Success? && bounds.value != 0 ==> r == Success(0))
      && (bounds.Success? && bounds.value == 0 ==> r == ReadInt32(bytes, offset + 2 * vm.arrayBoundsOffsetInHeader))
    ensures r.Success? ==> -TWO_31 <= r.value < TWO_31
  {
    var boundsOffset := offset + vm.arrayBoundsOffsetInHeader;
    match ReadPointer(bytes, boundsOffset, vm.pointerSize)
    case Failure(e) => Failure(e)
    case Success(bounds) =>
      if bounds == 0 then ReadInt32(bytes, boundsOffset + vm.arrayBoundsOffsetInHeader)
      else Success(0)
  }

  /**
    An array header with a zero bounds pointer followed by the length gives
    back that length.
   */
  lemma ArraySizeRoundTrip(header: seq<Byte>, length: nat, rest: seq<Byte>, vm: VirtualMachineInformation)
    requires vm.pointerSize == 4 || vm.pointerSize == 8
    requires vm.arrayBoundsOffsetInHeader == vm.pointerSize
    requires |header| == vm.pointerSize
    requires length < TWO_31
    ensures ReadArraySize(header + ToLittleEndian(0, vm.pointerSize) + ToLittleEndian(length, 4) + rest, 0, vm) == Success(length)
  {
    var ps := vm.pointerSize;
    var zero := ToLittleEndian(0, ps);
    assert Pow256(4) == TWO_32;
    var len := ToLittleEndian(length, 4);
    var bytes := header + zero + len + rest;
    assert bytes[ps..ps + ps] == zero;
    assert bytes[2 * ps..2 * ps + 4] == len;
    DecodeEncode(0, ps);
    DecodeEncode(length, 4);
  }
}
