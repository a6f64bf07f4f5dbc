/**
  The older MemorySnapshotCacheData's GetManagedTypeInfoFromAddr: follow
  the pointer stored at an address and look it up in the table of types by
  type-info address, following at most one more pointer when the first
  value is not a type.
 */
module LegacyTypeResolver {
  import opened Wrappers
  import opened Faults
  import opened Words
  import opened Segments
  import opened ManagedTypes
  import opened PointerReader

  /**
    GetManagedTypeInfoFromAddr(address, depth): null past depth 1 and for an
    address in no section; the type stored under the pointer read at
    `address` if there is one; otherwise the same question one level deeper.
   */
  function GetManagedTypeInfoFromAddr(
    sortedManagedMemory: seq<Segment>, pointerSize: int, managedTypeByAddr: map<int, ManagedType>,
    address: u64, depth: nat): (r: Result<Option<ManagedType>, Fault>)
    ensures depth > 1 ==> r == Success(None)
    ensures FindSegment(sortedManagedMemory, address).None? ==> r == Success(None)
    ensures r.Success? && r.value.Some? ==>
      var d1 := ReadPointerByAddress(sortedManagedMemory, pointerSize, address);
      && d1.Success? && d1.value.memory.Some?
      && ((d1.value.value in managedTypeByAddr && r.value.value == managedTypeByAddr[d1.value.value])
        || (depth == 0 && d1.value.value !in managedTypeByAddr &&
            var d2 := ReadPointerByAddress(sortedManagedMemory, pointerSize, d1.value.value);
            && d2.Success? && d2.value.memory.Some?
            && d2.value.value in managedTypeByAddr && r.value.value == managedTypeByAddr[d2.value.value]))
    ensures depth <= 1 ==>
      var d1 := ReadPointerByAddress(sortedManagedMemory, pointerSize, address);
      && (FindSegment(sortedManagedMemory, address).Some? && d1.Failure? ==> r == Failure(d1.error))
      && (d1.Success? && d1.value.memory.Some? && d1.value.value in managedTypeByAddr ==>
            r == Success(Some(managedTypeByAddr[d1.value.value])))
      && (depth == 1 && d1.Success? && d1.value.value !in managedTypeByAddr ==> r == Success(None))
    ensures depth == 0 ==>
      var d1 := ReadPointerByAddress(sortedManagedMemory, pointerSize, address);
      d1.Success? && d1.value.memory.Some? && d1.value.value !in managedTypeByAddr ==>
        var d2 := ReadPointerByAddress(sortedManagedMemory, pointerSize, d1.value.value);
        && (FindSegment(sortedManagedMemory, d1.value.value).Some? && d2.Failure? ==> r == Failure(d2.error))
        && (d2.Success? && d2.value.memory.Some? && d2.value.value in managedTypeByAddr ==>
              r == Success(Some(managedTypeByAddr[d2.value.value])))
        && (d2.Success? && (d2.value.memory.None? || d2.value.value !in managedTypeByAddr) ==> r == Success(None))
    decreases 2 - depth
  {
    if depth > 1 then Success(None)
    else
      match FindSegment(sortedManagedMemory, address)
      case None => Success(None)
      case Some(managedMemory) =>
        ContainedOffset(managedMemory, address);
        var offset := address - managedMemory.startAddress;
        match ReadPointer(managedMemory.bytes, offset, pointerSize)
        case Failure(e) => Failure(e)
        case Success(newAddr) =>
          if newAddr in managedTypeByAddr then Success(Some(managedTypeByAddr[newAddr]))
          else GetManagedTypeInfoFromAddr(sortedManagedMemory, pointerSize, managedTypeByAddr, newAddr, depth + 1)
  }
}
