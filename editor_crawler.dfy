/**
  The revision of ManagedObjectCrawler that also visits static fields: GC
  handle targets that lie in a section first, then every pointer stored in
  a reference-typed static slot, whether or not it lies in a section.
 */
module EditorCrawler {
  import opened Wrappers
  import opened Faults
  import opened Words
  import opened Segments
  import opened ManagedTypes
  import opened PointerReader
  import opened ObjectRecords
  import opened CacheData

  class ManagedObjectCrawler {
    const cacheSnapshot: MemorySnapshotCacheData
    var managedObjectByAddr: map<u64, ManagedObjectInfo>

    constructor(cacheData: MemorySnapshotCacheData)
      ensures cacheSnapshot == cacheData && managedObjectByAddr == map[]
    {
      cacheSnapshot := cacheData;
      managedObjectByAddr := map[];
    }

    /** Execute: a fresh table filled from the GC handles, then from the static fields. */
    method Execute() returns (r: Result<map<u64, ManagedObjectInfo>, Fault>)
      requires cacheSnapshot.TypeTablesValid()
      modifies this`managedObjectByAddr
      ensures r == EditorCrawl(cacheSnapshot.View(), cacheSnapshot.gcHandles, cacheSnapshot.managedTypes)
      ensures r.Success? ==> managedObjectByAddr == r.value
    {
      ghost var view := cacheSnapshot.View();
      managedObjectByAddr := map[];
      var step := SetupFromGcHandle();
      if step.Fail? {
        return Failure(step.error);
      }
      ghost var gc := GcHandleRecords(view, cacheSnapshot.gcHandles).value;
      step := SetupStaticField();
      if step.Fail? {
        return Failure(step.error);
      }
      AddFirstAppend(map[], gc, StaticRecords(view, cacheSnapshot.managedTypes).value);
      return Success(managedObjectByAddr);
    }

    /** SetupFromGcHandle: every handle whose target lies in a section is inspected and added. */
    method SetupFromGcHandle() returns (r: Outcome<Fault>)
      modifies this`managedObjectByAddr
      ensures var records := GcHandleRecords(cacheSnapshot.View(), cacheSnapshot.gcHandles);
        && (r.Pass? <==> records.Success?)
        && (r.Fail? ==> r.error == records.error)
        && (r.Pass? ==> managedObjectByAddr == AddFirst(old(managedObjectByAddr), records.value))
    {
      var gcHandles := cacheSnapshot.gcHandles;
      ghost var view := cacheSnapshot.View();
      ghost var start := managedObjectByAddr;
      for i := 0 to |gcHandles|
        invariant GcHandleRecords(view, gcHandles[..i]).Success?
        invariant managedObjectByAddr == AddFirst(start, GcHandleRecords(view, gcHandles[..i]).value)
      {
        var address := gcHandles[i];
        ghost var done := GcHandleRecords(view, gcHandles[..i]).value;
        assert gcHandles[..i + 1][..i] == gcHandles[..i];
        assert gcHandles[..i + 1][i] == address;
        var managedMemory := GetManagedMemory(cacheSnapshot.sortedManagedMemory, address);
        if managedMemory.Some? {
          var managedObjectInfo := GetManagedObjectInfoFromAddr(address);
          if managedObjectInfo.Failure? {
            GcHandleRecordsFailurePersists(view, gcHandles, i + 1);
            return Fail(managedObjectInfo.error);
          }
          var added := AddManagedObject(Some(managedObjectInfo.value));
          assert (done + [managedObjectInfo.value])[..|done|] == done;
        }
      }
      assert gcHandles[..|gcHandles|] == gcHandles;
      return Pass;
    }

    /**
      SetupStaticField: for every type with non-empty static bytes and a
      static field list, each static field of a reference type at a
      non-negative offset is read as a pointer, inspected and added.
     */
    method SetupStaticField() returns (r: Outcome<Fault>)
      requires cacheSnapshot.TypeTablesValid()
      modifies this`managedObjectByAddr
      ensures var records := StaticRecords(cacheSnapshot.View(), cacheSnapshot.managedTypes);
        && (r.Pass? <==> records.Success?)
        && (r.Fail? ==> r.error == records.error)
        && (r.Pass? ==> managedObjectByAddr == AddFirst(old(managedObjectByAddr), records.value))
    {
      var types := cacheSnapshot.managedTypes;
      ghost var view := cacheSnapshot.View();
      ghost var start := managedObjectByAddr;
      for i := 0 to |types|
        invariant StaticRecords(view, types[..i]).Success?
        invariant managedObjectByAddr == AddFirst(start, StaticRecords(view, types[..i]).value)
      {
        var typeInfo := types[i];
        ghost var done := StaticRecords(view, types[..i]).value;
        assert types[..i + 1][..i] == types[..i];
        assert types[..i + 1][i] == typeInfo;
        var step := SetupTypeStaticFields(typeInfo);
        if step.Fail? {
          StaticRecordsFailurePersists(view, types, i + 1);
          return step;
        }
        AddFirstAppend(start, done, TypeStaticRecords(view, typeInfo).value);
      }
      assert types[..|types|] == types;
      return Pass;
    }

    /** One pass of SetupStaticField's outer loop: the static fields of one type. */
    method SetupTypeStaticFields(typeInfo: ManagedType) returns (r: Outcome<Fault>)
      requires StaticFieldTypesKnown(typeInfo, cacheSnapshot.managedTypeByTypeIndex)
      modifies this`managedObjectByAddr
      ensures var records := TypeStaticRecords(cacheSnapshot.View(), typeInfo);
        && (r.Pass? <==> records.Success?)
        && (r.Fail? ==> r.error == records.error)
        && (r.Pass? ==> managedObjectByAddr == AddFirst(old(managedObjectByAddr), records.value))
    {
      if typeInfo.staticFieldBytes.None? || typeInfo.staticFieldInfos.None? {
        return Pass;
      }
      var staticFieldBytes := typeInfo.staticFieldBytes.value;
      if |staticFieldBytes| == 0 {
        return Pass;
      }
      var fields := typeInfo.staticFieldInfos.value;
      var pointerSize := cacheSnapshot.virtualMachineInformation.pointerSize;
      ghost var view := cacheSnapshot.View();
      ghost var start := managedObjectByAddr;
      for j := 0 to |fields|
        invariant FieldRecords(view, staticFieldBytes, fields[..j]).Success?
        invariant managedObjectByAddr == AddFirst(start, FieldRecords(view, staticFieldBytes, fields[..j]).value)
      {
        var field := fields[j];
        ghost var done := FieldRecords(view, staticFieldBytes, fields[..j]).value;
        assert fields[..j + 1][..j] == fields[..j];
        assert fields[..j + 1][j] == field;
        assert field in fields;
        var fieldType := cacheSnapshot.managedTypeByTypeIndex[field.typeIndex];
        var isValue := fieldType.flags & kValueType != 0;
        if isValue {
          assert FieldRecords(view, staticFieldBytes, fields[..j + 1]) == Success(done);
          continue;
        }
        if field.offset < 0 {
          assert FieldRecords(view, staticFieldBytes, fields[..j + 1]) == Success(done);
          continue;
        }
        assert ReferenceSlot(view, field);
        var addr := ReadPointer(staticFieldBytes, field.offset, pointerSize);
        if addr.Failure? {
          assert FieldRecords(view, staticFieldBytes, fields[..j + 1]) == Failure(addr.error);
          FieldRecordsFailurePersists(view, staticFieldBytes, fields, j + 1);
          return Fail(addr.error);
        }
        var obj := GetManagedObjectInfoFromAddr(addr.value);
        if obj.Failure? {
          assert FieldRecords(view, staticFieldBytes, fields[..j + 1]) == Failure(obj.error);
          FieldRecordsFailurePersists(view, staticFieldBytes, fields, j + 1);
          return Fail(obj.error);
        }
        assert FieldRecords(view, staticFieldBytes, fields[..j + 1]) == Success(done + [obj.value]);
        var added := AddManagedObject(Some(obj.value));
        assert (done + [obj.value])[..|done|] == done;
      }
      assert fields[..|fields|] == fields;
      return Pass;
    }

    /** AddManagedObject: a null record is refused; otherwise insert unless the address is already a key. */
    method AddManagedObject(obj: Option<ManagedObjectInfo>) returns (added: bool)
      modifies this`managedObjectByAddr
      ensures added <==> obj.Some? && obj.value.address !in old(managedObjectByAddr)
      ensures managedObjectByAddr == if added then old(managedObjectByAddr)[obj.value.address := obj.value] else old(managedObjectByAddr)
    {
      if obj.None? {
        return false;
      }
      if obj.value.address in managedObjectByAddr {
        return false;
      }
      managedObjectByAddr := managedObjectByAddr[obj.value.address := obj.value];
      return true;
    }

    /**
      GetManagedObjectInfoFromAddr: the record is filled field by field from
      the first dereference, the first lookup, the second dereference and
      the second lookup, in that order.
     */
    method GetManagedObjectInfoFromAddr(address: u64) returns (r: Result<ManagedObjectInfo, Fault>)
      ensures r == InspectAddress(cacheSnapshot.View(), address)
    {
      var pointerSize := cacheSnapshot.virtualMachineInformation.pointerSize;
      var first := ReadPointerByAddress(cacheSnapshot.sortedManagedMemory, pointerSize, address);
      if first.Failure? {
        return Failure(first.error);
      }
      var newAddr := first.value.value;
      var managedObjectInfo := ManagedObjectInfo(None, address, first.value.memory, first.value.offset, false, 0);
      if newAddr as int in cacheSnapshot.managedTypeByAddr {
        managedObjectInfo := managedObjectInfo.(typeInfo := Some(cacheSnapshot.managedTypeByAddr[newAddr]));
      }
      var second := ReadPointerByAddress(cacheSnapshot.sortedManagedMemory, pointerSize, newAddr);
      if second.Failure? {
        return Failure(second.error);
      }
      var typeInfoAddr := second.value.value;
      if typeInfoAddr as int in cacheSnapshot.managedTypeByAddr {
        var typeInfo := cacheSnapshot.managedTypeByAddr[typeInfoAddr];
        managedObjectInfo := managedObjectInfo.(typeInfo := Some(typeInfo), isArray := typeInfo.IsArray());
      }
      return Success(managedObjectInfo);
    }
  }
}
