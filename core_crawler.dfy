/**
  The current ManagedObjectCrawler: one record per GC-handle target that
  lies in a managed section, kept in an address-keyed Dictionary in which
  the first record for an address wins.
 */
module CoreCrawler {
  import opened Wrappers
  import opened Faults
  import opened Words
  import opened Segments
  import opened PointerReader
  import opened ObjectRecords
  import opened CacheData

  class ManagedObjectCrawler {
    const cacheSnapshot: MemorySnapshotCacheData
    var managedObjectByAddr: map<u64, ManagedObjectInfo>

    constructor(cacheData: MemorySnapshotCacheData)
      ensures cacheSnapshot == cacheData && managedObjectByAddr == map[]
    {
      cacheSnapshot := cacheData;
      managedObjectByAddr := map[];
    }

    /** Execute: a fresh table filled from the GC handles. */
    method Execute() returns (r: Result<map<u64, ManagedObjectInfo>, Fault>)
      modifies this`managedObjectByAddr
      ensures r == CoreCrawl(cacheSnapshot.View(), cacheSnapshot.gcHandles)
      ensures r.Success? ==> managedObjectByAddr == r.value
    {
      managedObjectByAddr := map[];
      var step := SetupFromGcHandle();
      if step.Fail? {
        return Failure(step.error);
      }
      return Success(managedObjectByAddr);
    }

    /** SetupFromGcHandle: every handle whose target lies in a section is inspected and added. */
    method SetupFromGcHandle() returns (r: Outcome<Fault>)
      modifies this`managedObjectByAddr
      ensures var records := GcHandleRecords(cacheSnapshot.View(), cacheSnapshot.gcHandles);
        && (r.Pass? <==> records.Success?)
        && (r.Fail? ==> r.error == records.error)
        && (r.Pass? ==> managedObjectByAddr == AddFirst(old(managedObjectByAddr), records.value))
    {
      var gcHandles := cacheSnapshot.gcHandles;
      ghost var view := cacheSnapshot.View();
      ghost var start := managedObjectByAddr;
      for i := 0 to |gcHandles|
        invariant GcHandleRecords(view, gcHandles[..i]).Success?
        invariant managedObjectByAddr == AddFirst(start, GcHandleRecords(view, gcHandles[..i]).value)
      {
        var address := gcHandles[i];
        ghost var done := GcHandleRecords(view, gcHandles[..i]).value;
        assert gcHandles[..i + 1][..i] == gcHandles[..i];
        assert gcHandles[..i + 1][i] == address;
        var managedMemory := GetManagedMemory(cacheSnapshot.sortedManagedMemory, address);
        if managedMemory.Some? {
          var managedObjectInfo := GetManagedObjectInfoFromAddr(address);
          if managedObjectInfo.Failure? {
            GcHandleRecordsFailurePersists(view, gcHandles, i + 1);
            return Fail(managedObjectInfo.error);
          }
          var added := AddManagedObject(managedObjectInfo.value);
          assert (done + [managedObjectInfo.value])[..|done|] == done;
        }
      }
      assert gcHandles[..|gcHandles|] == gcHandles;
      return Pass;
    }

    /** AddManagedObject: insert under the record's address unless the address is already a key. */
    method AddManagedObject(obj: ManagedObjectInfo) returns (added: bool)
      modifies this`managedObjectByAddr
      ensures added <==> obj.address !in old(managedObjectByAddr)
      ensures managedObjectByAddr == if added then old(managedObjectByAddr)[obj.address := obj] else old(managedObjectByAddr)
    {
      if obj.address in managedObjectByAddr {
        return false;
      }
      managedObjectByAddr := managedObjectByAddr[obj.address := obj];
      return true;
    }

    /**
      GetManagedObjectInfoFromAddr: the record is filled field by field from
      the first dereference, the first lookup, the second dereference and
      the second lookup, in that order.
     */
    method GetManagedObjectInfoFromAddr(address: u64) returns (r: Result<ManagedObjectInfo, Fault>)
      ensures r == InspectAddress(cacheSnapshot.View(), address)
    {
      var pointerSize := cacheSnapshot.virtualMachineInformation.pointerSize;
      var first := ReadPointerByAddress(cacheSnapshot.sortedManagedMemory, pointerSize, address);
      if first.Failure? {
        return Failure(first.error);
      }
      var newAddr := first.value.value;
      var managedObjectInfo := ManagedObjectInfo(None, address, first.value.memory, first.value.offset, false, 0);
      if newAddr as int in cacheSnapshot.managedTypeByAddr {
        managedObjectInfo := managedObjectInfo.(typeInfo := Some(cacheSnapshot.managedTypeByAddr[newAddr]));
      }
      var second := ReadPointerByAddress(cacheSnapshot.sortedManagedMemory, pointerSize, newAddr);
      if second.Failure? {
        return Failure(second.error);
      }
      var typeInfoAddr := second.value.value;
      if typeInfoAddr as int in cacheSnapshot.managedTypeByAddr {
        var typeInfo := cacheSnapshot.managedTypeByAddr[typeInfoAddr];
        managedObjectInfo := managedObjectInfo.(typeInfo := Some(typeInfo), isArray := typeInfo.IsArray());
      }
      return Success(managedObjectInfo);
    }
  }

  /**
    The whole MemorySnapshotCacheData constructor: the tables, then the
    crawl, whose table the cache keeps.
   */
  method LoadCacheData(snapshot: PackedSnapshot) returns (cache: MemorySnapshotCacheData, r: Outcome<Fault>)
    ensures fresh(cache)
    ensures r.Pass? <==> Loadable(snapshot) && CoreCrawl(cache.View(), cache.gcHandles).Success?
    ensures r.Pass? ==> cache.Valid() && cache.MemoryLoaded(snapshot)
    ensures r.Pass? ==>
      && CoreCrawl(cache.View(), cache.gcHandles).Success?
      && cache.managedObjectByAddr == CoreCrawl(cache.View(), cache.gcHandles).value
  {
    cache, r := MemorySnapshotCacheData.Load(snapshot);
    if r.Fail? { return; }
    var crawler := new ManagedObjectCrawler(cache);
    var table := crawler.Execute();
    if table.Failure? {
      return cache, Fail(table.error);
    }
    ghost var view, gcHandles := cache.View(), cache.gcHandles;
    assert cache.Valid() && cache.MemoryLoaded(snapshot);
    cache.managedObjectByAddr := table.value;
    assert cache.View() == view && cache.gcHandles == gcHandles;
  }
}
