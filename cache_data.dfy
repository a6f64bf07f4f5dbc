/**
  MemorySnapshotCacheData: the snapshot's tables copied into lists and
  dictionaries, the managed sections merged and sorted by start address,
  the type tables with resolved field lists, and the cached address format.
 */
module CacheData {
  import opened Wrappers
  import opened Faults
  import opened Words
  import opened AddressFormat
  import opened Segments
  import opened Sorting
  import opened ManagedTypes
  import opened PointerReader
  import opened ObjectRecords

  datatype NativeObjectEntry = NativeObjectEntry(
    objectName: string,
    instanceId: int,
    size: u64,
    nativeTypeArrayIndex: int,
    hideFlag: int,
    flag: int,
    rootReferenceId: int,
    address: u64)

  datatype NativeAllocation = NativeAllocation(
    memoryRegionIndex: int,
    rootReferenceId: int,
    allocationSiteId: int,
    address: u64,
    size: u64,
    overhead: int,
    paddingSize: int)

  datatype RootReference = RootReference(
    id: int,
    areaName: string,
    objectName: string,
    accumulatedSize: u64)

  datatype MemoryRegion = MemoryRegion(
    memoryRegionName: string,
    parentIndex: int,
    addressBase: u64,
    addressSize: u64,
    firstAllocationIndex: int,
    numAllocations: int)

  /** One row of the snapshot's type description table, before any field list is attached. */
  datatype TypeDescription = TypeDescription(
    flags: bv32,
    typeDescriptionName: string,
    assembly: string,
    fieldIndices: Option<seq<int>>,
    staticFieldBytes: Option<ByteArray>,
    baseOrElementTypeIndex: int,
    size: int,
    typeInfoAddress: u64,
    typeIndex: int)

  /** The entry tables of a PackedMemorySnapshot, as its GetEntries calls hand them over. */
  datatype PackedSnapshot = PackedSnapshot(
    virtualMachineInformation: VirtualMachineInformation,
    nativeObjects: seq<NativeObjectEntry>,
    nativeAllocations: seq<NativeAllocation>,
    nativeRootReferences: seq<RootReference>,
    nativeMemoryRegions: seq<MemoryRegion>,
    typeDescriptions: seq<TypeDescription>,
    fieldDescriptions: seq<ManagedFieldInfo>,
    managedHeapSections: seq<Segment>,
    managedStacks: seq<Segment>,
    gcHandles: seq<u64>)

  /** The ManagedType CreateManagedTypes builds from a description: no field lists yet. */
  function NewManagedType(d: TypeDescription): (t: ManagedType)
    ensures t.instanceFieldInfos.None? && t.staticFieldInfos.None?
    ensures t.typeInfoAddress == d.typeInfoAddress && t.typeIndex == d.typeIndex && t.fieldIndices == d.fieldIndices
  {
    ManagedType(d.flags, d.typeDescriptionName, d.assembly, d.fieldIndices, d.staticFieldBytes,
      d.baseOrElementTypeIndex, d.size, d.typeInfoAddress, d.typeIndex, None, None)
  }

  function NewManagedTypes(ds: seq<TypeDescription>): (ts: seq<ManagedType>)
    ensures |ts| == |ds| && forall i :: 0 <= i < |ds| ==> ts[i] == NewManagedType(ds[i])
  {
    seq(|ds|, i requires 0 <= i < |ds| => NewManagedType(ds[i]))
  }

  function NativeObjectAddress(e: NativeObjectEntry): int {
    e.address
  }

  function NativeAllocationAddress(e: NativeAllocation): int {
    e.address
  }

  function RootReferenceId(e: RootReference): int {
    e.id
  }

  function SectionStart(m: Segment): int {
    m.startAddress
  }

  /** Every field description names a type index that some type description carries. */
  predicate FieldTypesDescribed(snapshot: PackedSnapshot) {
    forall f :: f in snapshot.fieldDescriptions ==>
      exists i :: 0 <= i < |snapshot.typeDescriptions| && snapshot.typeDescriptions[i].typeIndex == f.typeIndex
  }

  /**
    The snapshots whose types and fields load without an exception: both
    type keys distinct, every field type described, every field index in
    range.
   */
  predicate TypesLoadable(snapshot: PackedSnapshot) {
    var types := NewManagedTypes(snapshot.typeDescriptions);
    && DistinctKeys(types, TypeInfoAddressKey) && DistinctKeys(types, TypeIndexKey)
    && FieldTypesDescribed(snapshot)
    && ResolveAll(types, snapshot.fieldDescriptions).Success?
  }

  /** The snapshots the constructor loads without an exception (before the crawl). */
  predicate Loadable(snapshot: PackedSnapshot) {
    DistinctKeys(snapshot.nativeRootReferences, RootReferenceId) && TypesLoadable(snapshot)
  }

  class MemorySnapshotCacheData {
    const virtualMachineInformation: VirtualMachineInformation
    var nativeObjects: seq<NativeObjectEntry>
    var nativeAllocations: seq<NativeAllocation>
    var rootReferences: map<int, RootReference>
    var memoryRegions: seq<MemoryRegion>
    var managedTypes: seq<ManagedType>
    var managedFieldInfos: seq<ManagedFieldInfo>
    var managedTypeByAddr: map<int, ManagedType>
    var managedTypeByTypeIndex: map<int, ManagedType>
    var managedHeap: seq<Segment>
    var managedStack: seq<Segment>
    var sortedManagedMemory: seq<Segment>
    var gcHandles: seq<u64>
    var managedObjectByAddr: map<u64, ManagedObjectInfo>
    /** The lazily built format string; "" stands for the initial null. */
    var x16FormatCache: string

    /**
      The type tables hold entries of the type list under their own keys,
      and every static field list names only field types the
      by-type-index table knows.
     */
    predicate TypeTablesValid()
      reads this`managedTypes, this`managedTypeByAddr, this`managedTypeByTypeIndex
    {
      && (forall k :: k in managedTypeByAddr ==> managedTypeByAddr[k] in managedTypes)
      && (forall k :: k in managedTypeByTypeIndex ==> managedTypeByTypeIndex[k] in managedTypes)
      && (forall t :: t in managedTypes ==> StaticFieldTypesKnown(t, managedTypeByTypeIndex))
    }

    /** The format cache is still empty or holds the pattern for this pointer size. */
    predicate FormatCacheValid()
      reads this`x16FormatCache
    {
      x16FormatCache == "" || x16FormatCache == AddressPattern(virtualMachineInformation.pointerSize)
    }

    /** What holds of the cache between its steps. */
    predicate Valid()
      reads this`managedTypes, this`managedTypeByAddr, this`managedTypeByTypeIndex, this`x16FormatCache
    {
      TypeTablesValid() && FormatCacheValid()
    }

    /** What a crawl reads from the cache. */
    function View(): CacheView
      reads this`sortedManagedMemory, this`managedTypeByAddr, this`managedTypeByTypeIndex
    {
      CacheView(sortedManagedMemory, virtualMachineInformation, managedTypeByAddr, managedTypeByTypeIndex)
    }

    constructor(virtualMachineInformation: VirtualMachineInformation)
      ensures this.virtualMachineInformation == virtualMachineInformation
      ensures nativeObjects == [] && nativeAllocations == [] && rootReferences == map[] && memoryRegions == []
      ensures managedTypes == [] && managedFieldInfos == [] && managedTypeByAddr == map[] && managedTypeByTypeIndex == map[]
      ensures managedHeap == [] && managedStack == [] && sortedManagedMemory == [] && gcHandles == []
      ensures managedObjectByAddr == map[] && x16FormatCache == ""
      ensures Valid()
    {
      this.virtualMachineInformation := virtualMachineInformation;
      nativeObjects, nativeAllocations, rootReferences, memoryRegions := [], [], map[], [];
      managedTypes, managedFieldInfos, managedTypeByAddr, managedTypeByTypeIndex := [], [], map[], map[];
      managedHeap, managedStack, sortedManagedMemory, gcHandles := [], [], [], [];
      managedObjectByAddr, x16FormatCache := map[], "";
    }

    /** x16StrFormat: builds "0x{0:X<2*pointerSize>}" on first use and keeps it. */
    method X16StrFormat() returns (format: string)
      requires Valid()
      modifies this`x16FormatCache
      ensures Valid()
      ensures format == AddressPattern(virtualMachineInformation.pointerSize) && x16FormatCache == format
    {
      if |x16FormatCache| == 0 {
        x16FormatCache := "0x{0:X" + Decimal(virtualMachineInformation.pointerSize * 2) + "}";
      }
      return x16FormatCache;
    }

    /**
      GetAddressStr: the address formatted with the cached pattern. The
      pattern is built (and cached) by X16StrFormat; FormatAddress is the
      text string.Format prints for AddressPattern(pointerSize) and `addr`.
     */
    method GetAddressStr(addr: u64) returns (s: string)
      requires Valid() && 0 <= virtualMachineInformation.pointerSize
      modifies this`x16FormatCache
      ensures Valid()
      ensures x16FormatCache == AddressPattern(virtualMachineInformation.pointerSize)
      ensures s == FormatAddress(addr, virtualMachineInformation.pointerSize)
    {
      var _ := X16StrFormat();
      s := FormatAddress(addr, virtualMachineInformation.pointerSize);
    }

    /** CreateNativeObjects: copy the entries, then sort them by address. */
    method CreateNativeObjects(entries: seq<NativeObjectEntry>)
      modifies this`nativeObjects
      ensures nativeObjects == SortByKey(entries, NativeObjectAddress)
      ensures SortedBy(nativeObjects, NativeObjectAddress) && multiset(nativeObjects) == multiset(entries)
    {
      var copied: seq<NativeObjectEntry> := [];
      for i := 0 to |entries|
        invariant copied == entries[..i]
      {
        copied := copied + [entries[i]];
      }
      assert entries[..|entries|] == entries;
      nativeObjects := SortByKey(copied, NativeObjectAddress);
    }

    /** CreateNativeAllocation: copy the entries, then sort them by address. */
    method CreateNativeAllocation(entries: seq<NativeAllocation>)
      modifies this`nativeAllocations
      ensures nativeAllocations == SortByKey(entries, NativeAllocationAddress)
      ensures SortedBy(nativeAllocations, NativeAllocationAddress) && multiset(nativeAllocations) == multiset(entries)
    {
      var copied: seq<NativeAllocation> := [];
      for i := 0 to |entries|
        invariant copied == entries[..i]
      {
        copied := copied + [entries[i]];
      }
      assert entries[..|entries|] == entries;
      nativeAllocations := SortByKey(copied, NativeAllocationAddress);
    }

    /** CreateRootReferences: Dictionary.Add of every entry under its id; a repeated id throws. */
    method CreateRootReferences(entries: seq<RootReference>) returns (r: Outcome<Fault>)
      modifies this`rootReferences
      ensures r.Pass? <==> DistinctKeys(entries, RootReferenceId)
      ensures r.Pass? ==> rootReferences.Keys == set i | 0 <= i < |entries| :: entries[i].id
      ensures r.Pass? ==> forall i :: 0 <= i < |entries| ==> rootReferences[entries[i].id] == entries[i]
      ensures r.Fail? ==> exists i, j :: 0 <= i < j < |entries| && entries[i].id == entries[j].id && r.error == DuplicateKey(entries[j].id)
    {
      var table := IndexByKey(entries, RootReferenceId);
      match table
      case Failure(e) =>
        return Fail(e);
      case Success(m) =>
        rootReferences := m;
        return Pass;
    }

    /** CreateMemoryRegion: the regions in snapshot order. */
    method CreateMemoryRegion(entries: seq<MemoryRegion>)
      modifies this`memoryRegions
      ensures memoryRegions == entries
    {
      var copied: seq<MemoryRegion> := [];
      for i := 0 to |entries|
        invariant copied == entries[..i]
      {
        copied := copied + [entries[i]];
      }
      assert entries[..|entries|] == entries;
      memoryRegions := copied;
    }

    /** CreateManagedTypes: the type list, then the Dictionaries by type-info address and by type index. */
    method CreateManagedTypes(entries: seq<TypeDescription>) returns (r: Outcome<Fault>)
      modifies this`managedTypes, this`managedTypeByAddr, this`managedTypeByTypeIndex
      ensures managedTypes == NewManagedTypes(entries)
      ensures r.Pass? <==> DistinctKeys(managedTypes, TypeInfoAddressKey) && DistinctKeys(managedTypes, TypeIndexKey)
      ensures r.Fail? ==> r.error.DuplicateKey?
      ensures r.Pass? ==>
        && managedTypeByAddr.Keys == (set i | 0 <= i < |managedTypes| :: managedTypes[i].typeInfoAddress as int)
        && managedTypeByTypeIndex.Keys == (set i | 0 <= i < |managedTypes| :: managedTypes[i].typeIndex)
      ensures r.Pass? ==> forall k :: k in managedTypeByAddr ==> managedTypeByAddr[k] in managedTypes && managedTypeByAddr[k].typeInfoAddress == k
      ensures r.Pass? ==> forall k :: k in managedTypeByTypeIndex ==> managedTypeByTypeIndex[k] in managedTypes && managedTypeByTypeIndex[k].typeIndex == k
      ensures r.Pass? ==> TypeTablesValid()
    {
      var types: seq<ManagedType> := [];
      for i := 0 to |entries|
        invariant |types| == i && forall j :: 0 <= j < i ==> types[j] == NewManagedType(entries[j])
      {
        types := types + [NewManagedType(entries[i])];
      }
      managedTypes := types;
      var byAddr := IndexByKey(types, TypeInfoAddressKey);
      if byAddr.Failure? {
        return Fail(byAddr.error);
      }
      var byTypeIndex := IndexByKey(types, TypeIndexKey);
      if byTypeIndex.Failure? {
        return Fail(byTypeIndex.error);
      }
      IndexedValues(types, TypeInfoAddressKey, byAddr.value);
      IndexedValues(types, TypeIndexKey, byTypeIndex.value);
      managedTypeByAddr := byAddr.value;
      managedTypeByTypeIndex := byTypeIndex.value;
      return Pass;
    }

    /** CreateManagedFieldInfos: the field descriptions in snapshot order. */
    method CreateManagedFieldInfos(entries: seq<ManagedFieldInfo>)
      modifies this`managedFieldInfos
      ensures managedFieldInfos == entries
    {
      var copied: seq<ManagedFieldInfo> := [];
      for i := 0 to |entries|
        invariant copied == entries[..i]
      {
        copied := copied + [entries[i]];
      }
      assert entries[..|entries|] == entries;
      managedFieldInfos := copied;
    }

    /**
      ResolveManagedFieldType: every field's type index must be in the
      by-type-index table (the indexer throws otherwise); then each type
      with field indices gets its static and instance field lists. The
      tables hold the very objects of the list, so they see the lists too.
     */
    method ResolveManagedFieldType() returns (r: Outcome<Fault>)
      requires TypeTablesValid()
      modifies this`managedTypes, this`managedTypeByAddr, this`managedTypeByTypeIndex
      ensures (exists f :: f in managedFieldInfos && f.typeIndex !in old(managedTypeByTypeIndex)) ==>
        r.Fail? && r.error.KeyNotFound? && r.error.key !in old(managedTypeByTypeIndex)
      ensures (forall f :: f in managedFieldInfos ==> f.typeIndex in old(managedTypeByTypeIndex)) ==>
        && (r.Pass? <==> ResolveAll(old(managedTypes), managedFieldInfos).Success?)
        && (r.Fail? ==> r == Fail(ResolveAll(old(managedTypes), managedFieldInfos).error))
      ensures r.Pass? ==>
        && managedTypes == ResolveAll(old(managedTypes), managedFieldInfos).value
        && managedTypeByAddr == ResolveTable(old(managedTypeByAddr), managedFieldInfos)
        && managedTypeByTypeIndex == ResolveTable(old(managedTypeByTypeIndex), managedFieldInfos)
      ensures r.Pass? ==> TypeTablesValid()
      ensures r.Fail? ==> unchanged(this)
    {
      var fields := managedFieldInfos;
      var types := managedTypes;
      var byAddr := managedTypeByAddr;
      var byTypeIndex := managedTypeByTypeIndex;
      r := CheckFieldTypes(fields, byTypeIndex);
      if r.Fail? {
        return;
      }
      var resolved := ResolveTypes(types, fields);
      if resolved.Failure? {
        return Fail(resolved.error);
      }
      ResolvedStaysValid(types, byAddr, byTypeIndex, fields);
      managedTypeByAddr := ResolveTable(byAddr, fields);
      managedTypeByTypeIndex := ResolveTable(byTypeIndex, fields);
      managedTypes := resolved.value;
    }

    /** CreateSortedMangedMemoryList: heap sections, then stacks, sorted by start address. */
    method CreateSortedManagedMemoryList()
      modifies this`sortedManagedMemory
      ensures sortedManagedMemory == SortByKey(managedHeap + managedStack, SectionStart)
      ensures multiset(sortedManagedMemory) == multiset(managedHeap) + multiset(managedStack)
      ensures SortedBy(sortedManagedMemory, SectionStart)
    {
      var merged: seq<Segment> := [];
      for i := 0 to |managedHeap|
        invariant merged == managedHeap[..i]
      {
        merged := merged + [managedHeap[i]];
      }
      assert managedHeap[..|managedHeap|] == managedHeap;
      for i := 0 to |managedStack|
        invariant merged == managedHeap + managedStack[..i]
      {
        merged := merged + [managedStack[i]];
      }
      assert managedStack[..|managedStack|] == managedStack;
      sortedManagedMemory := SortByKey(merged, SectionStart);
    }

    /** The native half of construction: objects, allocations, root references and regions. */
    method LoadNative(snapshot: PackedSnapshot) returns (r: Outcome<Fault>)
      modifies this`nativeObjects, this`nativeAllocations, this`rootReferences, this`memoryRegions
      ensures r.Pass? <==> DistinctKeys(snapshot.nativeRootReferences, RootReferenceId)
      ensures nativeObjects == SortByKey(snapshot.nativeObjects, NativeObjectAddress)
      ensures nativeAllocations == SortByKey(snapshot.nativeAllocations, NativeAllocationAddress)
      ensures r.Pass? ==> memoryRegions == snapshot.nativeMemoryRegions
    {
      CreateNativeObjects(snapshot.nativeObjects);
      CreateNativeAllocation(snapshot.nativeAllocations);
      r := CreateRootReferences(snapshot.nativeRootReferences);
      if r.Fail? { return; }
      CreateMemoryRegion(snapshot.nativeMemoryRegions);
    }

    /** The type list, the field list and both tables as LoadTypes leaves them for `snapshot`. */
    predicate TypesLoaded(snapshot: PackedSnapshot)
      reads this`managedTypes, this`managedTypeByAddr, this`managedTypeByTypeIndex, this`managedFieldInfos
    {
      && TypeTablesValid()
      && managedFieldInfos == snapshot.fieldDescriptions
      && ResolveAll(NewManagedTypes(snapshot.typeDescriptions), snapshot.fieldDescriptions).Success?
      && managedTypes == ResolveAll(NewManagedTypes(snapshot.typeDescriptions), snapshot.fieldDescriptions).value
    }

    /** The merged section list and the GC handles as LoadManaged leaves them for `snapshot`. */
    predicate MemoryLoaded(snapshot: PackedSnapshot)
      reads this`sortedManagedMemory, this`gcHandles
    {
      && sortedManagedMemory == SortByKey(snapshot.managedHeapSections + snapshot.managedStacks, SectionStart)
      && gcHandles == snapshot.gcHandles
    }

    /** Types, fields and their resolution. */
    method LoadTypes(snapshot: PackedSnapshot) returns (r: Outcome<Fault>)
      modifies this`managedTypes, this`managedTypeByAddr, this`managedTypeByTypeIndex, this`managedFieldInfos
      ensures r.Pass? <==> TypesLoadable(snapshot)
      ensures r.Pass? ==> TypesLoaded(snapshot)
    {
      r := CreateManagedTypes(snapshot.typeDescriptions);
      if r.Fail? { return; }
      CreateManagedFieldInfos(snapshot.fieldDescriptions);
      ghost var types := managedTypes;
      assert types == NewManagedTypes(snapshot.typeDescriptions);
      FieldTypesKnownIffDescribed(snapshot, managedTypeByTypeIndex);
      r := ResolveManagedFieldType();
    }

    /** The managed half of construction: types and fields, then sections and GC handles. */
    method LoadManaged(snapshot: PackedSnapshot) returns (r: Outcome<Fault>)
      modifies this`managedTypes, this`managedTypeByAddr, this`managedTypeByTypeIndex, this`managedFieldInfos
      modifies this`managedHeap, this`managedStack, this`sortedManagedMemory, this`gcHandles
      ensures r.Pass? <==> TypesLoadable(snapshot)
      ensures r.Pass? ==> TypesLoaded(snapshot) && MemoryLoaded(snapshot)
    {
      r := LoadTypes(snapshot);
      if r.Fail? { return; }
      managedHeap := snapshot.managedHeapSections;
      managedStack := snapshot.managedStacks;
      CreateSortedManagedMemoryList();
      gcHandles := snapshot.gcHandles;
      assert TypesLoaded(snapshot);
    }

    /** Every table as the constructor leaves it for `snapshot`. */
    predicate Loaded(snapshot: PackedSnapshot)
      reads this`nativeObjects, this`nativeAllocations, this`rootReferences, this`memoryRegions
      reads this`managedTypes, this`managedTypeByAddr, this`managedTypeByTypeIndex, this`managedFieldInfos
      reads this`sortedManagedMemory, this`gcHandles
    {
      && nativeObjects == SortByKey(snapshot.nativeObjects, NativeObjectAddress)
      && nativeAllocations == SortByKey(snapshot.nativeAllocations, NativeAllocationAddress)
      && DistinctKeys(snapshot.nativeRootReferences, RootReferenceId)
      && memoryRegions == snapshot.nativeMemoryRegions
      && TypesLoaded(snapshot)
      && MemoryLoaded(snapshot)
    }

    /** The constructor's steps after the snapshot is read, in their order; an exception in any step ends construction. */
    method Build(snapshot: PackedSnapshot) returns (r: Outcome<Fault>)
      modifies this`nativeObjects, this`nativeAllocations, this`rootReferences, this`memoryRegions
      modifies this`managedTypes, this`managedTypeByAddr, this`managedTypeByTypeIndex, this`managedFieldInfos
      modifies this`managedHeap, this`managedStack, this`sortedManagedMemory, this`gcHandles
      ensures r.Pass? <==> Loadable(snapshot)
      ensures r.Pass? ==> Loaded(snapshot)
      ensures r.Pass? && FormatCacheValid() ==> Valid()
    {
      r := LoadNative(snapshot);
      if r.Fail? { return; }
      ghost var nativeObjects, nativeAllocations, memoryRegions := nativeObjects, nativeAllocations, memoryRegions;
      r := LoadManaged(snapshot);
      if r.Fail? { return; }
      assert this.nativeObjects == nativeObjects && this.nativeAllocations == nativeAllocations && this.memoryRegions == memoryRegions;
    }

    /**
      PackedMemorySnapshot.Load's result through the constructor, before the
      crawl: a fresh cache holding every table built from the snapshot, or
      the first step's exception.
     */
    static method Load(snapshot: PackedSnapshot) returns (cache: MemorySnapshotCacheData, r: Outcome<Fault>)
      ensures fresh(cache) && cache.virtualMachineInformation == snapshot.virtualMachineInformation
      ensures r.Pass? <==> Loadable(snapshot)
      ensures r.Pass? ==> cache.Valid() && cache.Loaded(snapshot) && cache.managedObjectByAddr == map[]
    {
      cache := new MemorySnapshotCacheData(snapshot.virtualMachineInformation);
      assert cache.FormatCacheValid() && cache.managedObjectByAddr == map[];
      r := cache.Build(snapshot);
      assert r.Pass? ==> cache.Valid();
    }
  }

  /** ResolveManagedFieldType's first loop: the by-type-index indexer on every field's type index. */
  method CheckFieldTypes(fields: seq<ManagedFieldInfo>, byTypeIndex: map<int, ManagedType>) returns (r: Outcome<Fault>)
    ensures r.Pass? <==> forall f :: f in fields ==> f.typeIndex in byTypeIndex
    ensures r.Fail? ==> exists i :: 0 <= i < |fields| && r.error == KeyNotFound(fields[i].typeIndex) && fields[i].typeIndex !in byTypeIndex
  {
    for i := 0 to |fields|
      invariant forall j :: 0 <= j < i ==> fields[j].typeIndex in byTypeIndex
    {
      if fields[i].typeIndex !in byTypeIndex {
        return Fail(KeyNotFound(fields[i].typeIndex));
      }
    }
    return Pass;
  }

  /** ResolveManagedFieldType's second loop: each type with field indices gets its instance and static lists. */
  method ResolveTypes(types: seq<ManagedType>, fields: seq<ManagedFieldInfo>) returns (r: Result<seq<ManagedType>, Fault>)
    ensures r == ResolveAll(types, fields)
  {
    var resolved: seq<ManagedType> := [];
    for i := 0 to |types|
      invariant ResolveAll(types[..i], fields) == Success(resolved)
    {
      var typeInfo := types[i];
      assert types[..i + 1] == types[..i] + [typeInfo];
      assert types[..i + 1][..i] == types[..i];
      if typeInfo.fieldIndices.None? {
        resolved := resolved + [typeInfo];
      } else {
        var split := SplitFieldInfos(typeInfo.fieldIndices.value, fields);
        if split.Failure? {
          ResolveAllFirstFailure(types, i, fields);
          return Failure(split.error);
        }
        resolved := resolved + [typeInfo.(instanceFieldInfos := Some(split.value.0), staticFieldInfos := Some(split.value.1))];
      }
    }
    assert types[..|types|] == types;
    return Success(resolved);
  }

  /** When the i-th type is the first that fails, the whole resolution fails with its fault. */
  lemma {:induction false} ResolveAllFirstFailure(types: seq<ManagedType>, i: nat, fields: seq<ManagedFieldInfo>)
    requires i < |types|
    requires ResolveAll(types[..i], fields).Success?
    requires ResolveType(types[i], fields).Failure?
    ensures ResolveAll(types, fields) == Failure(ResolveType(types[i], fields).error)
    decreases |types|
  {
    if i < |types| - 1 {
      var init := types[..|types| - 1];
      assert init[..i] == types[..i];
      assert init[i] == types[i];
      ResolveAllFirstFailure(init, i, fields);
    } else {
      assert types[..|types| - 1] == types[..i];
    }
  }

  /**
    Resolution keeps the cache's invariant: the resolved tables hold
    resolved list entries, and every static field list it attaches names
    field types the table knows (its keys do not change).
   */
  lemma ResolvedStaysValid(types: seq<ManagedType>, byAddr: map<int, ManagedType>, byTypeIndex: map<int, ManagedType>, fields: seq<ManagedFieldInfo>)
    requires forall k :: k in byAddr ==> byAddr[k] in types
    requires forall k :: k in byTypeIndex ==> byTypeIndex[k] in types
    requires forall t :: t in types ==> StaticFieldTypesKnown(t, byTypeIndex)
    requires forall f :: f in fields ==> f.typeIndex in byTypeIndex
    requires ResolveAll(types, fields).Success?
    ensures forall k :: k in byAddr ==> ResolveType(byAddr[k], fields).Success?
    ensures forall k :: k in byTypeIndex ==> ResolveType(byTypeIndex[k], fields).Success?
    ensures var rs := ResolveAll(types, fields).value;
      && (forall k :: k in byAddr ==> ResolveType(byAddr[k], fields).value in rs)
      && (forall k :: k in byTypeIndex ==> ResolveType(byTypeIndex[k], fields).value in rs)
      && (forall t :: t in rs ==> StaticFieldTypesKnown(t, ResolveTable(byTypeIndex, fields)))
  {
    var rs := ResolveAll(types, fields).value;
    forall t | t in types ensures ResolveType(t, fields).Success? && ResolveType(t, fields).value in rs {
      var i :| 0 <= i < |types| && types[i] == t;
    }
    forall t | t in rs ensures StaticFieldTypesKnown(t, ResolveTable(byTypeIndex, fields)) {
      var i :| 0 <= i < |rs| && rs[i] == t;
      assert rs[i] == ResolveType(types[i], fields).value;
      assert StaticFieldTypesKnown(types[i], byTypeIndex);
    }
  }

  /** After CreateManagedTypes, a field's type index is a key of the by-type-index table exactly when a description carries it. */
  lemma FieldTypesKnownIffDescribed(snapshot: PackedSnapshot, byTypeIndex: map<int, ManagedType>)
    requires byTypeIndex.Keys == set i | 0 <= i < |snapshot.typeDescriptions| :: NewManagedTypes(snapshot.typeDescriptions)[i].typeIndex
    ensures (forall f :: f in snapshot.fieldDescriptions ==> f.typeIndex in byTypeIndex) <==> FieldTypesDescribed(snapshot)
  {
    var ds := snapshot.typeDescriptions;
    forall f | f in snapshot.fieldDescriptions
      ensures f.typeIndex in byTypeIndex <==> exists i :: 0 <= i < |ds| && ds[i].typeIndex == f.typeIndex
    {
      if f.typeIndex in byTypeIndex {
        var i :| 0 <= i < |ds| && NewManagedTypes(ds)[i].typeIndex == f.typeIndex;
        assert ds[i].typeIndex == f.typeIndex;
      }
      if exists i :: 0 <= i < |ds| && ds[i].typeIndex == f.typeIndex {
        var i :| 0 <= i < |ds| && ds[i].typeIndex == f.typeIndex;
        assert NewManagedTypes(ds)[i].typeIndex == f.typeIndex;
      }
    }
  }
}
