/**
  MemorySnapshotMap: native regions, native allocations, native objects and
  managed sections normalised to (start, end, size) entries in one list,
  sorted by start address and then by end address.
 */
module SnapshotMap {
  import opened Words
  import opened Segments
  import opened Sorting
  import opened CacheData

  /** The object a MemoryInfo describes; the CSV prints the name of its type. */
  datatype RelatedObject =
    | Region(region: MemoryRegion)
    | Allocation(allocation: NativeAllocation)
    | NativeObject(nativeObject: NativeObjectEntry)
    | ManagedSection(section: Segment)
  {
    /** The base address the constructor passes for this object. */
    function BaseAddress(): u64 {
      match this
      case Region(r) => r.addressBase
      case Allocation(a) => a.address
      case NativeObject(o) => o.address
      case ManagedSection(m) => m.startAddress
    }

    /** The size the constructor passes for this object; a section's size is its byte count. */
    function Size(): u64 {
      match this
      case Region(r) => r.addressSize
      case Allocation(a) => a.size
      case NativeObject(o) => o.size
      case ManagedSection(m) => |m.bytes|
    }
  }

  datatype MemoryInfo = MemoryInfo(addressStart: u64, addressEnd: u64, memorySize: u64, relatedObject: RelatedObject)

  /** The MemoryInfo constructor: the end is the unchecked ulong sum of base and size. */
  function NewMemoryInfo(baseAddr: u64, size: u64, obj: RelatedObject): (m: MemoryInfo)
    ensures m.addressStart == baseAddr && m.memorySize == size && m.relatedObject == obj
    ensures m.addressEnd == (baseAddr + size) % TWO_64
    ensures baseAddr + size < TWO_64 ==> m.addressEnd - m.addressStart == m.memorySize
    ensures baseAddr + size >= TWO_64 ==> m.addressEnd < m.addressStart
  {
    MemoryInfo(baseAddr, AddU64(baseAddr, size), size, obj)
  }

  /** The entry the constructor makes for an object. */
  function Describe(obj: RelatedObject): MemoryInfo {
    NewMemoryInfo(obj.BaseAddress(), obj.Size(), obj)
  }

  /** An entry says exactly what its related object occupies. */
  predicate Describes(m: MemoryInfo) {
    m == Describe(m.relatedObject)
  }

  /** The entries for one source list, in its order. */
  function Entries<T>(xs: seq<T>, wrap: T -> RelatedObject): (r: seq<MemoryInfo>)
    ensures |r| == |xs| && forall i :: 0 <= i < |xs| ==> r[i] == Describe(wrap(xs[i]))
  {
    seq(|xs|, i requires 0 <= i < |xs| => Describe(wrap(xs[i])))
  }

  /** The unsorted list: regions, then allocations, then native objects, then managed sections. */
  function MapEntries(regions: seq<MemoryRegion>, allocations: seq<NativeAllocation>, objects: seq<NativeObjectEntry>, sections: seq<Segment>): seq<MemoryInfo> {
    Entries(regions, r => Region(r))
    + Entries(allocations, a => Allocation(a))
    + Entries(objects, o => NativeObject(o))
    + Entries(sections, m => ManagedSection(m))
  }

  /** One more object appends its entry. */
  lemma EntriesSnoc<T>(xs: seq<T>, k: nat, wrap: T -> RelatedObject)
    requires k < |xs|
    ensures Entries(xs[..k + 1], wrap) == Entries(xs[..k], wrap) + [Describe(wrap(xs[k]))]
  {
    assert xs[..k + 1][..k] == xs[..k];
  }

  /** Every entry describes its own object, and there is one per object. */
  lemma MapEntriesDescribe(regions: seq<MemoryRegion>, allocations: seq<NativeAllocation>, objects: seq<NativeObjectEntry>, sections: seq<Segment>)
    ensures var lists := MapEntries(regions, allocations, objects, sections);
      && |lists| == |regions| + |allocations| + |objects| + |sections|
      && (forall m :: m in lists ==> Describes(m))
  {
    var lists := MapEntries(regions, allocations, objects, sections);
    forall m | m in lists ensures Describes(m) {
      var k :| 0 <= k < |lists| && lists[k] == m;
    }
  }

  /**
    The Sort comparison as one integer: start first, then end. Two entries
    with the same start and end have the same key and compare equal.
   */
  function StartEndKey(m: MemoryInfo): int {
    m.addressStart * TWO_64 + m.addressEnd
  }

  /** Ordered by start address, and by end address among equal starts. */
  predicate StartEndSorted(s: seq<MemoryInfo>) {
    forall i, j :: 0 <= i < j < |s| ==>
      s[i].addressStart < s[j].addressStart || (s[i].addressStart == s[j].addressStart && s[i].addressEnd <= s[j].addressEnd)
  }

  /** Comparing the keys is comparing (start, end) lexicographically. */
  lemma StartEndKeyIsLexicographic(a: MemoryInfo, b: MemoryInfo)
    ensures StartEndKey(a) <= StartEndKey(b) <==>
      a.addressStart < b.addressStart || (a.addressStart == b.addressStart && a.addressEnd <= b.addressEnd)
    ensures StartEndKey(a) == StartEndKey(b) <==> a.addressStart == b.addressStart && a.addressEnd == b.addressEnd
  {
    if a.addressStart < b.addressStart {
      assert (a.addressStart + 1) * TWO_64 <= b.addressStart * TWO_64;
    } else if a.addressStart > b.addressStart {
      assert (b.addressStart + 1) * TWO_64 <= a.addressStart * TWO_64;
    }
  }

  lemma SortedByKeyIsStartEndSorted(s: seq<MemoryInfo>)
    requires SortedBy(s, StartEndKey)
    ensures StartEndSorted(s)
  {
    forall i, j | 0 <= i < j < |s|
      ensures s[i].addressStart < s[j].addressStart || (s[i].addressStart == s[j].addressStart && s[i].addressEnd <= s[j].addressEnd)
    {
      StartEndKeyIsLexicographic(s[i], s[j]);
    }
  }

  /**
    The sorted entry list is ordered by (start, end), holds the entries it
    was given, and every entry in it is the description of its own object.
   */
  lemma SortedEntries(lists: seq<MemoryInfo>)
    requires forall m :: m in lists ==> Describes(m)
    ensures var sorted := SortByKey(lists, StartEndKey);
      && StartEndSorted(sorted)
      && forall m :: m in sorted ==> Describes(m)
  {
    var sorted := SortByKey(lists, StartEndKey);
    SortedByKeyIsStartEndSorted(sorted);
    forall m | m in sorted ensures Describes(m) {
      assert m in multiset(lists);
    }
  }

  /** The constructor's four append loops. */
  method CollectEntries(regions: seq<MemoryRegion>, allocations: seq<NativeAllocation>, objects: seq<NativeObjectEntry>, sections: seq<Segment>)
    returns (lists: seq<MemoryInfo>)
    ensures lists == MapEntries(regions, allocations, objects, sections)
  {
    lists := [];
    for i := 0 to |regions|
      invariant lists == Entries(regions[..i], r => Region(r))
    {
      var region := regions[i];
      EntriesSnoc(regions, i, r => Region(r));
      lists := lists + [NewMemoryInfo(region.addressBase, region.addressSize, Region(region))];
    }
    assert regions[..|regions|] == regions;
    ghost var done := lists;
    for i := 0 to |allocations|
      invariant lists == done + Entries(allocations[..i], a => Allocation(a))
    {
      var nativeAlloc := allocations[i];
      EntriesSnoc(allocations, i, a => Allocation(a));
      lists := lists + [NewMemoryInfo(nativeAlloc.address, nativeAlloc.size, Allocation(nativeAlloc))];
    }
    assert allocations[..|allocations|] == allocations;
    done := lists;
    for i := 0 to |objects|
      invariant lists == done + Entries(objects[..i], o => NativeObject(o))
    {
      var nativeObj := objects[i];
      EntriesSnoc(objects, i, o => NativeObject(o));
      lists := lists + [NewMemoryInfo(nativeObj.address, nativeObj.size, NativeObject(nativeObj))];
    }
    assert objects[..|objects|] == objects;
    done := lists;
    for i := 0 to |sections|
      invariant lists == done + Entries(sections[..i], m => ManagedSection(m))
    {
      var managedAlloc := sections[i];
      EntriesSnoc(sections, i, m => ManagedSection(m));
      lists := lists + [NewMemoryInfo(managedAlloc.startAddress, |managedAlloc.bytes|, ManagedSection(managedAlloc))];
    }
    assert sections[..|sections|] == sections;
  }

  class MemorySnapshotMap {
    var memoryLists: seq<MemoryInfo>

    /** The constructor: the four lists appended in order, then sorted by (start, end). */
    constructor(cacheData: MemorySnapshotCacheData)
      ensures var lists := MapEntries(cacheData.memoryRegions, cacheData.nativeAllocations, cacheData.nativeObjects, cacheData.sortedManagedMemory);
        && memoryLists == SortByKey(lists, StartEndKey)
        && StartEndSorted(memoryLists)
        && multiset(memoryLists) == multiset(lists)
        && |memoryLists| == |cacheData.memoryRegions| + |cacheData.nativeAllocations| + |cacheData.nativeObjects| + |cacheData.sortedManagedMemory|
        && forall m :: m in memoryLists ==> Describes(m)
    {
      var regions := cacheData.memoryRegions;
      var allocations := cacheData.nativeAllocations;
      var objects := cacheData.nativeObjects;
      var sections := cacheData.sortedManagedMemory;
      var lists := CollectEntries(regions, allocations, objects, sections);
      MapEntriesDescribe(regions, allocations, objects, sections);
      SortedEntries(lists);
      memoryLists := SortByKey(lists, StartEndKey);
    }
  }
}
