/**
  The records the object crawler builds (ManagedObjectInfo), what
  GetManagedObjectInfoFromAddr puts in one, which roots the two crawler
  revisions visit, and the address-keyed table in which the first record
  for an address wins.
 */
module ObjectRecords {
  import opened Wrappers
  import opened Faults
  import opened Words
  import opened Segments
  import opened ManagedTypes
  import opened PointerReader

  /** MemorySnapshotCacheData.ManagedObjectInfo; arrayLength is never written by the crawler and stays 0. */
  datatype ManagedObjectInfo = ManagedObjectInfo(
    typeInfo: Option<ManagedType>,
    address: u64,
    memoryBlock: Option<Segment>,
    offset: int,
    isArray: bool,
    arrayLength: int)

  /** The parts of the snapshot cache that a crawl reads. */
  datatype CacheView = CacheView(
    sortedManagedMemory: seq<Segment>,
    vm: VirtualMachineInformation,
    managedTypeByAddr: map<int, ManagedType>,
    managedTypeByTypeIndex: map<int, ManagedType>)

  function Deref(view: CacheView, addr: u64): Result<PointerReader.Deref, Fault> {
    ReadPointerByAddress(view.sortedManagedMemory, view.vm.pointerSize, addr)
  }

  /**
    GetManagedObjectInfoFromAddr: dereference `address`, look the value up as
    a type, dereference that value again and look the second value up; the
    second match overrides the first and decides isArray. The section and
    offset recorded are those of the first dereference.
   */
  function InspectAddress(view: CacheView, address: u64): (r: Result<ManagedObjectInfo, Fault>)
    ensures r.Success? <==> Deref(view, address).Success? && Deref(view, Deref(view, address).value.value).Success?
    ensures r.Success? ==>
      && r.value.address == address
      && r.value.memoryBlock == Deref(view, address).value.memory
      && r.value.offset == Deref(view, address).value.offset
      && (r.value.memoryBlock.None? ==> r.value.offset == 0)
      && r.value.arrayLength == 0
    ensures r.Success? ==>
      var v1 := Deref(view, address).value.value;
      var v2 := Deref(view, v1).value.value;
      && (r.value.typeInfo.Some? <==> v1 in view.managedTypeByAddr || v2 in view.managedTypeByAddr)
      && (v2 in view.managedTypeByAddr ==> r.value.typeInfo == Some(view.managedTypeByAddr[v2]))
      && (v2 !in view.managedTypeByAddr && v1 in view.managedTypeByAddr ==> r.value.typeInfo == Some(view.managedTypeByAddr[v1]))
      && (r.value.isArray <==> v2 in view.managedTypeByAddr && view.managedTypeByAddr[v2].IsArray())
  {
    match Deref(view, address)
    case Failure(e) => Failure(e)
    case Success(first) =>
      var typeInfo := if first.value in view.managedTypeByAddr then Some(view.managedTypeByAddr[first.value]) else None;
      match Deref(view, first.value)
      case Failure(e) => Failure(e)
      case Success(second) =>
        var record := ManagedObjectInfo(typeInfo, address, first.memory, first.offset, false, 0);
        if second.value in view.managedTypeByAddr then
          var t := view.managedTypeByAddr[second.value];
          Success(record.(typeInfo := Some(t), isArray := t.IsArray()))
        else
          Success(record)
  }

  /** A record kept by the crawl is exactly what inspecting its own address gives. */
  predicate Inspected(view: CacheView, o: ManagedObjectInfo) {
    InspectAddress(view, o.address) == Success(o)
  }

  /** The GC-handle targets that the lookup places in a section. */
  predicate InSomeSection(view: CacheView, a: u64) {
    FindSegment(view.sortedManagedMemory, a).Some?
  }

  /** Inspecting GC-handle target `a` raises, although `a` lies in a section. */
  predicate GcHandleFails(view: CacheView, a: u64) {
    InSomeSection(view, a) && InspectAddress(view, a).Failure?
  }

  /**
    SetupFromGcHandle: one record per GC-handle target that lies in a
    section, in handle order.
   */
  function GcHandleRecords(view: CacheView, gcHandles: seq<u64>): (r: Result<seq<ManagedObjectInfo>, Fault>)
    ensures r.Success? ==> |r.value| <= |gcHandles|
    ensures r.Success? ==> forall i :: 0 <= i < |r.value| ==>
      r.value[i].address in gcHandles && InSomeSection(view, r.value[i].address) && Inspected(view, r.value[i])
    ensures r.Success? ==> forall a :: a in gcHandles && InSomeSection(view, a) ==>
      exists i :: 0 <= i < |r.value| && r.value[i].address == a
  {
    if gcHandles == [] then Success([])
    else
      var init := gcHandles[..|gcHandles| - 1];
      var a := gcHandles[|gcHandles| - 1];
      assert gcHandles == init + [a];
      match GcHandleRecords(view, init)
      case Failure(e) => Failure(e)
      case Success(rs) =>
        if !InSomeSection(view, a) then
          assert forall b :: b in gcHandles ==> b in init || b == a;
          Success(rs)
        else
          match InspectAddress(view, a)
          case Failure(e) => Failure(e)
          case Success(o) =>
            var all := rs + [o];
            assert all[|rs|] == o;
            assert forall i :: 0 <= i < |rs| ==> all[i] == rs[i];
            assert forall b :: b in gcHandles ==> b in init || b == a;
            Success(all)
  }

  /** The GC-handle pass raises exactly when inspecting some handle target that lies in a section raises. */
  lemma {:induction false} GcHandleRecordsFailure(view: CacheView, gcHandles: seq<u64>)
    ensures GcHandleRecords(view, gcHandles).Failure? <==> exists a :: a in gcHandles && GcHandleFails(view, a)
    decreases |gcHandles|
  {
    if gcHandles != [] {
      var init := gcHandles[..|gcHandles| - 1];
      var a := gcHandles[|gcHandles| - 1];
      assert gcHandles == init + [a];
      GcHandleRecordsFailure(view, init);
      assert forall b :: b in gcHandles <==> b in init || b == a;
    }
  }

  /** Every field of the type's static list has an entry in the by-type-index table. */
  predicate StaticFieldTypesKnown(t: ManagedType, managedTypeByTypeIndex: map<int, ManagedType>) {
    t.staticFieldInfos.Some? ==> forall f :: f in t.staticFieldInfos.value ==> f.typeIndex in managedTypeByTypeIndex
  }

  /** A static field the crawl reads: its type is known, is not a value type, and its offset is non-negative. */
  predicate ReferenceSlot(view: CacheView, f: ManagedFieldInfo) {
    && f.typeIndex in view.managedTypeByTypeIndex
    && !view.managedTypeByTypeIndex[f.typeIndex].IsValue() && 0 <= f.offset
  }

  /** `a` is the pointer stored in `staticFieldBytes` at one of the reference slots of `fields`. */
  ghost predicate ReadFromSlots(view: CacheView, staticFieldBytes: seq<Byte>, fields: seq<ManagedFieldInfo>, a: u64) {
    exists f :: f in fields && ReferenceSlot(view, f) && ReadPointer(staticFieldBytes, f.offset, view.vm.pointerSize) == Success(a)
  }

  /** Some record of `records` is at address `a`. */
  predicate HasAddress(records: seq<ManagedObjectInfo>, a: u64) {
    exists i :: 0 <= i < |records| && records[i].address == a
  }

  /** Every reference slot of `fields` holds a readable pointer, and some record of `records` is at that pointer. */
  predicate SlotsCovered(view: CacheView, staticFieldBytes: seq<Byte>, fields: seq<ManagedFieldInfo>, records: seq<ManagedObjectInfo>) {
    forall f :: f in fields && ReferenceSlot(view, f) ==>
      && ReadPointer(staticFieldBytes, f.offset, view.vm.pointerSize).Success?
      && HasAddress(records, ReadPointer(staticFieldBytes, f.offset, view.vm.pointerSize).value)
  }

  /**
    The inner loop of SetupStaticField over one type's static fields: value
    types and negative offsets are skipped; any other slot is read as a
    pointer and inspected, whether or not the pointer lies in a section.
   */
  function FieldRecords(view: CacheView, staticFieldBytes: seq<Byte>, fields: seq<ManagedFieldInfo>): (r: Result<seq<ManagedObjectInfo>, Fault>)
    requires forall f :: f in fields ==> f.typeIndex in view.managedTypeByTypeIndex
    ensures r.Success? ==> |r.value| <= |fields|
    ensures r.Success? ==> forall i :: 0 <= i < |r.value| ==>
      Inspected(view, r.value[i]) && ReadFromSlots(view, staticFieldBytes, fields, r.value[i].address)
    ensures r.Success? ==> SlotsCovered(view, staticFieldBytes, fields, r.value)
  {
    if fields == [] then Success([])
    else
      var init := fields[..|fields| - 1];
      var f := fields[|fields| - 1];
      assert fields == init + [f];
      match FieldRecords(view, staticFieldBytes, init)
      case Failure(e) => Failure(e)
      case Success(rs) =>
        if !ReferenceSlot(view, f) then
          FieldRecordsSkip(view, staticFieldBytes, init, f, rs);
          Success(rs)
        else
          match ReadPointer(staticFieldBytes, f.offset, view.vm.pointerSize)
          case Failure(e) => Failure(e)
          case Success(addr) =>
            match InspectAddress(view, addr)
            case Failure(e) => Failure(e)
            case Success(o) =>
              FieldRecordsStep(view, staticFieldBytes, init, f, rs, o);
              Success(rs + [o])
  }

  /** FieldRecords' contract carried over a slot that is skipped. */
  lemma FieldRecordsSkip(view: CacheView, staticFieldBytes: seq<Byte>, init: seq<ManagedFieldInfo>, f: ManagedFieldInfo, rs: seq<ManagedObjectInfo>)
    requires !ReferenceSlot(view, f)
    requires forall i :: 0 <= i < |rs| ==> Inspected(view, rs[i]) && ReadFromSlots(view, staticFieldBytes, init, rs[i].address)
    requires SlotsCovered(view, staticFieldBytes, init, rs)
    ensures forall i :: 0 <= i < |rs| ==> Inspected(view, rs[i]) && ReadFromSlots(view, staticFieldBytes, init + [f], rs[i].address)
    ensures SlotsCovered(view, staticFieldBytes, init + [f], rs)
  {
    forall i | 0 <= i < |rs| ensures ReadFromSlots(view, staticFieldBytes, init + [f], rs[i].address) {
      assert ReadFromSlots(view, staticFieldBytes, init, rs[i].address);
      var g :| g in init && ReferenceSlot(view, g) && ReadPointer(staticFieldBytes, g.offset, view.vm.pointerSize) == Success(rs[i].address);
      assert g in init + [f];
    }
    assert forall g :: g in init + [f] ==> g in init || g == f;
  }

  /** FieldRecords' contract carried over one more reference slot, whose pointer is `o.address`. */
  lemma FieldRecordsStep(view: CacheView, staticFieldBytes: seq<Byte>, init: seq<ManagedFieldInfo>, f: ManagedFieldInfo,
                         rs: seq<ManagedObjectInfo>, o: ManagedObjectInfo)
    requires ReferenceSlot(view, f) && ReadPointer(staticFieldBytes, f.offset, view.vm.pointerSize) == Success(o.address)
    requires Inspected(view, o)
    requires forall i :: 0 <= i < |rs| ==> Inspected(view, rs[i]) && ReadFromSlots(view, staticFieldBytes, init, rs[i].address)
    requires SlotsCovered(view, staticFieldBytes, init, rs)
    ensures forall i :: 0 <= i < |rs + [o]| ==>
      Inspected(view, (rs + [o])[i]) && ReadFromSlots(view, staticFieldBytes, init + [f], (rs + [o])[i].address)
    ensures SlotsCovered(view, staticFieldBytes, init + [f], rs + [o])
  {
    var all := rs + [o];
    forall i | 0 <= i < |all|
      ensures Inspected(view, all[i]) && ReadFromSlots(view, staticFieldBytes, init + [f], all[i].address)
    {
      if i < |rs| {
        assert all[i] == rs[i];
        assert ReadFromSlots(view, staticFieldBytes, init, rs[i].address);
        var g :| g in init && ReferenceSlot(view, g) && ReadPointer(staticFieldBytes, g.offset, view.vm.pointerSize) == Success(rs[i].address);
        assert g in init + [f];
      } else {
        assert all[i] == o;
        assert f in init + [f];
      }
    }
    forall g | g in init + [f] && ReferenceSlot(view, g)
      ensures && ReadPointer(staticFieldBytes, g.offset, view.vm.pointerSize).Success?
              && HasAddress(all, ReadPointer(staticFieldBytes, g.offset, view.vm.pointerSize).value)
    {
      if g in init {
        var i :| 0 <= i < |rs| && rs[i].address == ReadPointer(staticFieldBytes, g.offset, view.vm.pointerSize).value;
        assert all[i] == rs[i];
      } else {
        assert g == f && all[|rs|] == o;
      }
    }
  }

  /**
    `f` is a slot that SetupStaticField reads for type `t`: the type has
    non-empty static bytes and a static field list holding `f`, and `f` is
    of a reference type at a non-negative offset.
   */
  predicate ScannedSlot(view: CacheView, t: ManagedType, f: ManagedFieldInfo) {
    && t.staticFieldBytes.Some? && t.staticFieldInfos.Some? && |t.staticFieldBytes.value| != 0
    && f in t.staticFieldInfos.value && ReferenceSlot(view, f)
  }

  /** The pointer read from a static slot of `t`. */
  function SlotPointer(view: CacheView, t: ManagedType, f: ManagedFieldInfo): Result<u64, Fault>
    requires t.staticFieldBytes.Some?
  {
    ReadPointer(t.staticFieldBytes.value, f.offset, view.vm.pointerSize)
  }

  /** `a` is the pointer stored in a slot of `t` that SetupStaticField reads. */
  ghost predicate ReadFromStaticSlot(view: CacheView, t: ManagedType, a: u64) {
    && t.staticFieldBytes.Some? && t.staticFieldInfos.Some? && |t.staticFieldBytes.value| != 0
    && ReadFromSlots(view, t.staticFieldBytes.value, t.staticFieldInfos.value, a)
  }

  /** SetupStaticField for one type: nothing without static bytes, with empty static bytes, or without a static field list. */
  function TypeStaticRecords(view: CacheView, t: ManagedType): (r: Result<seq<ManagedObjectInfo>, Fault>)
    requires StaticFieldTypesKnown(t, view.managedTypeByTypeIndex)
    ensures t.staticFieldBytes.None? || t.staticFieldInfos.None? || |t.staticFieldBytes.value| == 0 ==> r == Success([])
    ensures r.Success? ==> forall i :: 0 <= i < |r.value| ==>
      Inspected(view, r.value[i]) && ReadFromStaticSlot(view, t, r.value[i].address)
    ensures r.Success? ==> forall f :: ScannedSlot(view, t, f) ==>
      SlotPointer(view, t, f).Success? && HasAddress(r.value, SlotPointer(view, t, f).value)
  {
    if t.staticFieldBytes.None? || t.staticFieldInfos.None? then Success([])
    else if |t.staticFieldBytes.value| == 0 then Success([])
    else FieldRecords(view, t.staticFieldBytes.value, t.staticFieldInfos.value)
  }

  /** Reading the pointer in reference slot `f`, or inspecting that pointer, raises. */
  predicate SlotFails(view: CacheView, staticFieldBytes: seq<Byte>, f: ManagedFieldInfo) {
    && ReferenceSlot(view, f)
    && (|| ReadPointer(staticFieldBytes, f.offset, view.vm.pointerSize).Failure?
        || InspectAddress(view, ReadPointer(staticFieldBytes, f.offset, view.vm.pointerSize).value).Failure?)
  }

  /** A slot that SetupStaticField reads for type `t` raises. */
  predicate StaticSlotFails(view: CacheView, t: ManagedType, f: ManagedFieldInfo) {
    ScannedSlot(view, t, f) && SlotFails(view, t.staticFieldBytes.value, f)
  }

  /** One type's static fields raise exactly when some reference slot among them raises. */
  lemma {:induction false} FieldRecordsFailure(view: CacheView, staticFieldBytes: seq<Byte>, fields: seq<ManagedFieldInfo>)
    requires forall f :: f in fields ==> f.typeIndex in view.managedTypeByTypeIndex
    ensures FieldRecords(view, staticFieldBytes, fields).Failure? <==> exists f :: f in fields && SlotFails(view, staticFieldBytes, f)
    decreases |fields|
  {
    if fields != [] {
      var init := fields[..|fields| - 1];
      var f := fields[|fields| - 1];
      assert fields == init + [f];
      FieldRecordsFailure(view, staticFieldBytes, init);
      assert forall g :: g in fields <==> g in init || g == f;
    }
  }

  /** The static pass of one type raises exactly when one of its scanned slots raises. */
  lemma TypeStaticRecordsFailure(view: CacheView, t: ManagedType)
    requires StaticFieldTypesKnown(t, view.managedTypeByTypeIndex)
    ensures TypeStaticRecords(view, t).Failure? <==> exists f :: StaticSlotFails(view, t, f)
  {
    if t.staticFieldBytes.Some? && t.staticFieldInfos.Some? && |t.staticFieldBytes.value| != 0 {
      FieldRecordsFailure(view, t.staticFieldBytes.value, t.staticFieldInfos.value);
      if TypeStaticRecords(view, t).Failure? {
        var f :| f in t.staticFieldInfos.value && SlotFails(view, t.staticFieldBytes.value, f);
        assert StaticSlotFails(view, t, f);
      }
    }
  }

  /** The static pass raises exactly when a scanned slot of some type raises. */
  lemma {:induction false} StaticRecordsFailure(view: CacheView, managedTypes: seq<ManagedType>)
    requires forall t :: t in managedTypes ==> StaticFieldTypesKnown(t, view.managedTypeByTypeIndex)
    ensures StaticRecords(view, managedTypes).Failure? <==> exists t, f :: t in managedTypes && StaticSlotFails(view, t, f)
    decreases |managedTypes|
  {
    if managedTypes != [] {
      var init := managedTypes[..|managedTypes| - 1];
      var t := managedTypes[|managedTypes| - 1];
      assert managedTypes == init + [t];
      StaticRecordsFailure(view, init);
      TypeStaticRecordsFailure(view, t);
      assert forall u :: u in managedTypes <==> u in init || u == t;
    }
  }

  /** `o` is the record of a pointer read from the static storage of one of `managedTypes`. */
  ghost predicate StaticRoot(view: CacheView, managedTypes: seq<ManagedType>, o: ManagedObjectInfo) {
    Inspected(view, o) && exists t :: t in managedTypes && ReadFromStaticSlot(view, t, o.address)
  }

  /** SetupStaticField: the records of every type, in type order. */
  function StaticRecords(view: CacheView, managedTypes: seq<ManagedType>): (r: Result<seq<ManagedObjectInfo>, Fault>)
    requires forall t :: t in managedTypes ==> StaticFieldTypesKnown(t, view.managedTypeByTypeIndex)
    ensures r.Success? ==> forall i :: 0 <= i < |r.value| ==> StaticRoot(view, managedTypes, r.value[i])
    ensures r.Success? ==> forall t, f :: t in managedTypes && ScannedSlot(view, t, f) ==>
      SlotPointer(view, t, f).Success? && HasAddress(r.value, SlotPointer(view, t, f).value)
  {
    if managedTypes == [] then Success([])
    else
      var init := managedTypes[..|managedTypes| - 1];
      var t := managedTypes[|managedTypes| - 1];
      assert managedTypes == init + [t];
      match StaticRecords(view, init)
      case Failure(e) => Failure(e)
      case Success(rs) =>
        match TypeStaticRecords(view, t)
        case Failure(e) => Failure(e)
        case Success(ts) =>
          StaticRootsAppend(view, init, t, rs, ts);
          StaticSlotsAppend(view, init, t, rs, ts);
          Success(rs + ts)
  }

  lemma StaticSlotsAppend(view: CacheView, init: seq<ManagedType>, t: ManagedType, rs: seq<ManagedObjectInfo>, ts: seq<ManagedObjectInfo>)
    requires forall u, f :: u in init && ScannedSlot(view, u, f) ==>
      SlotPointer(view, u, f).Success? && HasAddress(rs, SlotPointer(view, u, f).value)
    requires forall f :: ScannedSlot(view, t, f) ==>
      SlotPointer(view, t, f).Success? && HasAddress(ts, SlotPointer(view, t, f).value)
    ensures forall u, f :: u in init + [t] && ScannedSlot(view, u, f) ==>
      SlotPointer(view, u, f).Success? && HasAddress(rs + ts, SlotPointer(view, u, f).value)
  {
    forall u, f | u in init + [t] && ScannedSlot(view, u, f)
      ensures SlotPointer(view, u, f).Success? && HasAddress(rs + ts, SlotPointer(view, u, f).value)
    {
      var a := SlotPointer(view, u, f).value;
      if u in init {
        var i :| 0 <= i < |rs| && rs[i].address == a;
        assert (rs + ts)[i] == rs[i];
      } else {
        var i :| 0 <= i < |ts| && ts[i].address == a;
        assert (rs + ts)[|rs| + i] == ts[i];
      }
    }
  }

  lemma StaticRootsAppend(view: CacheView, init: seq<ManagedType>, t: ManagedType, rs: seq<ManagedObjectInfo>, ts: seq<ManagedObjectInfo>)
    requires forall i :: 0 <= i < |rs| ==> StaticRoot(view, init, rs[i])
    requires forall i :: 0 <= i < |ts| ==> Inspected(view, ts[i]) && ReadFromStaticSlot(view, t, ts[i].address)
    ensures forall i :: 0 <= i < |rs + ts| ==> StaticRoot(view, init + [t], (rs + ts)[i])
  {
    forall i | 0 <= i < |rs + ts| ensures StaticRoot(view, init + [t], (rs + ts)[i]) {
      if i < |rs| {
        assert (rs + ts)[i] == rs[i] && StaticRoot(view, init, rs[i]);
        var u :| u in init && ReadFromStaticSlot(view, u, rs[i].address);
        assert u in init + [t];
      } else {
        assert (rs + ts)[i] == ts[i - |rs|];
        assert t in init + [t];
      }
    }
  }

  /**
    AddManagedObject applied to `records` in order, starting from the
    Dictionary `m`: a record whose address is already a key is dropped.
   */
  function AddFirst(m: map<u64, ManagedObjectInfo>, records: seq<ManagedObjectInfo>): (r: map<u64, ManagedObjectInfo>)
    ensures r.Keys == m.Keys + set i | 0 <= i < |records| :: records[i].address
    ensures forall k :: k in m ==> r[k] == m[k]
    ensures forall k :: k in r && k !in m ==> r[k].address == k && r[k] in records
  {
    if records == [] then m
    else
      var init := records[..|records| - 1];
      var o := records[|records| - 1];
      assert records == init + [o];
      var t := AddFirst(m, init);
      if o.address in t then t else t[o.address := o]
  }

  /** Adding two runs of records one after the other is adding their concatenation. */
  lemma {:induction false} AddFirstAppend(m: map<u64, ManagedObjectInfo>, a: seq<ManagedObjectInfo>, b: seq<ManagedObjectInfo>)
    ensures AddFirst(AddFirst(m, a), b) == AddFirst(m, a + b)
  {
    if b == [] {
      assert a + b == a;
    } else {
      var init := b[..|b| - 1];
      assert (a + b)[..|a + b| - 1] == a + init;
      assert (a + b)[|a + b| - 1] == b[|b| - 1];
      AddFirstAppend(m, a, init);
    }
  }

  /** The Execute table: AddManagedObject over `records`, starting from an empty Dictionary. */
  function FirstWins(records: seq<ManagedObjectInfo>): (m: map<u64, ManagedObjectInfo>)
    ensures m.Keys == set i | 0 <= i < |records| :: records[i].address
    ensures forall k :: k in m ==> m[k].address == k && m[k] in records
  {
    AddFirst(map[], records)
  }

  /** The record stored under an address is the first record with that address. */
  lemma {:induction false} FirstWinsKeepsFirst(records: seq<ManagedObjectInfo>, i: nat)
    requires i < |records|
    requires forall j :: 0 <= j < i ==> records[j].address != records[i].address
    ensures FirstWins(records)[records[i].address] == records[i]
  {
    var init := records[..|records| - 1];
    if i < |records| - 1 {
      FirstWinsKeepsFirst(init, i);
    } else {
      assert records[i].address !in FirstWins(init);
    }
  }

  /** Later records never displace earlier ones: appending only adds keys. */
  lemma {:induction false} FirstWinsExtends(a: seq<ManagedObjectInfo>, b: seq<ManagedObjectInfo>)
    ensures forall k :: k in FirstWins(a) ==> k in FirstWins(a + b) && FirstWins(a + b)[k] == FirstWins(a)[k]
  {
    if b != [] {
      var init := b[..|b| - 1];
      assert a + b == (a + init) + [b[|b| - 1]];
      FirstWinsExtends(a, init);
    } else {
      assert a + b == a;
    }
  }

  /** Core revision of Execute: GC-handle roots only. */
  function CoreCrawl(view: CacheView, gcHandles: seq<u64>): (r: Result<map<u64, ManagedObjectInfo>, Fault>)
    ensures r.Success? ==> forall k :: k in r.value ==> k in gcHandles && InSomeSection(view, k)
    ensures r.Failure? <==> exists a :: a in gcHandles && GcHandleFails(view, a)
  {
    GcHandleRecordsFailure(view, gcHandles);
    match GcHandleRecords(view, gcHandles)
    case Failure(e) => Failure(e)
    case Success(rs) => Success(FirstWins(rs))
  }

  /** Editor revision of Execute: GC-handle roots, then static-field roots. */
  function EditorCrawl(view: CacheView, gcHandles: seq<u64>, managedTypes: seq<ManagedType>): (r: Result<map<u64, ManagedObjectInfo>, Fault>)
    requires forall t :: t in managedTypes ==> StaticFieldTypesKnown(t, view.managedTypeByTypeIndex)
    ensures r.Success? ==> forall k :: k in r.value ==>
      (k in gcHandles && InSomeSection(view, k)) || exists t :: t in managedTypes && ReadFromStaticSlot(view, t, k)
    ensures r.Failure? <==>
      (exists a :: a in gcHandles && GcHandleFails(view, a)) || exists t, f :: t in managedTypes && StaticSlotFails(view, t, f)
  {
    GcHandleRecordsFailure(view, gcHandles);
    StaticRecordsFailure(view, managedTypes);
    match GcHandleRecords(view, gcHandles)
    case Failure(e) => Failure(e)
    case Success(gc) =>
      match StaticRecords(view, managedTypes)
      case Failure(e) => Failure(e)
      case Success(st) =>
        EditorRoots(view, gcHandles, managedTypes, gc, st);
        Success(FirstWins(gc + st))
  }

  lemma EditorRoots(view: CacheView, gcHandles: seq<u64>, managedTypes: seq<ManagedType>, gc: seq<ManagedObjectInfo>, st: seq<ManagedObjectInfo>)
    requires forall i :: 0 <= i < |gc| ==> gc[i].address in gcHandles && InSomeSection(view, gc[i].address)
    requires forall i :: 0 <= i < |st| ==> StaticRoot(view, managedTypes, st[i])
    ensures forall k :: k in FirstWins(gc + st) ==>
      (k in gcHandles && InSomeSection(view, k)) || exists t :: t in managedTypes && ReadFromStaticSlot(view, t, k)
  {
    var all := gc + st;
    forall k | k in FirstWins(all)
      ensures (k in gcHandles && InSomeSection(view, k)) || exists t :: t in managedTypes && ReadFromStaticSlot(view, t, k)
    {
      var i :| 0 <= i < |all| && all[i].address == k;
      if i >= |gc| {
        assert all[i] == st[i - |gc|];
      }
    }
  }

  /** The whole table, in either revision, stores under every address the record of that address. */
  lemma {:induction false} FirstWinsOfInspected(view: CacheView, records: seq<ManagedObjectInfo>)
    requires forall i :: 0 <= i < |records| ==> Inspected(view, records[i])
    ensures forall k :: k in FirstWins(records) ==> InspectAddress(view, k) == Success(FirstWins(records)[k])
  {
  }

  /** The Core table holds exactly the GC-handle targets that lie in a section, each with its own record. */
  lemma CoreCrawlTable(view: CacheView, gcHandles: seq<u64>)
    ensures var r := CoreCrawl(view, gcHandles);
      r.Success? ==>
        && (forall a :: a in r.value <==> a in gcHandles && InSomeSection(view, a))
        && (forall a :: a in r.value ==> InspectAddress(view, a) == Success(r.value[a]))
  {
    var r := CoreCrawl(view, gcHandles);
    if r.Success? {
      var rs := GcHandleRecords(view, gcHandles).value;
      FirstWinsOfInspected(view, rs);
      forall a | a in gcHandles && InSomeSection(view, a) ensures a in r.value {
        var i :| 0 <= i < |rs| && rs[i].address == a;
      }
    }
  }

  /**
    The Editor table holds every GC-handle target that lies in a section and
    every pointer read from a scanned static slot, each with its own record.
   */
  lemma EditorCrawlTable(view: CacheView, gcHandles: seq<u64>, managedTypes: seq<ManagedType>)
    requires forall t :: t in managedTypes ==> StaticFieldTypesKnown(t, view.managedTypeByTypeIndex)
    ensures var r := EditorCrawl(view, gcHandles, managedTypes);
      r.Success? ==>
        && (forall a :: a in gcHandles && InSomeSection(view, a) ==> a in r.value)
        && (forall t, f :: t in managedTypes && ScannedSlot(view, t, f) ==>
              SlotPointer(view, t, f).Success? && SlotPointer(view, t, f).value in r.value)
        && (forall a :: a in r.value ==> InspectAddress(view, a) == Success(r.value[a]))
  {
    var r := EditorCrawl(view, gcHandles, managedTypes);
    if r.Success? {
      var gc := GcHandleRecords(view, gcHandles).value;
      var st := StaticRecords(view, managedTypes).value;
      InspectedAppend(view, gc, st);
      FirstWinsOfInspected(view, gc + st);
      forall a | a in gcHandles && InSomeSection(view, a) ensures a in r.value {
        HasAddressAppend(gc, st, a);
      }
      forall t, f | t in managedTypes && ScannedSlot(view, t, f)
        ensures SlotPointer(view, t, f).Success? && SlotPointer(view, t, f).value in r.value
      {
        HasAddressAppend(gc, st, SlotPointer(view, t, f).value);
      }
    }
  }

  lemma InspectedAppend(view: CacheView, a: seq<ManagedObjectInfo>, b: seq<ManagedObjectInfo>)
    requires forall i :: 0 <= i < |a| ==> Inspected(view, a[i])
    requires forall i :: 0 <= i < |b| ==> Inspected(view, b[i])
    ensures forall i :: 0 <= i < |a + b| ==> Inspected(view, (a + b)[i])
  {
    forall i | 0 <= i < |a + b| ensures Inspected(view, (a + b)[i]) {
      if i < |a| { assert (a + b)[i] == a[i]; } else { assert (a + b)[i] == b[i - |a|]; }
    }
  }

  /** A record at `x` in a concatenation is a record at `x` in one part or the other. */
  lemma HasAddressAppend(a: seq<ManagedObjectInfo>, b: seq<ManagedObjectInfo>, x: u64)
    ensures HasAddress(a + b, x) <==> HasAddress(a, x) || HasAddress(b, x)
  {
    if HasAddress(a, x) {
      var i :| 0 <= i < |a| && a[i].address == x;
      assert (a + b)[i] == a[i];
    }
    if HasAddress(b, x) {
      var i :| 0 <= i < |b| && b[i].address == x;
      assert (a + b)[|a| + i] == b[i];
    }
    if HasAddress(a + b, x) {
      var i :| 0 <= i < |a + b| && (a + b)[i].address == x;
      if i < |a| { assert (a + b)[i] == a[i]; } else { assert (a + b)[i] == b[i - |a|]; }
    }
  }

  /** Once the GC-handle records of a prefix fail, the whole run fails with the same fault. */
  lemma {:induction false} GcHandleRecordsFailurePersists(view: CacheView, gcHandles: seq<u64>, n: nat)
    requires n <= |gcHandles| && GcHandleRecords(view, gcHandles[..n]).Failure?
    ensures GcHandleRecords(view, gcHandles) == GcHandleRecords(view, gcHandles[..n])
    decreases |gcHandles|
  {
    if n < |gcHandles| {
      var init := gcHandles[..|gcHandles| - 1];
      assert init[..n] == gcHandles[..n];
      GcHandleRecordsFailurePersists(view, init, n);
    } else {
      assert gcHandles[..n] == gcHandles;
    }
  }

  /** Once the records of a prefix of the static fields fail, the whole type fails with the same fault. */
  lemma {:induction false} FieldRecordsFailurePersists(view: CacheView, staticFieldBytes: seq<Byte>, fields: seq<ManagedFieldInfo>, n: nat)
    requires forall f :: f in fields ==> f.typeIndex in view.managedTypeByTypeIndex
    requires n <= |fields| && FieldRecords(view, staticFieldBytes, fields[..n]).Failure?
    ensures FieldRecords(view, staticFieldBytes, fields) == FieldRecords(view, staticFieldBytes, fields[..n])
    decreases |fields|
  {
    if n < |fields| {
      var init := fields[..|fields| - 1];
      assert init[..n] == fields[..n];
      FieldRecordsFailurePersists(view, staticFieldBytes, init, n);
    } else {
      assert fields[..n] == fields;
    }
  }

  /** Once the static records of a prefix of the types fail, the whole run fails with the same fault. */
  lemma {:induction false} StaticRecordsFailurePersists(view: CacheView, managedTypes: seq<ManagedType>, n: nat)
    requires forall t :: t in managedTypes ==> StaticFieldTypesKnown(t, view.managedTypeByTypeIndex)
    requires n <= |managedTypes| && StaticRecords(view, managedTypes[..n]).Failure?
    ensures StaticRecords(view, managedTypes) == StaticRecords(view, managedTypes[..n])
    decreases |managedTypes|
  {
    if n < |managedTypes| {
      var init := managedTypes[..|managedTypes| - 1];
      assert init[..n] == managedTypes[..n];
      StaticRecordsFailurePersists(view, init, n);
    } else {
      assert managedTypes[..n] == managedTypes;
    }
  }

  /** A static slot holding 0 puts address 0 in the Editor table, even though 0 lies in no section. */
  lemma NullStaticSlotIsRecorded()
    ensures
      var field := ManagedFieldInfo("s_instance", 0, 7, true);
      var objectType := ManagedType(0, "Object", "mscorlib", None, None, 0, 0, 0x10, 7, None, None);
      var holder := ManagedType(0, "Holder", "Assembly-CSharp", Some([0]), Some([0, 0, 0, 0, 0, 0, 0, 0]), 0, 0, 0x20, 8, Some([]), Some([field]));
      var view := CacheView([], VirtualMachineInformation(8, 16, 32, 16), map[0x10 := objectType], map[7 := objectType]);
      var r := EditorCrawl(view, [], [holder]);
      && r.Success? && 0 in r.value && !InSomeSection(view, 0)
  {
    var field := ManagedFieldInfo("s_instance", 0, 7, true);
    var holder := ManagedType(0, "Holder", "Assembly-CSharp", Some([0]), Some([0, 0, 0, 0, 0, 0, 0, 0]), 0, 0, 0x20, 8, Some([]), Some([field]));
    var objectType := ManagedType(0, "Object", "mscorlib", None, None, 0, 0, 0x10, 7, None, None);
    var view := CacheView([], VirtualMachineInformation(8, 16, 32, 16), map[0x10 := objectType], map[7 := objectType]);
    var bytes: seq<Byte> := [0, 0, 0, 0, 0, 0, 0, 0];
    assert bytes[0..8] == bytes;
    assert FromLittleEndian(bytes) == 0;
    assert ReadPointer(bytes, 0, 8) == Success(0);
    assert Deref(view, 0) == Success(NotFound);
    var o := ManagedObjectInfo(None, 0, None, 0, false, 0);
    assert InspectAddress(view, 0) == Success(o);
    var fs := [field];
    assert fs[..|fs| - 1] == [];
    assert FieldRecords(view, bytes, []) == Success([]);
    assert [] + [o] == [o];
    assert ReferenceSlot(view, field);
    assert FieldRecords(view, bytes, fs) == Success([o]);
    assert StaticRecords(view, [holder]) == Success([o]);
  }
}
