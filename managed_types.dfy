/**
  Managed type descriptions and field descriptions of a snapshot, the two
  type tables (by type-info address and by type index), and the split of a
  type's fields into static and instance lists.
 */
module ManagedTypes {
  import opened Wrappers
  import opened Faults
  import opened Words

  /** TypeFlags.kValueType in Unity's memory profiler API. */
  const kValueType: bv32 := 1
  /** TypeFlags.kArray in Unity's memory profiler API. */
  const kArray: bv32 := 2

  /**
    A field description. The reference to the field's own type that
    ResolveManagedFieldType stores is not kept: it is always the entry of
    the by-type-index table under `typeIndex`, whose presence resolution checks.
   */
  datatype ManagedFieldInfo = ManagedFieldInfo(
    fieldDescriptionName: string,
    offset: int,
    typeIndex: int,
    isStatic: bool)

  /** A type description; the two field lists stay None until fields are resolved. */
  datatype ManagedType = ManagedType(
    flags: bv32,
    typeDescriptionName: string,
    assembly: string,
    fieldIndices: Option<seq<int>>,
    staticFieldBytes: Option<ByteArray>,
    baseOrElementTypeIndex: int,
    size: int,
    typeInfoAddress: u64,
    typeIndex: int,
    instanceFieldInfos: Option<seq<ManagedFieldInfo>>,
    staticFieldInfos: Option<seq<ManagedFieldInfo>>)
  {
    predicate IsArray() {
      flags & kArray != 0
    }

    predicate IsValue() {
      flags & kValueType != 0
    }
  }

  function TypeInfoAddressKey(t: ManagedType): int {
    t.typeInfoAddress
  }

  function TypeIndexKey(t: ManagedType): int {
    t.typeIndex
  }

  /** No two items share a key: what a run of Dictionary.Add calls needs to succeed. */
  predicate DistinctKeys<T>(items: seq<T>, key: T -> int) {
    forall i, j :: 0 <= i < j < |items| ==> key(items[i]) != key(items[j])
  }

  /**
    A Dictionary filled by Add over `items` in order: Add throws on the
    first key already present; otherwise every item is stored under its key.
   */
  method IndexByKey<T>(items: seq<T>, key: T -> int) returns (r: Result<map<int, T>, Fault>)
    ensures r.Success? <==> DistinctKeys(items, key)
    ensures r.Success? ==> r.value.Keys == set i | 0 <= i < |items| :: key(items[i])
    ensures r.Success? ==> forall i :: 0 <= i < |items| ==> r.value[key(items[i])] == items[i]
    ensures r.Failure? ==> exists i, j :: 0 <= i < j < |items| && key(items[i]) == key(items[j]) && r.error == DuplicateKey(key(items[j]))
  {
    var m: map<int, T> := map[];
    var n := 0;
    while n < |items|
      invariant 0 <= n <= |items|
      invariant DistinctKeys(items[..n], key)
      invariant m.Keys == set i | 0 <= i < n :: key(items[i])
      invariant forall i :: 0 <= i < n ==> m[key(items[i])] == items[i]
    {
      var k := key(items[n]);
      if k in m {
        var i :| 0 <= i < n && key(items[i]) == k;
        assert !DistinctKeys(items, key) by {
          assert key(items[i]) == key(items[n]);
        }
        return Failure(DuplicateKey(k));
      }
      assert forall i :: 0 <= i < n ==> key(items[i]) != k;
      m := m[k := items[n]];
      n := n + 1;
    }
    assert items[..n] == items;
    return Success(m);
  }

  /** Every value of a table filled from `items` is one of the items, stored under its own key. */
  lemma IndexedValues<T>(items: seq<T>, key: T -> int, m: map<int, T>)
    requires m.Keys == set i | 0 <= i < |items| :: key(items[i])
    requires forall i :: 0 <= i < |items| ==> m[key(items[i])] == items[i]
    ensures forall k :: k in m ==> m[k] in items && key(m[k]) == k
  {
    forall k | k in m ensures m[k] in items && key(m[k]) == k {
      var i :| 0 <= i < |items| && key(items[i]) == k;
    }
  }

  /** Every index in `fieldIndices` addresses the list of all field descriptions. */
  predicate IndicesInRange(fieldIndices: seq<int>, fields: seq<ManagedFieldInfo>) {
    forall i :: 0 <= i < |fieldIndices| ==> 0 <= fieldIndices[i] < |fields|
  }

  /** The field descriptions a type's fieldIndices name, in fieldIndices order. */
  function Picked(fieldIndices: seq<int>, fields: seq<ManagedFieldInfo>): (r: seq<ManagedFieldInfo>)
    requires IndicesInRange(fieldIndices, fields)
    ensures |r| == |fieldIndices|
    ensures forall i :: 0 <= i < |r| ==> r[i] == fields[fieldIndices[i]]
  {
    if fieldIndices == [] then []
    else Picked(fieldIndices[..|fieldIndices| - 1], fields) + [fields[fieldIndices[|fieldIndices| - 1]]]
  }

  lemma PickedSnoc(fieldIndices: seq<int>, index: int, fields: seq<ManagedFieldInfo>)
    requires IndicesInRange(fieldIndices, fields) && 0 <= index < |fields|
    ensures IndicesInRange(fieldIndices + [index], fields)
    ensures Picked(fieldIndices + [index], fields) == Picked(fieldIndices, fields) + [fields[index]]
  {
    assert (fieldIndices + [index])[..|fieldIndices|] == fieldIndices;
  }

  /** The position of the first index outside the field list: where the loop throws. */
  function FirstOutOfRange(fieldIndices: seq<int>, fields: seq<ManagedFieldInfo>): (k: nat)
    requires !IndicesInRange(fieldIndices, fields)
    ensures k < |fieldIndices| && !(0 <= fieldIndices[k] < |fields|)
    ensures forall j :: 0 <= j < k ==> 0 <= fieldIndices[j] < |fields|
  {
    if !(0 <= fieldIndices[0] < |fields|) then 0
    else 1 + FirstOutOfRange(fieldIndices[1..], fields)
  }

  /** When the loop first meets an index outside the list at position n, n is the first such position. */
  lemma FirstOutOfRangeAt(fieldIndices: seq<int>, fields: seq<ManagedFieldInfo>, n: nat)
    requires n < |fieldIndices| && IndicesInRange(fieldIndices[..n], fields)
    requires !(0 <= fieldIndices[n] < |fields|)
    ensures !IndicesInRange(fieldIndices, fields)
    ensures FirstOutOfRange(fieldIndices, fields) == n
  {
    forall j | 0 <= j < n ensures 0 <= fieldIndices[j] < |fields| {
      assert fieldIndices[..n][j] == fieldIndices[j];
    }
  }

  /** The fields of `fs` whose isStatic equals `isStatic`, in their order in `fs`. */
  function OfKind(fs: seq<ManagedFieldInfo>, isStatic: bool): (r: seq<ManagedFieldInfo>)
    ensures |r| <= |fs|
  {
    if fs == [] then []
    else
      var last := fs[|fs| - 1];
      var rest := OfKind(fs[..|fs| - 1], isStatic);
      if last.isStatic == isStatic then rest + [last] else rest
  }

  lemma OfKindSnoc(fs: seq<ManagedFieldInfo>, f: ManagedFieldInfo, isStatic: bool)
    ensures OfKind(fs + [f], isStatic) == if f.isStatic == isStatic then OfKind(fs, isStatic) + [f] else OfKind(fs, isStatic)
  {
    assert (fs + [f])[..|fs|] == fs;
  }

  /** One iteration of the split loop: the n-th named field joins the list of its kind. */
  lemma SplitStep(fieldIndices: seq<int>, fields: seq<ManagedFieldInfo>, n: nat)
    requires n < |fieldIndices| && IndicesInRange(fieldIndices[..n], fields)
    requires 0 <= fieldIndices[n] < |fields|
    ensures IndicesInRange(fieldIndices[..n + 1], fields)
    ensures var f := fields[fieldIndices[n]];
      && OfKind(Picked(fieldIndices[..n + 1], fields), true)
        == (if f.isStatic then OfKind(Picked(fieldIndices[..n], fields), true) + [f] else OfKind(Picked(fieldIndices[..n], fields), true))
      && OfKind(Picked(fieldIndices[..n + 1], fields), false)
        == (if f.isStatic then OfKind(Picked(fieldIndices[..n], fields), false) else OfKind(Picked(fieldIndices[..n], fields), false) + [f])
  {
    var f := fields[fieldIndices[n]];
    assert fieldIndices[..n + 1] == fieldIndices[..n] + [fieldIndices[n]];
    PickedSnoc(fieldIndices[..n], fieldIndices[n], fields);
    OfKindSnoc(Picked(fieldIndices[..n], fields), f, true);
    OfKindSnoc(Picked(fieldIndices[..n], fields), f, false);
  }

  /** The kind filter keeps exactly the fields of that kind. */
  lemma {:induction false} OfKindMembers(fs: seq<ManagedFieldInfo>, isStatic: bool)
    ensures forall f :: f in OfKind(fs, isStatic) <==> f in fs && f.isStatic == isStatic
  {
    if fs != [] {
      var init := fs[..|fs| - 1];
      assert fs == init + [fs[|fs| - 1]];
      OfKindMembers(init, isStatic);
    }
  }

  /** Splitting keeps the order: the kind filter distributes over concatenation. */
  lemma {:induction false} OfKindAppend(a: seq<ManagedFieldInfo>, b: seq<ManagedFieldInfo>, isStatic: bool)
    ensures OfKind(a + b, isStatic) == OfKind(a, isStatic) + OfKind(b, isStatic)
  {
    if b != [] {
      var init := b[..|b| - 1];
      var last := b[|b| - 1];
      assert b == init + [last];
      assert a + b == (a + init) + [last];
      OfKindAppend(a, init, isStatic);
      OfKindSnoc(a + init, last, isStatic);
      OfKindSnoc(init, last, isStatic);
    } else {
      assert a + b == a;
    }
  }

  /** The static and the instance lists together hold every picked field exactly as often as it was picked. */
  lemma {:induction false} OfKindPartition(fs: seq<ManagedFieldInfo>)
    ensures multiset(OfKind(fs, true)) + multiset(OfKind(fs, false)) == multiset(fs)
  {
    if fs != [] {
      var init := fs[..|fs| - 1];
      assert fs == init + [fs[|fs| - 1]];
      OfKindPartition(init);
    }
  }

  /**
    The loop over one type's fieldIndices in ResolveManagedFieldType:
    an index outside the field list throws; otherwise each named field goes
    to the static list or to the instance list.
   */
  method SplitFieldInfos(fieldIndices: seq<int>, fields: seq<ManagedFieldInfo>)
    returns (r: Result<(seq<ManagedFieldInfo>, seq<ManagedFieldInfo>), Fault>)
    ensures r.Success? <==> IndicesInRange(fieldIndices, fields)
    ensures r.Success? ==> r.value.0 == OfKind(Picked(fieldIndices, fields), false)
    ensures r.Success? ==> r.value.1 == OfKind(Picked(fieldIndices, fields), true)
    ensures r.Failure? ==> r.error == IndexOutOfRange(fieldIndices[FirstOutOfRange(fieldIndices, fields)])
  {
    var instanceFieldInfos: seq<ManagedFieldInfo> := [];
    var staticFieldInfos: seq<ManagedFieldInfo> := [];
    var n := 0;
    while n < |fieldIndices|
      invariant 0 <= n <= |fieldIndices|
      invariant IndicesInRange(fieldIndices[..n], fields)
      invariant instanceFieldInfos == OfKind(Picked(fieldIndices[..n], fields), false)
      invariant staticFieldInfos == OfKind(Picked(fieldIndices[..n], fields), true)
    {
      var index := fieldIndices[n];
      if index < 0 || index >= |fields| {
        FirstOutOfRangeAt(fieldIndices, fields, n);
        return Failure(IndexOutOfRange(index));
      }
      var fieldInfo := fields[index];
      SplitStep(fieldIndices, fields, n);
      if fieldInfo.isStatic {
        staticFieldInfos := staticFieldInfos + [fieldInfo];
      } else {
        instanceFieldInfos := instanceFieldInfos + [fieldInfo];
      }
      n := n + 1;
    }
    assert fieldIndices[..n] == fieldIndices;
    return Success((instanceFieldInfos, staticFieldInfos));
  }

  /** What ResolveManagedFieldType makes of one type description. */
  function ResolveType(t: ManagedType, fields: seq<ManagedFieldInfo>): (r: Result<ManagedType, Fault>)
    ensures t.fieldIndices.None? ==> r == Success(t)
    ensures r.Success? ==>
      && r.value.typeInfoAddress == t.typeInfoAddress && r.value.typeIndex == t.typeIndex
      && r.value.flags == t.flags && r.value.staticFieldBytes == t.staticFieldBytes
    ensures r.Success? && t.fieldIndices.Some? ==>
      && r.value.instanceFieldInfos.Some? && r.value.staticFieldInfos.Some?
      && (forall f :: f in r.value.staticFieldInfos.value ==> f.isStatic && f in fields)
      && (forall f :: f in r.value.instanceFieldInfos.value ==> !f.isStatic && f in fields)
    ensures r.Failure? <==> t.fieldIndices.Some? && !IndicesInRange(t.fieldIndices.value, fields)
    ensures r.Failure? ==> r.error == IndexOutOfRange(t.fieldIndices.value[FirstOutOfRange(t.fieldIndices.value, fields)])
    ensures r.Success? && t.fieldIndices.Some? ==>
      && r.value.staticFieldInfos == Some(OfKind(Picked(t.fieldIndices.value, fields), true))
      && r.value.instanceFieldInfos == Some(OfKind(Picked(t.fieldIndices.value, fields), false))
      && multiset(r.value.staticFieldInfos.value) + multiset(r.value.instanceFieldInfos.value)
         == multiset(Picked(t.fieldIndices.value, fields))
  {
    match t.fieldIndices
    case None => Success(t)
    case Some(indices) =>
      if IndicesInRange(indices, fields) then
        var picked := Picked(indices, fields);
        assert forall f :: f in picked ==> f in fields;
        OfKindMembers(picked, true);
        OfKindMembers(picked, false);
        OfKindPartition(picked);
        Success(t.(instanceFieldInfos := Some(OfKind(picked, false)), staticFieldInfos := Some(OfKind(picked, true))))
      else
        Failure(IndexOutOfRange(indices[FirstOutOfRange(indices, fields)]))
  }

  /** ResolveManagedFieldType's loop over the types: every type resolved, or the first failure. */
  function ResolveAll(types: seq<ManagedType>, fields: seq<ManagedFieldInfo>): (r: Result<seq<ManagedType>, Fault>)
    ensures r.Success? <==> forall i :: 0 <= i < |types| ==> ResolveType(types[i], fields).Success?
    ensures r.Success? ==> |r.value| == |types| && forall i :: 0 <= i < |types| ==> r.value[i] == ResolveType(types[i], fields).value
  {
    if types == [] then Success([])
    else
      var init := types[..|types| - 1];
      var t := types[|types| - 1];
      match ResolveAll(init, fields)
      case Failure(e) => Failure(e)
      case Success(done) =>
        match ResolveType(t, fields)
        case Failure(e) => Failure(e)
        case Success(u) =>
          assert forall i :: 0 <= i < |init| ==> types[i] == init[i];
          Success(done + [u])
  }

  /**
    A type table after ResolveManagedFieldType: the table holds the same
    objects as the list, so each entry now carries its field lists.
   */
  function ResolveTable(table: map<int, ManagedType>, fields: seq<ManagedFieldInfo>): (r: map<int, ManagedType>)
    requires forall k :: k in table ==> ResolveType(table[k], fields).Success?
    ensures r.Keys == table.Keys
    ensures forall k :: k in r ==> r[k] == ResolveType(table[k], fields).value
  {
    map k | k in table :: ResolveType(table[k], fields).value
  }
}
