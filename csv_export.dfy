/**
  The parts of MemorySnapshotToCsv that are not file output: the
  null-tolerant progress callback, the managed-object listing that skips
  address 0, and the output name made by dropping the ".snap" suffix.
 */
module CsvExport {
  import opened Wrappers
  import opened Faults
  import opened Words
  import opened AddressFormat
  import opened ManagedTypes
  import opened ObjectRecords
  import opened CacheData

  /** The receiving end of a System.Action<float>: it records every value it is called with. */
  class ProgressListener {
    var received: seq<real>

    constructor()
      ensures received == []
    {
      received := [];
    }

    method Invoke(progress: real)
      modifies this
      ensures received == old(received) + [progress]
    {
      received := received + [progress];
    }
  }

  /** Progress: call the callback with the value when there is one; a null callback is ignored. */
  method Progress(progress: real, pcallback: Option<ProgressListener>)
    modifies if pcallback.Some? then {pcallback.value} else {}
    ensures pcallback.Some? ==> pcallback.value.received == old(pcallback.value.received) + [progress]
  {
    if pcallback.Some? {
      pcallback.value.Invoke(progress);
    }
  }

  /** The records of the table other than the one at address 0, in enumeration order. */
  function NonZeroAddress(values: seq<ManagedObjectInfo>): (r: seq<ManagedObjectInfo>)
    ensures forall o :: o in r <==> o in values && o.address != 0
  {
    if values == [] then []
    else
      var init := values[..|values| - 1];
      var o := values[|values| - 1];
      assert values == init + [o];
      if o.address == 0 then NonZeroAddress(init) else NonZeroAddress(init) + [o]
  }

  /** One row of the managed-object CSV: the formatted address and, when known, the type name. */
  datatype ObjectRow = ObjectRow(address: string, typeName: Option<string>)

  function ObjectRowOf(o: ManagedObjectInfo, pointerSize: nat): ObjectRow {
    ObjectRow(FormatAddress(o.address, pointerSize),
      if o.typeInfo.Some? then Some(o.typeInfo.value.typeDescriptionName) else None)
  }

  /**
    SaveManagedObjectList's loop over the table's values (`values`, in the
    Dictionary's enumeration order): address 0 is skipped, every other
    record gives one row.
   */
  method SaveManagedObjectList(cacheSnapshot: MemorySnapshotCacheData, values: seq<ManagedObjectInfo>) returns (rows: seq<ObjectRow>)
    requires cacheSnapshot.Valid() && 0 <= cacheSnapshot.virtualMachineInformation.pointerSize
    modifies cacheSnapshot`x16FormatCache
    ensures cacheSnapshot.Valid()
    ensures |rows| == |NonZeroAddress(values)|
    ensures forall k :: 0 <= k < |rows| ==>
      rows[k] == ObjectRowOf(NonZeroAddress(values)[k], cacheSnapshot.virtualMachineInformation.pointerSize)
  {
    rows := [];
    for i := 0 to |values|
      invariant cacheSnapshot.Valid()
      invariant |rows| == |NonZeroAddress(values[..i])|
      invariant forall k :: 0 <= k < |rows| ==>
        rows[k] == ObjectRowOf(NonZeroAddress(values[..i])[k], cacheSnapshot.virtualMachineInformation.pointerSize)
    {
      var managedObject := values[i];
      assert values[..i + 1][..i] == values[..i];
      assert values[..i + 1][i] == managedObject;
      ghost var listed := NonZeroAddress(values[..i]);
      if managedObject.address == 0 {
        assert NonZeroAddress(values[..i + 1]) == listed;
        continue;
      }
      assert NonZeroAddress(values[..i + 1]) == listed + [managedObject];
      var address := cacheSnapshot.GetAddressStr(managedObject.address);
      var typeName: Option<string> := None;
      if managedObject.typeInfo.Some? {
        typeName := Some(managedObject.typeInfo.value.typeDescriptionName);
      }
      rows := rows + [ObjectRow(address, typeName)];
    }
    assert values[..|values|] == values;
  }

  /**
    Listing the crawl's table: when the values enumerated are those of a
    table whose records sit under their own addresses, the rows' records are
    exactly the table's records at non-zero keys.
   */
  lemma ListedAreNonZeroKeys(table: map<u64, ManagedObjectInfo>, values: seq<ManagedObjectInfo>)
    requires forall k :: k in table ==> table[k].address == k
    requires forall o :: o in values <==> o in table.Values
    ensures forall k :: k in table && k != 0 ==> table[k] in NonZeroAddress(values)
    ensures forall o :: o in NonZeroAddress(values) ==> o.address in table && o.address != 0 && table[o.address] == o
  {
    forall k | k in table && k != 0 ensures table[k] in NonZeroAddress(values) {
      assert table[k] in table.Values;
    }
    forall o | o in NonZeroAddress(values) ensures o.address in table && table[o.address] == o {
      assert o in table.Values;
      var k :| k in table && table[k] == o;
    }
  }

  /**
    Save: the output prefix is the file name without its last five
    characters (".snap"); string.Remove throws for a name shorter than five.
   */
  function StripSnapSuffix(originFile: string): (r: Result<string, Fault>)
    ensures r.Success? <==> |originFile| >= 5
    ensures r.Success? ==> |r.value| == |originFile| - 5 && r.value + originFile[|originFile| - 5..] == originFile
    ensures r.Failure? ==> r.error == NegativeStartIndex(|originFile| - 5)
    ensures |originFile| == 5 ==> r == Success("")
  {
    if |originFile| - 5 < 0 then Failure(NegativeStartIndex(|originFile| - 5))
    else
      var prefix := originFile[..|originFile| - 5];
      assert prefix + originFile[|originFile| - 5..] == originFile;
      Success(prefix)
  }

  /** Whatever precedes ".snap" is what Save writes under. */
  lemma StripSnapRoundTrip(name: string)
    ensures StripSnapSuffix(name + ".snap") == Success(name)
  {
    assert (name + ".snap")[..|name|] == name;
  }
}
