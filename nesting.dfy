/**
  The nesting classification of SaveMergedMemoryImageInfo: one pass over
  the merged address map that numbers the entries of non-zero size and
  gives each the number of an earlier entry still open at its start, or -1.
  lastEnd is the largest end seen so far and lastIdx the number of the
  entry that first reached it.
 */
module Nesting {
  import opened Words
  import opened CacheData
  import opened SnapshotMap

  /** One row of the memory image CSV: idx, parentIdx and the entry whose columns follow. */
  datatype Row = Row(idx: int, parentIdx: int, entry: MemoryInfo)

  /** The loop's variables after a prefix of the list, with the rows written so far. */
  datatype Scan = Scan(lastEnd: u64, lastIdx: int, idx: int, rows: seq<Row>)

  /** One iteration of the loop body. */
  function Step(s: Scan, memory: MemoryInfo): Scan {
    if memory.memorySize == 0 then s
    else
      var parentIdx := if s.lastEnd > memory.addressStart then s.lastIdx else -1;
      var row := Row(s.idx, parentIdx, memory);
      if s.lastEnd < memory.addressEnd then Scan(memory.addressEnd, s.idx, s.idx + 1, s.rows + [row])
      else Scan(s.lastEnd, s.lastIdx, s.idx + 1, s.rows + [row])
  }

  /** The loop over `entries`, from lastEnd = 0, lastIdx = 0, idx = 0. */
  function Classify(entries: seq<MemoryInfo>): Scan {
    if entries == [] then Scan(0, 0, 0, [])
    else Step(Classify(entries[..|entries| - 1]), entries[|entries| - 1])
  }

  /** The entries of non-zero size, in order. */
  function NonEmpty(entries: seq<MemoryInfo>): (r: seq<MemoryInfo>)
    ensures |r| <= |entries|
    ensures forall m :: m in r ==> m in entries && m.memorySize != 0
  {
    if entries == [] then []
    else
      var init := entries[..|entries| - 1];
      var m := entries[|entries| - 1];
      assert forall x :: x in init ==> x in entries;
      if m.memorySize == 0 then NonEmpty(init) else NonEmpty(init) + [m]
  }

  /**
    SaveMergedMemoryImageInfo's loop: zero-size entries are skipped; every
    other entry gets the next idx and, as parent, lastIdx when lastEnd lies
    past its start and -1 otherwise; lastEnd and lastIdx move only when its
    end is strictly larger.
   */
  method ClassifyNesting(memoryLists: seq<MemoryInfo>) returns (rows: seq<Row>)
    ensures rows == Classify(memoryLists).rows
  {
    var lastEnd: u64 := 0;
    var lastIdx := 0;
    var idx := 0;
    rows := [];
    for i := 0 to |memoryLists|
      invariant Classify(memoryLists[..i]) == Scan(lastEnd, lastIdx, idx, rows)
    {
      var memory := memoryLists[i];
      assert memoryLists[..i + 1][..i] == memoryLists[..i];
      if memory.memorySize == 0 {
        continue;
      }
      var parentIdx;
      if lastEnd > memory.addressStart {
        parentIdx := lastIdx;
      } else {
        parentIdx := -1;
      }
      var row := Row(idx, parentIdx, memory);
      if lastEnd < memory.addressEnd {
        lastIdx := idx;
        lastEnd := memory.addressEnd;
      }
      rows := rows + [row];
      idx := idx + 1;
    }
    assert memoryLists[..|memoryLists|] == memoryLists;
  }

  /**
    The parent of row k: -1 exactly when no earlier row ends past its start;
    otherwise an earlier row that ends past its start, has the largest end
    among the earlier rows, and is the first row with that end.
   */
  predicate ParentOf(rows: seq<Row>, k: nat)
    requires k < |rows|
  {
    var start := rows[k].entry.addressStart;
    var p := rows[k].parentIdx;
    && (p == -1 <==> forall j :: 0 <= j < k ==> rows[j].entry.addressEnd <= start)
    && (p != -1 ==>
      && 0 <= p < k
      && start < rows[p].entry.addressEnd
      && (forall j :: 0 <= j < k ==> rows[j].entry.addressEnd <= rows[p].entry.addressEnd)
      && (forall j :: 0 <= j < p ==> rows[j].entry.addressEnd < rows[p].entry.addressEnd))
  }

  /**
    What holds after every prefix: rows are numbered 0, 1, 2, ...; lastEnd
    is the largest end so far (0 before any row) and lastIdx the first row
    that reached it; every row's parent is as ParentOf says.
   */
  predicate Nested(s: Scan) {
    && |s.rows| == s.idx
    && (forall k :: 0 <= k < |s.rows| ==> s.rows[k].idx == k)
    && (forall k :: 0 <= k < |s.rows| ==> s.rows[k].entry.addressEnd <= s.lastEnd)
    && (s.lastEnd == 0 ==> s.lastIdx == 0)
    && (s.lastEnd > 0 ==>
      && 0 <= s.lastIdx < |s.rows|
      && s.rows[s.lastIdx].entry.addressEnd == s.lastEnd
      && (forall k :: 0 <= k < s.lastIdx ==> s.rows[k].entry.addressEnd < s.lastEnd))
    && (forall k :: 0 <= k < |s.rows| ==> ParentOf(s.rows, k))
  }

  lemma StepKeepsNested(s: Scan, memory: MemoryInfo)
    requires Nested(s)
    ensures Nested(Step(s, memory))
  {
    if memory.memorySize != 0 {
      var t := Step(s, memory);
      var n := |s.rows|;
      assert t.rows[..n] == s.rows;
      forall k | 0 <= k < |t.rows| ensures ParentOf(t.rows, k) {
        if k < n {
          assert ParentOf(s.rows, k);
          assert forall j :: 0 <= j <= k ==> t.rows[j] == s.rows[j];
        }
      }
    }
  }

  /** Every prefix of the loop satisfies Nested, and the rows are the non-empty entries in order. */
  lemma {:induction false} ClassifyNested(entries: seq<MemoryInfo>)
    ensures Nested(Classify(entries))
    ensures |Classify(entries).rows| == |NonEmpty(entries)|
    ensures forall k :: 0 <= k < |NonEmpty(entries)| ==> Classify(entries).rows[k].entry == NonEmpty(entries)[k]
  {
    if entries != [] {
      var init := entries[..|entries| - 1];
      ClassifyNested(init);
      StepKeepsNested(Classify(init), entries[|entries| - 1]);
    }
  }

  /** The first row never has a parent: lastEnd starts at 0 and no start lies below 0. */
  lemma FirstRowHasNoParent(entries: seq<MemoryInfo>)
    requires |Classify(entries).rows| > 0
    ensures Classify(entries).rows[0].parentIdx == -1
  {
    ClassifyNested(entries);
    assert ParentOf(Classify(entries).rows, 0);
  }

  /** Start addresses never decrease along the list. */
  predicate StartSorted(s: seq<MemoryInfo>) {
    forall i, j :: 0 <= i < j < |s| ==> s[i].addressStart <= s[j].addressStart
  }

  lemma {:induction false} NonEmptyKeepsOrder(entries: seq<MemoryInfo>)
    requires StartSorted(entries)
    ensures StartSorted(NonEmpty(entries))
  {
    if entries != [] {
      var init := entries[..|entries| - 1];
      var m := entries[|entries| - 1];
      assert StartSorted(init);
      NonEmptyKeepsOrder(init);
      var r := NonEmpty(init);
      forall x | x in r ensures x.addressStart <= m.addressStart {
        var i :| 0 <= i < |init| && init[i] == x;
      }
    }
  }

  /**
    On a list sorted by start address, as MemorySnapshotMap's is, a parent
    starts no later than its child and ends after the child's start.
   */
  lemma ParentContainsStart(entries: seq<MemoryInfo>, k: nat)
    requires StartSorted(entries)
    requires k < |Classify(entries).rows| && Classify(entries).rows[k].parentIdx != -1
    ensures var rows := Classify(entries).rows;
      var p := rows[k].parentIdx;
      && 0 <= p < k
      && rows[p].entry.addressStart <= rows[k].entry.addressStart < rows[p].entry.addressEnd
  {
    var rows := Classify(entries).rows;
    ClassifyNested(entries);
    NonEmptyKeepsOrder(entries);
    assert ParentOf(rows, k);
    var p := rows[k].parentIdx;
    assert rows[p].entry == NonEmpty(entries)[p] && rows[k].entry == NonEmpty(entries)[k];
  }

  /** A region [0, 100) followed by a region [10, 30): the second is nested in the first. */
  lemma ContainedRegionGetsParent()
    ensures var outer := NewMemoryInfo(0, 100, Region(MemoryRegion("outer", -1, 0, 100, 0, 0)));
      var inner := NewMemoryInfo(10, 20, Region(MemoryRegion("inner", 0, 10, 20, 0, 0)));
      Classify([outer, inner]).rows == [Row(0, -1, outer), Row(1, 0, inner)]
  {
    var outer := NewMemoryInfo(0, 100, Region(MemoryRegion("outer", -1, 0, 100, 0, 0)));
    var inner := NewMemoryInfo(10, 20, Region(MemoryRegion("inner", 0, 10, 20, 0, 0)));
    assert [outer, inner][..1] == [outer];
    assert [outer][..0] == [];
    assert Classify([]) == Scan(0, 0, 0, []);
    assert Classify([outer]) == Scan(100, 0, 1, [Row(0, -1, outer)]);
    assert Classify([outer, inner]) == Step(Classify([outer]), inner);
  }
}
