/**
  The segment store: managed heap and stack sections sorted by start
  address, and the hand-written binary search GetManagedMemory that finds
  the section holding an address. Containment is inclusive of the
  one-past-end address, and the end is the unchecked ulong sum
  start + bytes.Length.
 */
module Segments {
  import opened Wrappers
  import opened Words

  /** A ManagedMemory section: captured bytes starting at `startAddress`. */
  datatype Segment = Segment(startAddress: u64, bytes: ByteArray)

  /** The comparator's upper bound: start + bytes.Length as a wrapping ulong sum. */
  function End(m: Segment): u64 {
    AddU64(m.startAddress, |m.bytes|)
  }

  /** The comparator's notion of "addr lies in m": start <= addr <= end, end included. */
  predicate Contains(m: Segment, addr: u64) {
    m.startAddress <= addr <= End(m)
  }

  /**
    GetManagedMemoryBiggerOrSmaller: -1 when the section lies above addr,
    1 when addr lies past its end, 0 when the section contains addr.
   */
  function Compare(memory: Segment, addr: u64): (r: int)
    ensures r == -1 <==> addr < memory.startAddress
    ensures r == 1 <==> memory.startAddress <= addr && End(memory) < addr
    ensures r == 0 <==> Contains(memory, addr)
  {
    if memory.startAddress > addr then -1
    else if addr > End(memory) then 1
    else 0
  }

  /** When the end wraps, nothing is contained; otherwise a contained address is at most `length` past the start. */
  lemma ContainedOffset(m: Segment, addr: u64)
    requires Contains(m, addr)
    ensures m.startAddress + |m.bytes| < TWO_64
    ensures 0 <= addr - m.startAddress <= |m.bytes|
  {
  }

  /** Without wrap-around, containment is exactly start <= addr <= start + length. */
  lemma ContainsWithoutWrap(m: Segment, addr: u64)
    requires m.startAddress + |m.bytes| < TWO_64
    ensures Contains(m, addr) <==> m.startAddress <= addr <= m.startAddress + |m.bytes|
  {
  }

  /**
    The binary-search loop of GetManagedMemory as a function of the window
    [lo, hi): probe the middle index, narrow the window to the side the
    comparator points at, and give up as soon as the new middle coincides
    with a window bound. Yields the index of the section found.
   */
  function Probe(s: seq<Segment>, addr: u64, lo: nat, hi: nat): (r: Option<nat>)
    requires lo <= hi <= |s|
    ensures r.Some? ==> lo <= r.value < hi && Contains(s[r.value], addr)
    decreases hi - lo
  {
    if lo == hi then None
    else
      var cur := (lo + hi) / 2;
      var c := Compare(s[cur], addr);
      if c == 0 then Some(cur)
      else if c > 0 then
        var next := (cur + hi) / 2;
        if next == cur || next == hi then None else Probe(s, addr, cur, hi)
      else
        var next := (lo + cur) / 2;
        if next == lo || next == cur then None else Probe(s, addr, lo, cur)
  }

  /** What GetManagedMemory returns for `addr` over the sorted sections `s`. */
  function FindSegment(s: seq<Segment>, addr: u64): (r: Option<Segment>)
    ensures r.Some? ==> r.value in s && Contains(r.value, addr)
    ensures |s| == 0 ==> r.None?
    ensures |s| == 1 ==> (r.Some? <==> Contains(s[0], addr)) && (r.Some? ==> r.value == s[0])
  {
    match Probe(s, addr, 0, |s|)
    case Some(i) => Some(s[i])
    case None => None
  }

  /** MemorySnapshotCacheData.GetManagedMemory: the loop over minIdx, maxIdx and currentIdx. */
  method GetManagedMemory(sortedManagedMemory: seq<Segment>, addr: u64) returns (r: Option<Segment>)
    ensures r == FindSegment(sortedManagedMemory, addr)
    ensures r.Some? ==> r.value in sortedManagedMemory && Contains(r.value, addr)
  {
    var length := |sortedManagedMemory|;
    var minIdx := 0;
    var maxIdx := length;
    var currentIdx := length / 2;
    while minIdx != maxIdx
      invariant 0 <= minIdx <= maxIdx <= length
      invariant currentIdx == (minIdx + maxIdx) / 2
      invariant Probe(sortedManagedMemory, addr, minIdx, maxIdx) == Probe(sortedManagedMemory, addr, 0, length)
      decreases maxIdx - minIdx
    {
      var result := Compare(sortedManagedMemory[currentIdx], addr);
      if result == 0 {
        return Some(sortedManagedMemory[currentIdx]);
      }
      if result > 0 {
        minIdx := currentIdx;
      } else if result < 0 {
        maxIdx := currentIdx;
      }
      currentIdx := (minIdx + maxIdx) / 2;
      if currentIdx == minIdx || currentIdx == maxIdx {
        break;
      }
    }
    return None;
  }

  /**
    With two or more sections the search never looks at index 0: only the
    middle of a window of width two or more, or of a window that starts past
    0, is probed.
   */
  lemma {:induction false} ProbeIgnoresFirst(s: seq<Segment>, t: seq<Segment>, addr: u64, lo: nat, hi: nat)
    requires |s| == |t| && forall i :: 1 <= i < |s| ==> s[i] == t[i]
    requires lo <= hi <= |s|
    requires 1 <= lo || 2 <= hi - lo || lo == hi
    ensures Probe(s, addr, lo, hi) == Probe(t, addr, lo, hi)
    ensures Probe(s, addr, lo, hi).Some? ==> 1 <= Probe(s, addr, lo, hi).value
    decreases hi - lo
  {
    if lo != hi {
      var cur := (lo + hi) / 2;
      assert s[cur] == t[cur];
      var c := Compare(s[cur], addr);
      if c > 0 && (cur + hi) / 2 != cur {
        ProbeIgnoresFirst(s, t, addr, cur, hi);
      } else if c < 0 && (lo + cur) / 2 != lo {
        ProbeIgnoresFirst(s, t, addr, lo, cur);
      }
    }
  }

  /** The first section's contents never influence a lookup among two or more sections. */
  lemma FirstSegmentNeverExamined(s: seq<Segment>, t: seq<Segment>, addr: u64)
    requires |s| == |t| >= 2 && s[1..] == t[1..]
    ensures FindSegment(s, addr).None? <==> FindSegment(t, addr).None?
    ensures FindSegment(s, addr).Some? ==> FindSegment(s, addr).value in s[1..]
    ensures FindSegment(s, addr) == FindSegment(t, addr)
  {
    forall i | 1 <= i < |s| ensures s[i] == t[i] {
      assert s[i] == s[1..][i - 1];
    }
    ProbeIgnoresFirst(s, t, addr, 0, |s|);
    match Probe(s, addr, 0, |s|)
    case Some(i) => assert s[i] == s[1..][i - 1];
    case None =>
  }

  /** Sections [0x100, 16 bytes] and [0x200, 8 bytes]: 0x110 lies in the first, yet the lookup misses it. */
  lemma LookupMissesFirstSegment()
    ensures var s := [Segment(0x100, seq(16, _ => 0)), Segment(0x200, seq(8, _ => 0))];
      Contains(s[0], 0x110) && FindSegment(s, 0x110) == None
  {
  }

  /** Start addresses ascending, each section ending strictly before the next begins, and no end wraps. */
  ghost predicate SortedDisjoint(s: seq<Segment>) {
    && (forall i :: 0 <= i < |s| ==> s[i].startAddress + |s[i].bytes| < TWO_64)
    && (forall i, k :: 0 <= i < k < |s| ==> s[i].startAddress + |s[i].bytes| < s[k].startAddress)
  }

  /** On sorted, disjoint sections at most one section contains an address. */
  lemma SingleContainer(s: seq<Segment>, addr: u64, i: nat, k: nat)
    requires SortedDisjoint(s)
    requires i < |s| && k < |s| && Contains(s[i], addr) && Contains(s[k], addr)
    ensures i == k
  {
  }

  /** A section containing an address past the end of section `cur` comes after it. */
  lemma PastEndIsLater(s: seq<Segment>, addr: u64, cur: nat, j: nat)
    requires SortedDisjoint(s)
    requires cur < |s| && j < |s| && Contains(s[j], addr) && End(s[cur]) < addr
    ensures cur < j
  {
  }

  /** A section containing an address below the start of section `cur` comes before it. */
  lemma BelowStartIsEarlier(s: seq<Segment>, addr: u64, cur: nat, j: nat)
    requires SortedDisjoint(s)
    requires cur < |s| && j < |s| && Contains(s[j], addr) && addr < s[cur].startAddress
    ensures j < cur
  {
  }

  lemma {:induction false} ProbeFinds(s: seq<Segment>, addr: u64, lo: nat, hi: nat, j: nat)
    requires SortedDisjoint(s)
    requires lo <= j < hi <= |s| && Contains(s[j], addr)
    requires lo == j ==> j == (lo + hi) / 2
    ensures Probe(s, addr, lo, hi) == Some(j)
    decreases hi - lo
  {
    var cur := (lo + hi) / 2;
    var c := Compare(s[cur], addr);
    if c == 0 {
      SingleContainer(s, addr, cur, j);
    } else if c > 0 {
      PastEndIsLater(s, addr, cur, j);
      ProbeFinds(s, addr, cur, hi, j);
    } else {
      BelowStartIsEarlier(s, addr, cur, j);
      ProbeFinds(s, addr, lo, cur, j);
    }
  }

  /**
    On sorted, disjoint sections the lookup finds every contained address,
    except in the first section when there are two or more.
   */
  lemma FindSegmentComplete(s: seq<Segment>, addr: u64, j: nat)
    requires SortedDisjoint(s)
    requires j < |s| && Contains(s[j], addr)
    requires 1 <= j || |s| == 1
    ensures FindSegment(s, addr) == Some(s[j])
  {
    ProbeFinds(s, addr, 0, |s|, j);
  }
}
