/**
  Fixed-width machine words and the little-endian reads the snapshot reader
  does through BitConverter on a little-endian host.
 */
module Words {
  import opened Wrappers
  import opened Faults

  const TWO_31: int := 0x8000_0000
  const TWO_32: int := 0x1_0000_0000
  const TWO_64: int := 0x1_0000_0000_0000_0000

  /** An unsigned 64-bit value (C# ulong). */
  type u64 = x: int | 0 <= x < 0x1_0000_0000_0000_0000

  /** One byte of captured memory. */
  type Byte = b: int | 0 <= b < 256

  /** A C# byte[]: its Length is an int, so it holds fewer than 2^31 bytes. */
  type ByteArray = s: seq<Byte> | |s| < 0x8000_0000

  /** The unchecked ulong sum `a + b`, which wraps modulo 2^64. */
  function AddU64(a: u64, b: u64): (r: u64)
    ensures r == (a + b) % TWO_64
    ensures a + b >= TWO_64 ==> r < a && r < b
  {
    if a + b < TWO_64 then a + b else a + b - TWO_64
  }

  function Pow256(n: nat): (p: nat)
    ensures p >= 1
  {
    if n == 0 then 1 else 256 * Pow256(n - 1)
  }

  /** The unsigned value of `bs` read least significant byte first. */
  function FromLittleEndian(bs: seq<Byte>): (v: nat)
    ensures v < Pow256(|bs|)
  {
    if bs == [] then 0
    else
      var rest := FromLittleEndian(bs[1..]);
      assert rest <= Pow256(|bs| - 1) - 1;
      assert 256 * rest <= 256 * Pow256(|bs| - 1) - 256;
      bs[0] + 256 * rest
  }

  /** The `n` bytes that store `v` least significant byte first. */
  function ToLittleEndian(v: nat, n: nat): (bs: seq<Byte>)
    requires v < Pow256(n)
    ensures |bs| == n
  {
    if n == 0 then [] else [v % 256] + ToLittleEndian(v / 256, n - 1)
  }

  lemma {:induction false} DecodeEncode(v: nat, n: nat)
    requires v < Pow256(n)
    ensures FromLittleEndian(ToLittleEndian(v, n)) == v
  {
    if n > 0 {
      var bs := ToLittleEndian(v, n);
      assert bs[1..] == ToLittleEndian(v / 256, n - 1);
      DecodeEncode(v / 256, n - 1);
    }
  }

  lemma {:induction false} EncodeDecode(bs: seq<Byte>)
    ensures ToLittleEndian(FromLittleEndian(bs), |bs|) == bs
  {
    if bs != [] {
      var v := FromLittleEndian(bs);
      var rest := FromLittleEndian(bs[1..]);
      assert v % 256 == bs[0] && v / 256 == rest;
      EncodeDecode(bs[1..]);
    }
  }

  /**
    BitConverter.ToUInt32 / ToUInt64 / ToInt32 first check that `offset` is
    inside the array and that `width` bytes remain; otherwise they throw.
   */
  function ReadUnsigned(bytes: seq<Byte>, offset: int, width: nat): (r: Result<nat, Fault>)
    requires 1 <= width
    ensures r.Success? <==> 0 <= offset && offset + width <= |bytes|
    ensures r.Success? ==> r.value < Pow256(width)
    ensures r.Failure? ==> r.error == ReadOutOfRange(offset, width, |bytes|)
  {
    if offset < 0 || offset >= |bytes| || offset > |bytes| - width then
      Failure(ReadOutOfRange(offset, width, |bytes|))
    else
      Success(FromLittleEndian(bytes[offset..offset + width]))
  }

  /** BitConverter.ToInt32: four bytes read as a two's complement int. */
  function ReadInt32(bytes: seq<Byte>, offset: int): (r: Result<int, Fault>)
    ensures r.Success? <==> 0 <= offset && offset + 4 <= |bytes|
    ensures r.Success? ==> -TWO_31 <= r.value < TWO_31
    ensures r.Success? ==>
      (0 <= r.value ==> r.value == FromLittleEndian(bytes[offset..offset + 4])) &&
      (r.value < 0 ==> r.value + TWO_32 == FromLittleEndian(bytes[offset..offset + 4]))
  {
    match ReadUnsigned(bytes, offset, 4)
    case Failure(e) => Failure(e)
    case Success(u) =>
      assert Pow256(4) == TWO_32;
      Success(if u >= TWO_31 then u - TWO_32 else u)
  }

  /**
    MemorySnapshotCacheData.ReadPointer: a 4- or 8-byte little-endian pointer
    at `offset`; any other pointer size is refused.
   */
  function ReadPointer(bytes: seq<Byte>, offset: int, pointerSize: int): (r: Result<u64, Fault>)
    ensures r.Success? <==>
      (pointerSize == 4 || pointerSize == 8) && 0 <= offset && offset + pointerSize <= |bytes|
    ensures pointerSize != 4 && pointerSize != 8 ==> r == Failure(UnexpectedPointerSize(pointerSize))
    ensures r.Success? ==> r.value == FromLittleEndian(bytes[offset..offset + pointerSize])
    ensures r.Success? && pointerSize == 4 ==> r.value < TWO_32
  {
    assert Pow256(4) == TWO_32 && Pow256(8) == TWO_64;
    if pointerSize == 4 || pointerSize == 8 then
      match ReadUnsigned(bytes, offset, pointerSize)
      case Failure(e) => Failure(e)
      case Success(v) => Success(v)
    else
      Failure(UnexpectedPointerSize(pointerSize))
  }

  /** Writing a pointer little-endian into a buffer and reading it back at the same offset gives it back. */
  lemma PointerRoundTrip(prefix: seq<Byte>, v: u64, suffix: seq<Byte>, pointerSize: int)
    requires pointerSize == 4 || pointerSize == 8
    requires v < Pow256(pointerSize)
    ensures ReadPointer(prefix + ToLittleEndian(v, pointerSize) + suffix, |prefix|, pointerSize) == Success(v)
  {
    var enc := ToLittleEndian(v, pointerSize);
    var buf := prefix + enc + suffix;
    assert buf[|prefix|..|prefix| + pointerSize] == enc;
    DecodeEncode(v, pointerSize);
  }
}
