/** Byte-level building blocks shared by the converter and the searcher:
    the byte type, the 4-byte little-endian int32 layout that BinaryWriter
    uses for the count field, and the unsigned lexicographic comparison that
    ReadOnlySpan<byte>.SequenceCompareTo performs on digests. */
module Bytes {

  type byte = x: int | 0 <= x < 256

  datatype Option<T> = None | Some(value: T)

  const DigitZero: byte := 48   // '0'
  const DigitNine: byte := 57   // '9'

  const Int32Min: int := -0x8000_0000
  const Int32Max: int := 0x7FFF_FFFF

  predicate IsInt32(n: int) {
    Int32Min <= n <= Int32Max
  }

  /** The four bytes BinaryWriter.Write(int) emits: two's complement,
      least significant byte first. */
  function EncodeInt32LE(n: int): (b: seq<byte>)
    requires IsInt32(n)
    ensures |b| == 4
    ensures n >= 0 <==> b[3] < 0x80
  {
    var u := if n < 0 then n + 0x1_0000_0000 else n;
    [u % 0x100, u / 0x100 % 0x100, u / 0x1_0000 % 0x100, u / 0x100_0000]
  }

  /** Reads back a little-endian two's complement int32 (BinaryReader.ReadInt32). */
  function DecodeInt32LE(b: seq<byte>): (n: int)
    requires |b| == 4
    ensures IsInt32(n)
  {
    var u := b[0] as int + 0x100 * b[1] as int + 0x1_0000 * b[2] as int + 0x100_0000 * b[3] as int;
    if u >= 0x8000_0000 then u - 0x1_0000_0000 else u
  }

  lemma Int32RoundTrip(n: int)
    requires IsInt32(n)
    ensures DecodeInt32LE(EncodeInt32LE(n)) == n
  {
    var u := if n < 0 then n + 0x1_0000_0000 else n;
    assert 0 <= u < 0x1_0000_0000;
    var b := EncodeInt32LE(n);
    assert b[0] as int + 0x100 * (u / 0x100) == u;
    assert b[1] as int + 0x100 * (u / 0x1_0000) == u / 0x100;
    assert b[2] as int + 0x100 * b[3] as int == u / 0x1_0000;
  }

  /** The sign of ReadOnlySpan<byte>.SequenceCompareTo: unsigned byte-wise
      lexicographic order, a proper prefix ordered first. */
  function Compare(a: seq<byte>, b: seq<byte>): (r: int)
    ensures -1 <= r <= 1
  {
    if a == [] then (if b == [] then 0 else -1)
    else if b == [] then 1
    else if a[0] < b[0] then -1
    else if a[0] > b[0] then 1
    else Compare(a[1..], b[1..])
  }

  /** Compare reports equality exactly for equal sequences. */
  lemma {:induction false} CompareZero(a: seq<byte>, b: seq<byte>)
    ensures Compare(a, b) == 0 <==> a == b
  {
    if a != [] && b != [] && a[0] == b[0] {
      CompareZero(a[1..], b[1..]);
      assert a == [a[0]] + a[1..] && b == [b[0]] + b[1..];
    }
  }

  lemma {:induction false} CompareAntisymmetric(a: seq<byte>, b: seq<byte>)
    ensures Compare(a, b) == -Compare(b, a)
  {
    if a != [] && b != [] && a[0] == b[0] {
      CompareAntisymmetric(a[1..], b[1..]);
    }
  }

  /** Ordering by Compare is transitive, strictly so when either step is strict. */
  lemma {:induction false} CompareTransitive(a: seq<byte>, b: seq<byte>, c: seq<byte>)
    requires Compare(a, b) <= 0 && Compare(b, c) <= 0
    ensures Compare(a, c) <= 0
    ensures Compare(a, b) < 0 || Compare(b, c) < 0 ==> Compare(a, c) < 0
  {
    if a != [] && b != [] && c != [] && a[0] == b[0] == c[0] {
      CompareTransitive(a[1..], b[1..], c[1..]);
    }
  }
}
