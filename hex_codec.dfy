/** The hex lookup table and the decoding of a line's 40-character digest
    field into 20 raw bytes (case-insensitive Base16, RFC 4648 section 8,
    except that a non-hex character is not rejected: it reads as 0). */
module HexCodec {
  import opened Bytes

  const UpperA: byte := 65       // 'A'
  const UpperF: byte := 70       // 'F'
  const LowerA: byte := 97       // 'a'
  const LowerF: byte := 102      // 'f'

  predicate IsUpperHexChar(c: byte) {
    DigitZero <= c <= DigitNine || UpperA <= c <= UpperF
  }

  predicate IsHexChar(c: byte) {
    IsUpperHexChar(c) || LowerA <= c <= LowerF
  }

  /** ASCII upper-casing of a hex letter; other bytes are unchanged. */
  function ToUpper(c: byte): (u: byte)
    ensures IsHexChar(c) ==> IsUpperHexChar(u)
  {
    if LowerA <= c <= LowerF then c - (LowerA - UpperA) else c
  }

  /** The value the lookup table holds for byte c. */
  function HexValue(c: byte): (v: byte)
    ensures v < 16
  {
    if DigitZero <= c <= DigitNine then c - DigitZero
    else if UpperA <= c <= UpperF then c - UpperA + 10
    else if LowerA <= c <= LowerF then c - LowerA + 10
    else 0
  }

  /** The character "X2" formatting prints for a nibble: '0'-'9', 'A'-'F'. */
  function UpperHexChar(n: int): (c: byte)
    requires 0 <= n < 16
    ensures IsUpperHexChar(c)
  {
    if n < 10 then DigitZero + n else UpperA + (n - 10)
  }

  /** lookup is the table: entry c holds HexValue(c). */
  predicate IsHexLookup(lookup: array<byte>)
    reads lookup
  {
    lookup.Length == 256 && forall c :: 0 <= c < 256 ==> lookup[c] == HexValue(c)
  }

  /** Builds the 256-entry table in one pass over all byte values; entries
      that are not hex digits keep the array's initial 0. */
  method CreateHexLookup() returns (lookup: array<byte>)
    ensures lookup.Length == 256
    ensures forall c :: DigitZero <= c <= DigitNine ==> lookup[c] == c - DigitZero
    ensures forall c :: UpperA <= c <= UpperF ==> lookup[c] == c - UpperA + 10
    ensures forall c :: LowerA <= c <= LowerF ==> lookup[c] == c - LowerA + 10
    ensures forall c :: 0 <= c < 256 ==> lookup[c] < 16
    ensures IsHexLookup(lookup)
  {
    lookup := new byte[256](_ => 0);
    for i := 0 to 256
      invariant forall c :: 0 <= c < i ==> lookup[c] == HexValue(c)
      invariant forall c :: i <= c < 256 ==> lookup[c] == 0
    {
      if DigitZero <= i <= DigitNine {
        lookup[i] := i - DigitZero;
      } else if UpperA <= i <= UpperF {
        lookup[i] := i - UpperA + 10;
      } else if LowerA <= i <= LowerF {
        lookup[i] := i - LowerA + 10;
      }
    }
  }

  /** Digest byte j of a field: the high nibble from character 2j, the low
      nibble from character 2j + 1. */
  function DigestByte(field: seq<byte>, j: int): (b: byte)
    requires 0 <= j && 2 * j + 1 < |field|
  {
    16 * HexValue(field[2 * j]) + HexValue(field[2 * j + 1])
  }

  /** The decoding loop: |field| / 2 bytes, one per pair of characters. */
  function DecodeDigest(field: seq<byte>): (digest: seq<byte>)
    requires |field| % 2 == 0
    ensures |digest| == |field| / 2
  {
    seq(|field| / 2, j requires 0 <= j < |field| / 2 => DigestByte(field, j))
  }

  /** Each byte printed as two upper-case hex digits, as in x.ToString("X2"). */
  function EncodeUpperHex(digest: seq<byte>): (text: seq<byte>)
    ensures |text| == 2 * |digest|
  {
    if digest == [] then []
    else [UpperHexChar(digest[0] / 16), UpperHexChar(digest[0] % 16)] + EncodeUpperHex(digest[1..])
  }

  lemma {:induction false} EncodeUpperHexAt(digest: seq<byte>, j: int)
    requires 0 <= j < |digest|
    ensures EncodeUpperHex(digest)[2 * j] == UpperHexChar(digest[j] / 16)
    ensures EncodeUpperHex(digest)[2 * j + 1] == UpperHexChar(digest[j] % 16)
  {
    if j > 0 {
      EncodeUpperHexAt(digest[1..], j - 1);
    }
  }

  /** A nibble's printed digit reads back as that nibble, and a printed
      upper-case digit is what its value prints as. */
  lemma NibbleRoundTrip(n: int, c: byte)
    requires 0 <= n < 16
    ensures HexValue(UpperHexChar(n)) == n
    ensures IsUpperHexChar(c) ==> UpperHexChar(HexValue(c)) == c
  {
  }

  /** Lower-case digits decode to the same value as their upper-case forms. */
  lemma HexValueCaseInsensitive(c: byte)
    requires UpperA <= c <= UpperF
    ensures HexValue(c + (LowerA - UpperA)) == HexValue(c)
  {
  }

  /** Printing the digest and decoding the text gives back the digest. */
  lemma DecodeEncodeRoundTrip(digest: seq<byte>)
    ensures DecodeDigest(EncodeUpperHex(digest)) == digest
  {
    var text := EncodeUpperHex(digest);
    forall j | 0 <= j < |digest|
      ensures DecodeDigest(text)[j] == digest[j]
    {
      EncodeUpperHexAt(digest, j);
      NibbleRoundTrip(digest[j] / 16, 0);
      NibbleRoundTrip(digest[j] % 16, 0);
    }
  }

  /** The property the converter asserts after each line: for an upper-case
      hex field, printing the decoded digest in "X2" form gives the field. */
  lemma EncodeDecodeRoundTrip(field: seq<byte>)
    requires |field| % 2 == 0
    requires forall i :: 0 <= i < |field| ==> IsUpperHexChar(field[i])
    ensures EncodeUpperHex(DecodeDigest(field)) == field
  {
    var digest := DecodeDigest(field);
    var text := EncodeUpperHex(digest);
    forall i | 0 <= i < |field|
      ensures text[i] == field[i]
    {
      var j := i / 2;
      EncodeUpperHexAt(digest, j);
      var hi, lo := HexValue(field[2 * j]), HexValue(field[2 * j + 1]);
      assert digest[j] / 16 == hi && digest[j] % 16 == lo;
      NibbleRoundTrip(hi, field[2 * j]);
      NibbleRoundTrip(lo, field[2 * j + 1]);
    }
  }

  /** Decoding a hex field of either case and printing the digest in "X2"
      form gives the field back, upper-cased. */
  lemma EncodeDecodeUpToCase(field: seq<byte>)
    requires |field| % 2 == 0
    requires forall i :: 0 <= i < |field| ==> IsHexChar(field[i])
    ensures EncodeUpperHex(DecodeDigest(field)) == seq(|field|, i requires 0 <= i < |field| => ToUpper(field[i]))
  {
    var upper := seq(|field|, i requires 0 <= i < |field| => ToUpper(field[i]));
    forall i | 0 <= i < |field|
      ensures HexValue(upper[i]) == HexValue(field[i])
    {
      if LowerA <= field[i] <= LowerF {
        HexValueCaseInsensitive(upper[i]);
      }
    }
    assert DecodeDigest(upper) == DecodeDigest(field);
    EncodeDecodeRoundTrip(upper);
  }
}
