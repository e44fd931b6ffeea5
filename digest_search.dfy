/** The bisecting search over the binary file: a flat sequence of 24-byte
    records, each starting with a 20-byte digest. The file is the byte
    sequence the reader sees; a seek is an offset and a read copies up to 24
    bytes from it into a zeroed buffer. */
module DigestSearch {
  import opened Bytes
  import opened RecordFormat

  /** The outcome of a search: whether the digest was found, and the offsets
      the reader was moved to, in order. */
  datatype Search = Search(found: bool, seeks: seq<int>)

  /** How many bytes a 24-byte read at pos gets: all of them, or what is
      left before the end of the file. */
  function BytesRead(file: seq<byte>, pos: int): (n: int)
    requires 0 <= pos
    ensures 0 <= n <= RecordLength
    ensures pos < |file| ==> 0 < n && pos + n <= |file|
    ensures pos + RecordLength <= |file| ==> n == RecordLength
  {
    if pos >= |file| then 0
    else if |file| - pos < RecordLength then |file| - pos
    else RecordLength
  }

  /** The 24-byte buffer after a read at pos: the bytes read, then the zeros
      the buffer held before. */
  function ReadRecord(file: seq<byte>, pos: int): (compare: seq<byte>)
    requires 0 <= pos
    ensures |compare| == RecordLength
    ensures pos < |file| ==> compare[..BytesRead(file, pos)] == file[pos .. pos + BytesRead(file, pos)]
    ensures forall i :: BytesRead(file, pos) <= i < RecordLength ==> compare[i] == 0
  {
    var n := BytesRead(file, pos);
    (if n == 0 then [] else file[pos .. pos + n]) + seq(RecordLength - n, _ => 0)
  }

  /** The sign SequenceCompareTo gives for the query against the first 20
      bytes of the buffer read at readPos. */
  function ProbeCompare(file: seq<byte>, readPos: int, hash: seq<byte>): (result: int)
    requires 0 <= readPos
    ensures -1 <= result <= 1
    ensures result == 0 <==> hash == ReadRecord(file, readPos)[..DigestLength]
  {
    CompareZero(hash, ReadRecord(file, readPos)[..DigestLength]);
    Compare(hash, ReadRecord(file, readPos)[..DigestLength])
  }

  /** The lower-middle record of a non-empty range: the probe offset. */
  function ProbePosition(startPos: int, endPos: int): (readPos: int)
    requires startPos < endPos
    ensures startPos <= readPos < endPos
    ensures (readPos - startPos) % RecordLength == 0
    ensures readPos - startPos <= (endPos - startPos) / 2
  {
    var count := (endPos - startPos) / RecordLength;
    var middle := count / 2;
    startPos + middle * RecordLength
  }

  /** The range the search goes on with after a probe at readPos that did
      not match: from the reader's position after the read up to endPos when
      the query is greater, from startPos up to the probe when it is less.
      Either way the range shrinks. */
  function NextRange(file: seq<byte>, startPos: int, endPos: int, readPos: int, result: int): (range: (int, int))
    requires 0 <= startPos <= readPos < endPos <= |file|
    ensures startPos <= range.0 && range.1 <= endPos
    ensures range.1 - range.0 < endPos - startPos
  {
    if result > 0 then (readPos + BytesRead(file, readPos), endPos) else (startPos, readPos)
  }

  function Last(s: seq<int>): int
    requires |s| > 0
  {
    s[|s| - 1]
  }

  /** The search of [startPos, endPos): an empty range is not searched; a
      probe that matches ends the search; otherwise the search goes on with
      the half that can still hold the digest. */
  function FindHash(file: seq<byte>, startPos: int, endPos: int, hash: seq<byte>): (r: Search)
    requires 0 <= startPos && endPos <= |file|
    ensures startPos >= endPos ==> r == Search(false, [])
    ensures r.found ==> |r.seeks| > 0 && startPos <= Last(r.seeks) < endPos
                        && hash == ReadRecord(file, Last(r.seeks))[..DigestLength]
    decreases endPos - startPos
  {
    if startPos >= endPos then Search(false, [])
    else
      var readPos := ProbePosition(startPos, endPos);
      var result := ProbeCompare(file, readPos, hash);
      if result == 0 then Search(true, [readPos])
      else
        var next := NextRange(file, startPos, endPos, readPos, result);
        var rest := FindHash(file, next.0, next.1, hash);
        Search(rest.found, [readPos] + rest.seeks)
  }

  /** Lookup searches the whole file. Whatever it finds equals the first 20
      bytes of a buffer read from the file; on a file of whole records, that
      is the digest of one of its records, sorted or not. (On a file that
      ends in a partial record, the buffer read there is padded with zeros,
      so a query ending in zeros can match bytes the file does not hold.) */
  function Lookup(file: seq<byte>, hash: seq<byte>): (found: bool)
    ensures found ==> exists p :: 0 <= p < |file| && hash == ReadRecord(file, p)[..DigestLength]
    ensures found && |file| % RecordLength == 0 ==>
              exists k :: 0 <= k < |file| / RecordLength && RecordDigest(file, k) == hash
  {
    var r := FindHash(file, 0, |file|, hash);
    if r.found && |file| % RecordLength == 0 then
      SeeksAligned(file, 0, |file|, hash);
      var p := Last(r.seeks);
      assert 0 <= p < |file| && p % RecordLength == 0;
      assert p == RecordLength * (p / RecordLength);
      assert RecordDigest(file, p / RecordLength) == hash;
      true
    else
      r.found
  }

  /** The digest of record k of a file of whole records. */
  function RecordDigest(file: seq<byte>, k: int): (digest: seq<byte>)
    requires 0 <= k < |file| / RecordLength
    ensures |digest| == DigestLength
    ensures digest == ReadRecord(file, RecordLength * k)[..DigestLength]
  {
    file[RecordLength * k .. RecordLength * k + DigestLength]
  }

  /** The records are in ascending order of their digests. */
  predicate Sorted(file: seq<byte>) {
    forall i, j :: 0 <= i <= j < |file| / RecordLength ==> Compare(RecordDigest(file, i), RecordDigest(file, j)) <= 0
  }

  /** In a record-aligned range of a file of whole records, the probe is a
      whole record of the range, so the read is complete. */
  lemma ProbeAligned(file: seq<byte>, startPos: int, endPos: int)
    requires |file| % RecordLength == 0 && 0 <= startPos < endPos <= |file|
    requires startPos % RecordLength == 0 && endPos % RecordLength == 0
    ensures ProbePosition(startPos, endPos) % RecordLength == 0
    ensures ProbePosition(startPos, endPos) + RecordLength <= endPos
    ensures BytesRead(file, ProbePosition(startPos, endPos)) == RecordLength
  {
    var a, b := startPos / RecordLength, endPos / RecordLength;
    assert startPos == RecordLength * a && endPos == RecordLength * b;
    assert endPos - startPos == RecordLength * (b - a);
    var count := (endPos - startPos) / RecordLength;
    assert count == b - a;
    var middle := count / 2;
    assert middle < count;
    assert ProbePosition(startPos, endPos) == RecordLength * (a + middle);
  }

  /** Every offset lies in [startPos, endPos). */
  predicate InRange(seeks: seq<int>, startPos: int, endPos: int) {
    forall i :: 0 <= i < |seeks| ==> startPos <= seeks[i] < endPos
  }

  /** Every probe of a search lies in its range, whatever the file. */
  lemma {:induction false} SeeksInRange(file: seq<byte>, startPos: int, endPos: int, hash: seq<byte>)
    requires 0 <= startPos && endPos <= |file|
    ensures InRange(FindHash(file, startPos, endPos, hash).seeks, startPos, endPos)
    decreases endPos - startPos
  {
    if startPos < endPos {
      var readPos := ProbePosition(startPos, endPos);
      var result := ProbeCompare(file, readPos, hash);
      if result != 0 {
        var next := NextRange(file, startPos, endPos, readPos, result);
        SeeksInRange(file, next.0, next.1, hash);
        var rest := FindHash(file, next.0, next.1, hash).seeks;
        var seeks := FindHash(file, startPos, endPos, hash).seeks;
        assert seeks == [readPos] + rest;
        forall i | 0 <= i < |seeks|
          ensures startPos <= seeks[i] < endPos
        {
          if i == 0 {
            assert seeks[i] == readPos;
          } else {
            assert seeks[i] == rest[i - 1];
            assert next.0 <= rest[i - 1] < next.1;
          }
        }
      }
    }
  }

  /** Every offset lies in [startPos, endPos) and starts a record. */
  predicate AlignedIn(seeks: seq<int>, startPos: int, endPos: int) {
    forall i :: 0 <= i < |seeks| ==> startPos <= seeks[i] < endPos && seeks[i] % RecordLength == 0
  }

  /** The search stays inside its range, and in a record-aligned range of a
      file of whole records it probes record-aligned offsets only. */
  lemma {:induction false} SeeksAligned(file: seq<byte>, startPos: int, endPos: int, hash: seq<byte>)
    requires |file| % RecordLength == 0 && 0 <= startPos && endPos <= |file|
    requires startPos % RecordLength == 0 && endPos % RecordLength == 0
    ensures AlignedIn(FindHash(file, startPos, endPos, hash).seeks, startPos, endPos)
    decreases endPos - startPos
  {
    if startPos < endPos {
      var readPos := ProbePosition(startPos, endPos);
      var result := ProbeCompare(file, readPos, hash);
      ProbeAligned(file, startPos, endPos);
      if result != 0 {
        var next := NextRange(file, startPos, endPos, readPos, result);
        assert next.0 % RecordLength == 0 by {
          if result > 0 {
            assert next.0 == readPos + RecordLength;
          }
        }
        SeeksAligned(file, next.0, next.1, hash);
        var rest := FindHash(file, next.0, next.1, hash).seeks;
        var seeks := FindHash(file, startPos, endPos, hash).seeks;
        assert seeks == [readPos] + rest;
        forall i | 0 <= i < |seeks|
          ensures startPos <= seeks[i] < endPos && seeks[i] % RecordLength == 0
        {
          if i == 0 {
            assert seeks[i] == readPos;
          } else {
            assert seeks[i] == rest[i - 1];
            assert next.0 <= rest[i - 1] < next.1 && rest[i - 1] % RecordLength == 0;
          }
        }
      }
    }
  }

  /** Number of binary digits of n: 0 for 0, otherwise floor(log2 n) + 1. */
  function Bits(n: nat): nat {
    if n == 0 then 0 else 1 + Bits(n / 2)
  }

  lemma {:induction false} BitsMonotonic(a: nat, b: nat)
    requires a <= b
    ensures Bits(a) <= Bits(b)
  {
    if a > 0 {
      BitsMonotonic(a / 2, b / 2);
    }
  }

  /** The number of records a range spans, counting a partial one. */
  function Slots(startPos: int, endPos: int): nat {
    if startPos >= endPos then 0 else (endPos - startPos + RecordLength - 1) / RecordLength
  }

  /** Whichever half the search goes on with spans at most half the records
      of the range. */
  lemma HalvesShrink(file: seq<byte>, startPos: int, endPos: int, result: int)
    requires 0 <= startPos < endPos <= |file|
    ensures var next := NextRange(file, startPos, endPos, ProbePosition(startPos, endPos), result);
            Slots(next.0, next.1) <= Slots(startPos, endPos) / 2
  {
    var q, r := (endPos - startPos) / RecordLength, (endPos - startPos) % RecordLength;
    var readPos := ProbePosition(startPos, endPos);
    assert readPos == startPos + RecordLength * (q / 2);
    var position := readPos + BytesRead(file, readPos);
    if result > 0 && position < endPos {
      assert position == readPos + RecordLength;
      assert endPos - position == RecordLength * (q - q / 2 - 1) + r;
    }
  }

  /** The search reads at most Bits(n) records of a range that spans n
      records: a logarithmic number of probes. */
  lemma {:induction false} ProbeBound(file: seq<byte>, startPos: int, endPos: int, hash: seq<byte>)
    requires 0 <= startPos && endPos <= |file|
    ensures |FindHash(file, startPos, endPos, hash).seeks| <= Bits(Slots(startPos, endPos))
    decreases endPos - startPos
  {
    if startPos < endPos {
      var readPos := ProbePosition(startPos, endPos);
      var result := ProbeCompare(file, readPos, hash);
      if result != 0 {
        var next := NextRange(file, startPos, endPos, readPos, result);
        HalvesShrink(file, startPos, endPos, result);
        ProbeBound(file, next.0, next.1, hash);
        BitsMonotonic(Slots(next.0, next.1), Slots(startPos, endPos) / 2);
      }
    }
  }

  /** On a sorted file of whole records, a search over a record-aligned range
      that holds a record with the digest finds it. */
  lemma {:induction false} FindHashComplete(file: seq<byte>, startPos: int, endPos: int, hash: seq<byte>, k: int)
    requires |file| % RecordLength == 0 && Sorted(file)
    requires 0 <= startPos && endPos <= |file|
    requires startPos % RecordLength == 0 && endPos % RecordLength == 0
    requires 0 <= k < |file| / RecordLength && startPos <= RecordLength * k < endPos
    requires RecordDigest(file, k) == hash
    ensures FindHash(file, startPos, endPos, hash).found
    decreases endPos - startPos
  {
    var readPos := ProbePosition(startPos, endPos);
    var result := ProbeCompare(file, readPos, hash);
    ProbeAligned(file, startPos, endPos);
    var m := readPos / RecordLength;
    assert readPos == RecordLength * m;
    var digest := RecordDigest(file, m);
    assert result == Compare(hash, digest);
    CompareAntisymmetric(digest, hash);
    if result != 0 {
      var next := NextRange(file, startPos, endPos, readPos, result);
      if result > 0 {
        assert next.0 == RecordLength * (m + 1);
      }
      FindHashComplete(file, next.0, next.1, hash, k);
    }
  }

  /** Lookup finds a digest exactly when it appears in the file, on a sorted
      file of whole records: found-iff-present. */
  lemma LookupCorrect(file: seq<byte>, hash: seq<byte>)
    requires |file| % RecordLength == 0 && Sorted(file)
    ensures Lookup(file, hash) <==> exists k :: 0 <= k < |file| / RecordLength && RecordDigest(file, k) == hash
  {
    if exists k :: 0 <= k < |file| / RecordLength && RecordDigest(file, k) == hash {
      var k :| 0 <= k < |file| / RecordLength && RecordDigest(file, k) == hash;
      FindHashComplete(file, 0, |file|, hash, k);
    }
  }

  /** On a file that ends in a partial record, the read at that record is
      padded with zeros, and a query equal to the padded buffer is found. */
  lemma PaddedRecordMatch()
    ensures Lookup([1, 2, 3, 4], [1, 2, 3, 4] + seq(16, _ => 0))
  {
    var file: seq<byte> := [1, 2, 3, 4];
    assert ProbePosition(0, |file|) == 0;
    assert ReadRecord(file, 0) == [1, 2, 3, 4] + seq(20, _ => 0);
    assert ReadRecord(file, 0)[..DigestLength] == [1, 2, 3, 4] + seq(16, _ => 0);
  }
}
