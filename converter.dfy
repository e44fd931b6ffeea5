/** The text-to-binary conversion: every 63-byte text line becomes its 20
    digest bytes, followed by the count as a little-endian int32 when the
    count field parses, in input order. The input is read in chunks of 63,000 bytes and a chunk
    whose length is not a whole number of lines aborts the conversion. */
module Converter {
  import opened Bytes
  import opened HexCodec
  import opened CountParser
  import opened RecordFormat

  const LineLength: nat := 63
  const DigestFieldLength: nat := 40
  const CountFieldStart: nat := 41
  const CountFieldLength: nat := 10
  const ChunkSize: nat := 63 * 1000

  /** What the conversion leaves behind: the whole output on success, or the
      bytes already handed to the writer when a chunk had a partial line or,
      in the checked conversion, when a count field did not parse. */
  datatype Conversion =
    | Converted(output: seq<byte>)
    | InvalidBytesRead(written: seq<byte>)
    | InvalidCount(written: seq<byte>, line: nat)

  /** Line i of a text made of whole lines. */
  function Line(text: seq<byte>, i: int): (line: seq<byte>)
    requires 0 <= i < |text| / LineLength
    ensures |line| == LineLength
  {
    text[LineLength * i .. LineLength * i + LineLength]
  }

  function CountField(line: seq<byte>): seq<byte>
    requires |line| == LineLength
  {
    line[CountFieldStart .. CountFieldStart + CountFieldLength]
  }

  /** The count as written after the digest: four bytes when the field
      parses, nothing at all when it does not. */
  function CountBytes(field: seq<byte>): (bytes: seq<byte>)
    ensures ParseCount(field).Some? ==> |bytes| == 4 && DecodeInt32LE(bytes) == ParseCount(field).value
    ensures ParseCount(field).None? ==> bytes == []
  {
    match ParseCount(field)
    case Some(n) => Int32RoundTrip(n); EncodeInt32LE(n)
    case None => []
  }

  /** The bytes written for one line (every line the converter hands over
      has LineLength bytes; a shorter one gives nothing). */
  function LineRecord(line: seq<byte>): (record: seq<byte>)
    ensures |line| == LineLength ==> (|record| == RecordLength <==> ParseCount(CountField(line)).Some?)
    ensures |line| == LineLength && ParseCount(CountField(line)).None? ==>
              record == DecodeDigest(line[..DigestFieldLength])
  {
    if |line| != LineLength then [] else DecodeDigest(line[..DigestFieldLength]) + CountBytes(CountField(line))
  }

  /** What f gives for each line of a text of whole lines, concatenated in
      line order. */
  function FlattenLines(text: seq<byte>, f: seq<byte> -> seq<byte>): seq<byte>
    requires |text| % LineLength == 0
  {
    if text == [] then []
    else FlattenLines(text[..|text| - LineLength], f) + f(text[|text| - LineLength..])
  }

  /** The bytes written for a text of whole lines, line after line. */
  function Records(text: seq<byte>): (records: seq<byte>)
    requires |text| % LineLength == 0
  {
    FlattenLines(text, LineRecord)
  }

  /** When every count parses, each line gives one whole record. */
  lemma LineRecordsLength(text: seq<byte>)
    requires |text| % LineLength == 0
    ensures CountsParse(text) ==> PiecesOfRecordLength(text, LineRecord)
    ensures CountsParse(text) ==> |Records(text)| == RecordLength * (|text| / LineLength)
  {
    if CountsParse(text) {
      forall k | 0 <= k < |text| / LineLength
        ensures |LineRecord(Line(text, k))| == RecordLength
      {
        LineRecordFields(Line(text, k));
      }
      assert PiecesOfRecordLength(text, LineRecord);
      FlattenLength(text, LineRecord);
    }
  }

  /** The conversion of a whole input, independent of how it is chunked:
      only the full chunks before the first chunk with a partial line are
      written when the input is not a whole number of lines. */
  function Convert(input: seq<byte>): (c: Conversion)
    ensures c.Converted? <==> |input| % LineLength == 0
  {
    if |input| % LineLength == 0 then Converted(Records(input))
    else
      LastChunkStart(|input|);
      InvalidBytesRead(Records(input[..|input| - |input| % ChunkSize]))
  }

  /** A failed conversion holds the records of the input up to a chunk
      boundary that is also a line boundary and lies less than one chunk
      before the end. */
  lemma {:induction false} ConvertStopsAtChunkBoundary(input: seq<byte>)
    ensures Convert(input).InvalidBytesRead? ==>
              exists m :: m % ChunkSize == 0 && m % LineLength == 0 && 0 <= |input| - m < ChunkSize
                          && Convert(input).written == Records(input[..m])
  {
    if Convert(input).InvalidBytesRead? {
      var m := |input| - |input| % ChunkSize;
      LastChunkStart(|input|);
      assert Convert(input).written == Records(input[..m]);
    }
  }

  /** The last chunk boundary at or before length is on a line boundary. */
  lemma LastChunkStart(length: nat)
    ensures 0 <= length - length % ChunkSize <= length
    ensures (length - length % ChunkSize) % LineLength == 0
    ensures (length - length % ChunkSize) % ChunkSize == 0
  {
    var q := length / 63000;
    assert length - length % ChunkSize == 63000 * q;
    assert length - length % ChunkSize == 63 * (1000 * q);
  }

  predicate CountsParse(text: seq<byte>)
    requires |text| % LineLength == 0
  {
    forall i :: 0 <= i < |text| / LineLength ==> ParseCount(CountField(Line(text, i))).Some?
  }

  /** Stream.Read into the chunk buffer: as many bytes as fit, or as remain. */
  method Read(input: seq<byte>, position: nat, buffer: array<byte>) returns (bytesRead: nat)
    requires position <= |input|
    modifies buffer
    ensures bytesRead == if buffer.Length < |input| - position then buffer.Length else |input| - position
    ensures buffer[..bytesRead] == input[position .. position + bytesRead]
  {
    bytesRead := if buffer.Length < |input| - position then buffer.Length else |input| - position;
    forall k | 0 <= k < bytesRead {
      buffer[k] := input[position + k];
    }
  }

  /** The conversion loop: reads the input chunk by chunk into a buffer of
      ChunkSize bytes and stops with InvalidBytesRead at the first chunk that
      is not a whole number of lines. */
  method ConvertToBinary(input: seq<byte>) returns (result: Conversion)
    ensures result.InvalidBytesRead? <==> |input| % LineLength != 0
    ensures result == Convert(input)
  {
    var lookup := CreateHexLookup();
    var output: seq<byte> := [];
    var buffer := new byte[ChunkSize](_ => 0);
    var hash := new byte[DigestLength](_ => 0);
    var position := 0;
    while position < |input|
      invariant position <= |input| && position % LineLength == 0
      invariant position % ChunkSize == 0 || position == |input|
      invariant IsHexLookup(lookup) && lookup != buffer && lookup != hash
      invariant output == Records(input[..position])
    {
      var chunkStart := position;
      var bytesRead := Read(input, position, buffer);
      position := position + bytesRead;
      ChunkArithmetic(|input|, chunkStart, bytesRead);
      if bytesRead % LineLength != 0 {
        ConvertPartialLine(input, chunkStart, output);
        return InvalidBytesRead(output);
      }
      var chunk := buffer[..bytesRead];
      var written := ConvertChunk(lookup, chunk, hash, output);
      RecordsNextChunk(input, chunkStart, position, chunk, output, written);
      output := written;
    }
    ConvertWholeLines(input, output);
    result := Converted(output);
  }

  /** Reaching the end of an input of whole lines leaves the records of
      every line. Kept as a lemma: stated at the loop exit, the identity on
      the input makes the solver's work on the chunk loop diverge on some
      random seeds. */
  lemma ConvertWholeLines(input: seq<byte>, output: seq<byte>)
    requires |input| % LineLength == 0 && output == Records(input[..|input|])
    ensures Convert(input) == Converted(output)
  {
    assert input[..|input|] == input;
  }

  /** Stopping at the chunk with a partial line leaves the records of the
      chunks before it. */
  lemma ConvertPartialLine(input: seq<byte>, chunkStart: nat, output: seq<byte>)
    requires |input| % LineLength != 0 && chunkStart == |input| - |input| % ChunkSize
    requires chunkStart % LineLength == 0 && output == Records(input[..chunkStart])
    ensures Convert(input) == InvalidBytesRead(output)
  {
  }

  /** Arithmetic of one chunk read at a chunk boundary: a whole number of
      lines leaves the position on a line boundary and either on the next
      chunk boundary or at the end; otherwise this is the last chunk, the
      input is not a whole number of lines, and the chunk starts at the last
      chunk boundary. */
  lemma ChunkArithmetic(length: nat, chunkStart: nat, bytesRead: nat)
    requires chunkStart % ChunkSize == 0 && chunkStart < length
    requires bytesRead == if ChunkSize < length - chunkStart then ChunkSize else length - chunkStart
    ensures bytesRead % LineLength == 0 ==>
      (chunkStart + bytesRead) % LineLength == 0 &&
      ((chunkStart + bytesRead) % ChunkSize == 0 || chunkStart + bytesRead == length)
    ensures bytesRead % LineLength != 0 ==>
      length % LineLength != 0 && chunkStart == length - length % ChunkSize
  {
    var q := chunkStart / 63000;
    assert chunkStart == 63000 * q;
    if bytesRead == ChunkSize {
      assert chunkStart + bytesRead == 63 * (1000 * q + 1000);
      assert chunkStart + bytesRead == 63000 * (q + 1);
    } else {
      assert length == 63 * (1000 * q) + bytesRead && bytesRead < 63000;
      assert length / 63000 == q;
    }
  }

  /** The records of the input read so far grow by the records of the chunk
      just read. */
  lemma RecordsNextChunk(input: seq<byte>, chunkStart: nat, position: nat, chunk: seq<byte>,
                          output: seq<byte>, written: seq<byte>)
    requires chunkStart <= position <= |input|
    requires chunkStart % LineLength == 0 && position % LineLength == 0
    requires chunk == input[chunkStart..position] && |chunk| % LineLength == 0
    requires output == Records(input[..chunkStart])
    requires written == output + Records(chunk)
    ensures written == Records(input[..position])
  {
    assert input[..position] == input[..chunkStart] + input[chunkStart..position];
    RecordsConcat(input[..chunkStart], input[chunkStart..position]);
  }

  /** The loop over the lines of one chunk, read through a read-only view
      of the buffer: each line's digest, then its count when the count field
      parses, is appended to what was written. */
  method ConvertChunk(lookup: array<byte>, chunk: seq<byte>, hash: array<byte>, output: seq<byte>)
    returns (written: seq<byte>)
    requires IsHexLookup(lookup) && hash.Length == DigestLength && hash != lookup
    requires |chunk| % LineLength == 0
    modifies hash
    ensures written == output + Records(chunk)
  {
    written := output;
    var i := 0;
    while i < |chunk|
      invariant i <= |chunk| && i % LineLength == 0
      invariant written == output + Records(chunk[..i])
    {
      var line := ConvertLine(lookup, chunk, i, hash);
      AppendLine(chunk, i, written, output, line);
      written := written + line;
      NextLineBoundary(i);
      i := i + LineLength;
    }
    assert chunk[..i] == chunk;
  }

  /** The body of the line loop: the digest decoded into hash, then the
      count when its field parses; returns the bytes handed to the writer. */
  method ConvertLine(lookup: array<byte>, chunk: seq<byte>, i: nat, hash: array<byte>)
    returns (line: seq<byte>)
    requires IsHexLookup(lookup) && hash.Length == DigestLength && hash != lookup
    requires i + LineLength <= |chunk|
    modifies hash
    ensures line == LineRecord(chunk[i .. i + LineLength])
  {
    DecodeHash(lookup, chunk, i, hash);
    line := hash[..];
    var parsed := ParseCount(chunk[i + CountFieldStart .. i + CountFieldStart + CountFieldLength]);
    if parsed.Some? {
      line := line + EncodeInt32LE(parsed.value);
    }
    LineRecordAt(chunk, i);
  }

  /** The line at offset i of a text gives its decoded digest followed by
      its count bytes. */
  lemma LineRecordAt(text: seq<byte>, i: nat)
    requires i + LineLength <= |text|
    ensures LineRecord(text[i .. i + LineLength])
            == DecodeDigest(text[i .. i + DigestFieldLength])
               + CountBytes(text[i + CountFieldStart .. i + CountFieldStart + CountFieldLength])
  {
    SliceOfSlice(text, i, i + LineLength, 0, DigestFieldLength);
    SliceOfSlice(text, i, i + LineLength, CountFieldStart, CountFieldStart + CountFieldLength);
  }

  /** Appending the bytes of the line at offset i extends the records of
      the lines before it to the records of the lines up to it. */
  lemma AppendLine(text: seq<byte>, i: nat, written: seq<byte>, output: seq<byte>, line: seq<byte>)
    requires i % LineLength == 0 && i + LineLength <= |text|
    requires written == output + Records(text[..i])
    requires line == LineRecord(text[i .. i + LineLength])
    ensures written + line == output + Records(text[..i + LineLength])
  {
    RecordsAppendLine(text, i);
    ConcatAssociative3(output, Records(text[..i]), line);
  }

  /** Kept as a lemma: stated inline, this fact makes the solver's work on
      the line loop much larger. */
  lemma NextLineBoundary(i: nat)
    requires i % LineLength == 0
    ensures (i + LineLength) % LineLength == 0
  {
  }

  lemma ConcatAssociative3(a: seq<byte>, b: seq<byte>, c: seq<byte>)
    ensures a + b + c == a + (b + c)
  {
  }

  lemma SliceOfSlice(s: seq<byte>, lo: nat, hi: nat, from: nat, to: nat)
    requires lo <= hi <= |s| && from <= to <= hi - lo
    ensures s[lo..hi][from..to] == s[lo + from .. lo + to]
  {
    assert forall k :: 0 <= k < to - from ==> s[lo..hi][from..to][k] == s[lo + from + k];
  }

  /** The loop over the 20 digest bytes of the line at offset: each byte is
      (table[high] << 4) + table[low]; the byte cast never truncates, since
      every table entry is below 16. */
  method DecodeHash(lookup: array<byte>, chunk: seq<byte>, offset: nat, hash: array<byte>)
    requires IsHexLookup(lookup) && hash.Length == DigestLength && hash != lookup
    requires offset + DigestFieldLength <= |chunk|
    modifies hash
    ensures hash[..] == DecodeDigest(chunk[offset .. offset + DigestFieldLength])
  {
    ghost var field := chunk[offset .. offset + DigestFieldLength];
    for j := 0 to DigestLength
      invariant forall k :: 0 <= k < j ==> hash[k] == DigestByte(field, k)
    {
      hash[j] := lookup[chunk[offset + 2 * j]] * 16 + lookup[chunk[offset + 2 * j + 1]];
    }
  }


  /** Concatenating texts of whole lines concatenates their outputs. */
  lemma {:induction false} FlattenConcat(a: seq<byte>, b: seq<byte>, f: seq<byte> -> seq<byte>)
    requires |a| % LineLength == 0 && |b| % LineLength == 0
    ensures FlattenLines(a + b, f) == FlattenLines(a, f) + FlattenLines(b, f)
    decreases |b|
  {
    if b == [] {
      assert a + b == a;
    } else {
      var b', last := b[..|b| - LineLength], b[|b| - LineLength..];
      DropLastLine(|b|);
      assert (|a| + |b'|) % LineLength == 0;
      SplitLastLine(a, b);
      calc {
        FlattenLines(a + b, f);
        FlattenLines(a + b', f) + f(last);
        { FlattenConcat(a, b', f); }
        FlattenLines(a, f) + FlattenLines(b', f) + f(last);
        FlattenLines(a, f) + (FlattenLines(b', f) + f(last));
        FlattenLines(a, f) + FlattenLines(b, f);
      }
    }
  }

  /** The last line of a + b is the last line of b, and what comes before
      it is a followed by the rest of b. */
  lemma SplitLastLine(a: seq<byte>, b: seq<byte>)
    requires |b| >= LineLength
    ensures (a + b)[..|a + b| - LineLength] == a + b[..|b| - LineLength]
    ensures (a + b)[|a + b| - LineLength..] == b[|b| - LineLength..]
  {
  }

  lemma RecordsConcat(a: seq<byte>, b: seq<byte>)
    requires |a| % LineLength == 0 && |b| % LineLength == 0
    ensures Records(a + b) == Records(a) + Records(b)
  {
    FlattenConcat(a, b, LineRecord);
  }

  lemma FlattenAppendLine(text: seq<byte>, k: nat, f: seq<byte> -> seq<byte>)
    requires k % LineLength == 0 && k + LineLength <= |text|
    ensures FlattenLines(text[..k + LineLength], f) == FlattenLines(text[..k], f) + f(text[k .. k + LineLength])
  {
    var t := text[..k + LineLength];
    assert t[..|t| - LineLength] == text[..k];
    assert t[|t| - LineLength..] == text[k .. k + LineLength];
  }

  lemma RecordsAppendLine(text: seq<byte>, k: nat)
    requires k % LineLength == 0 && k + LineLength <= |text|
    ensures Records(text[..k + LineLength]) == Records(text[..k]) + LineRecord(text[k .. k + LineLength])
  {
    FlattenAppendLine(text, k, LineRecord);
  }

  /** Dropping the last line of a text of whole lines leaves one line fewer. */
  lemma DropLastLine(length: nat)
    requires length % LineLength == 0 && length >= LineLength
    ensures (length - LineLength) % LineLength == 0
    ensures (length - LineLength) / LineLength == length / LineLength - 1
  {
  }

  /** f gives 24 bytes for each line of text. */
  predicate PiecesOfRecordLength(text: seq<byte>, f: seq<byte> -> seq<byte>)
    requires |text| % LineLength == 0
  {
    forall k :: 0 <= k < |text| / LineLength ==> |f(Line(text, k))| == RecordLength
  }

  /** The lines of a text without its last line are its first lines. */
  lemma PrefixLine(text: seq<byte>, k: int)
    requires |text| % LineLength == 0 && |text| >= LineLength
    requires 0 <= k < |text| / LineLength - 1
    ensures (|text| - LineLength) % LineLength == 0 && k < (|text| - LineLength) / LineLength
    ensures Line(text[..|text| - LineLength], k) == Line(text, k)
  {
    DropLastLine(|text|);
  }

  lemma PrefixPieces(text: seq<byte>, f: seq<byte> -> seq<byte>)
    requires |text| % LineLength == 0 && |text| >= LineLength
    requires PiecesOfRecordLength(text, f)
    ensures (|text| - LineLength) % LineLength == 0
    ensures PiecesOfRecordLength(text[..|text| - LineLength], f)
  {
    DropLastLine(|text|);
    var prefix := text[..|text| - LineLength];
    forall k | 0 <= k < |prefix| / LineLength
      ensures |f(Line(prefix, k))| == RecordLength
    {
      PrefixLine(text, k);
    }
  }

  /** When f gives 24 bytes for each line, the concatenation holds 24 bytes
      per line. */
  lemma {:induction false} FlattenLength(text: seq<byte>, f: seq<byte> -> seq<byte>)
    requires |text| % LineLength == 0
    requires PiecesOfRecordLength(text, f)
    ensures |FlattenLines(text, f)| == RecordLength * (|text| / LineLength)
  {
    if text != [] {
      var n := |text| / LineLength;
      var prefix := text[..|text| - LineLength];
      DropLastLine(|text|);
      PrefixPieces(text, f);
      FlattenLength(prefix, f);
      assert text[|text| - LineLength..] == Line(text, n - 1);
    }
  }

  /** When f gives 24 bytes for each line, piece i of the concatenation is
      what f gives for line i. */
  lemma {:induction false} FlattenAt(text: seq<byte>, f: seq<byte> -> seq<byte>, i: int)
    requires |text| % LineLength == 0
    requires PiecesOfRecordLength(text, f)
    requires 0 <= i < |text| / LineLength
    ensures |FlattenLines(text, f)| == RecordLength * (|text| / LineLength)
    ensures FlattenLines(text, f)[RecordLength * i .. RecordLength * i + RecordLength] == f(Line(text, i))
  {
    FlattenLength(text, f);
    PrefixPieces(text, f);
    FlattenLength(text[..|text| - LineLength], f);
    if i < |text| / LineLength - 1 {
      FlattenAt(text[..|text| - LineLength], f, i);
      PrefixLine(text, i);
      FlattenAtPrefix(text, f, i);
    } else {
      FlattenAtLast(text, f);
    }
  }

  /** Piece i of the first lines is piece i of the whole text. */
  lemma FlattenAtPrefix(text: seq<byte>, f: seq<byte> -> seq<byte>, i: int)
    requires |text| % LineLength == 0 && (|text| - LineLength) % LineLength == 0
    requires 0 <= i < |text| / LineLength - 1
    requires |FlattenLines(text[..|text| - LineLength], f)| == RecordLength * (|text| / LineLength - 1)
    requires FlattenLines(text[..|text| - LineLength], f)[RecordLength * i .. RecordLength * i + RecordLength]
             == f(Line(text, i))
    ensures FlattenLines(text, f)[RecordLength * i .. RecordLength * i + RecordLength] == f(Line(text, i))
  {
    var head := FlattenLines(text[..|text| - LineLength], f);
    FlattenLast(text, f);
    SliceOfConcatLeft(head, f(text[|text| - LineLength..]), RecordLength * i, RecordLength * i + RecordLength);
  }

  /** The last piece of the text is what its last line gives. */
  lemma FlattenAtLast(text: seq<byte>, f: seq<byte> -> seq<byte>)
    requires |text| % LineLength == 0 && |text| >= LineLength && (|text| - LineLength) % LineLength == 0
    requires |FlattenLines(text[..|text| - LineLength], f)| == RecordLength * (|text| / LineLength - 1)
    requires |f(Line(text, |text| / LineLength - 1))| == RecordLength
    requires |FlattenLines(text, f)| == RecordLength * (|text| / LineLength)
    ensures var i := |text| / LineLength - 1;
            FlattenLines(text, f)[RecordLength * i .. RecordLength * i + RecordLength] == f(Line(text, i))
  {
    var head := FlattenLines(text[..|text| - LineLength], f);
    var last := text[|text| - LineLength..];
    FlattenLast(text, f);
    assert last == Line(text, |text| / LineLength - 1);
    SliceOfConcatRight(head, f(last));
  }

  /** A text of whole lines flattens to what its first lines give, then
      what its last line gives. */
  lemma FlattenLast(text: seq<byte>, f: seq<byte> -> seq<byte>)
    requires |text| % LineLength == 0 && |text| >= LineLength
    ensures (|text| - LineLength) % LineLength == 0
    ensures FlattenLines(text, f) == FlattenLines(text[..|text| - LineLength], f) + f(text[|text| - LineLength..])
  {
    DropLastLine(|text|);
  }

  lemma SliceOfConcatLeft(x: seq<byte>, y: seq<byte>, lo: nat, hi: nat)
    requires lo <= hi <= |x|
    ensures (x + y)[lo..hi] == x[lo..hi]
  {
  }

  lemma SliceOfConcatRight(x: seq<byte>, y: seq<byte>)
    ensures (x + y)[|x|..|x| + |y|] == y
  {
  }

  /** A line whose count parses gives a 24-byte record: its digest, then
      its count. */
  lemma LineRecordFields(line: seq<byte>)
    requires |line| == LineLength && ParseCount(CountField(line)).Some?
    ensures |LineRecord(line)| == RecordLength
    ensures LineRecord(line)[..DigestLength] == DecodeDigest(line[..DigestFieldLength])
    ensures DecodeInt32LE(LineRecord(line)[DigestLength..]) == ParseCount(CountField(line)).value
  {
    var digest := DecodeDigest(line[..DigestFieldLength]);
    var count := CountBytes(CountField(line));
    assert LineRecord(line) == digest + count;
    assert (digest + count)[DigestLength..] == count;
  }

  /** When every count parses, record i of the output is what line i gives. */
  lemma RecordsAt(text: seq<byte>, i: int)
    requires |text| % LineLength == 0 && CountsParse(text)
    requires 0 <= i < |text| / LineLength
    ensures |Records(text)| == RecordLength * (|text| / LineLength)
    ensures Records(text)[RecordLength * i .. RecordLength * i + RecordLength] == LineRecord(Line(text, i))
  {
    LineRecordsLength(text);
    FlattenAt(text, LineRecord, i);
  }

  /** The record layout: when every count parses, the output holds one
      24-byte record per line, in input order, record i carrying line i's
      decoded digest and then its count as a little-endian int32. */
  lemma RecordsLayout(text: seq<byte>, i: int)
    requires |text| % LineLength == 0 && CountsParse(text)
    requires 0 <= i < |text| / LineLength
    ensures |Records(text)| == RecordLength * (|text| / LineLength)
    ensures Records(text)[RecordLength * i .. RecordLength * i + DigestLength]
            == DecodeDigest(Line(text, i)[..DigestFieldLength])
    ensures DecodeInt32LE(Records(text)[RecordLength * i + DigestLength .. RecordLength * i + RecordLength])
            == ParseCount(CountField(Line(text, i))).value
  {
    var records := Records(text);
    RecordsAt(text, i);
    LineRecordFields(Line(text, i));
    var start := RecordLength * i;
    SliceOfSlice(records, start, start + RecordLength, 0, DigestLength);
    SliceOfSlice(records, start, start + RecordLength, DigestLength, RecordLength);
  }

  /** The record a search over fixed 24-byte records needs for every line:
      the digest, then the count as a little-endian int32, or zero when the
      count field does not parse. A shorter line gives nothing. */
  function FixedLineRecord(line: seq<byte>): (record: seq<byte>)
    ensures |line| == LineLength ==> |record| == RecordLength
    ensures |line| == LineLength ==> record[..DigestLength] == DecodeDigest(line[..DigestFieldLength])
    ensures |line| == LineLength && ParseCount(CountField(line)).Some? ==> record == LineRecord(line)
    ensures |line| == LineLength && ParseCount(CountField(line)).None? ==>
              DecodeInt32LE(record[DigestLength..]) == 0
  {
    if |line| != LineLength then []
    else
      var digest := DecodeDigest(line[..DigestFieldLength]);
      match ParseCount(CountField(line))
      case Some(n) => digest + CountBytes(CountField(line))
      case None =>
        Int32RoundTrip(0);
        assert (digest + EncodeInt32LE(0))[DigestLength..] == EncodeInt32LE(0);
        digest + EncodeInt32LE(0)
  }

  /** The corrected output: one fixed record per line, in input order. */
  function FixedRecords(text: seq<byte>): seq<byte>
    requires |text| % LineLength == 0
  {
    FlattenLines(text, FixedLineRecord)
  }

  /** The corrected output holds one 24-byte record per line, record i
      starting with line i's decoded digest, whether or not its count
      parses. */
  lemma FixedRecordsLayout(text: seq<byte>, i: int)
    requires |text| % LineLength == 0
    requires 0 <= i < |text| / LineLength
    ensures |FixedRecords(text)| == RecordLength * (|text| / LineLength)
    ensures FixedRecords(text)[RecordLength * i .. RecordLength * i + DigestLength]
            == DecodeDigest(Line(text, i)[..DigestFieldLength])
  {
    assert PiecesOfRecordLength(text, FixedLineRecord);
    FlattenAt(text, FixedLineRecord, i);
    var start := RecordLength * i;
    SliceOfSlice(FixedRecords(text), start, start + RecordLength, 0, DigestLength);
  }

  /** Where every count parses, the corrected output is exactly what the
      converter writes. */
  lemma {:induction false} FixedRecordsAgree(text: seq<byte>)
    requires |text| % LineLength == 0 && CountsParse(text)
    ensures FixedRecords(text) == Records(text)
  {
    if text != [] {
      var prefix := text[..|text| - LineLength];
      DropLastLine(|text|);
      forall k | 0 <= k < |prefix| / LineLength
        ensures ParseCount(CountField(Line(prefix, k))).Some?
      {
        PrefixLine(text, k);
      }
      FixedRecordsAgree(prefix);
      assert text[|text| - LineLength..] == Line(text, |text| / LineLength - 1);
    }
  }

  /** The first line, from line `from` on, whose count field does not parse,
      or the number of lines when every one parses. */
  function FirstBadCount(text: seq<byte>, from: nat): (k: nat)
    requires |text| % LineLength == 0 && from <= |text| / LineLength
    ensures from <= k <= |text| / LineLength
    ensures k < |text| / LineLength ==> ParseCount(CountField(Line(text, k))).None?
    ensures forall j :: from <= j < k ==> ParseCount(CountField(Line(text, j))).Some?
    decreases |text| / LineLength - from
  {
    if from == |text| / LineLength then from
    else if ParseCount(CountField(Line(text, from))).None? then from
    else FirstBadCount(text, from + 1)
  }

  /** The corrected conversion: like Convert, but a text of whole lines with
      a count field that does not parse stops with an error at the first such
      line, having written the records of the lines before it. */
  function CheckedConvert(input: seq<byte>): (c: Conversion)
    ensures c.Converted? <==> |input| % LineLength == 0 && CountsParse(input)
    ensures c.Converted? ==> c.output == Records(input)
    ensures c.InvalidBytesRead? <==> |input| % LineLength != 0
    ensures c.InvalidBytesRead? ==> c == Convert(input)
    ensures c.InvalidCount? ==>
              |input| % LineLength == 0 && c.line < |input| / LineLength
              && ParseCount(CountField(Line(input, c.line))).None?
              && (forall j :: 0 <= j < c.line ==> ParseCount(CountField(Line(input, j))).Some?)
              && c.written == Records(input[..LineLength * c.line])
  {
    if |input| % LineLength != 0 then Convert(input)
    else
      var k := FirstBadCount(input, 0);
      if k == |input| / LineLength then Converted(Records(input))
      else
        assert (LineLength * k) % LineLength == 0;
        InvalidCount(Records(input[..LineLength * k]), k)
  }
}
