# PwnedPasswordsUtil core in Dafny

PwnedPasswordsUtil turns the sorted Pwned Passwords text corpus into a
compact binary file. It then answers "is this SHA-1 digest in the list" with
a bisecting search over that file. This project models the two pieces of
logic in `src/PwnedPasswordsUtil/Program.cs` that share the binary record
format, and proves what they promise.

- **Converter** (`ConvertToBinary`, `CreateHexLookup`). The input is a text
  of 63-byte lines. Each line holds a 40-character hex digest, one separator
  byte, and a 10-byte count field at offset 41. The input is read in chunks
  of 63,000 bytes. A chunk whose length is not a whole number of lines stops
  the conversion with an error. Every line becomes its 20 decoded digest
  bytes, then the count as a little-endian int32 when the count field
  parses. When the count field does not parse, nothing follows the digest.
- **Searcher** (`FindHash`, `Lookup`). The binary file is a flat sequence of
  24-byte records. The search bisects byte offsets `[startPos, endPos)`. Each
  step probes the lower-middle record. It compares the query digest with the
  record's first 20 bytes, unsigned and lexicographically. It then stops or
  goes on with one half.

The model has seven modules, one per file:

- `Bytes` (`bytes.dfy`): bytes, the ASCII digits, the int32 layout
  `BinaryWriter` writes, and the comparison `SequenceCompareTo` performs.
- `RecordFormat` (`record_format.dfy`): the 24-byte record layout that the
  converter and the searcher share.
- `HexCodec` (`hex_codec.dfy`): the lookup table, filled by an imperative
  loop over an `array`, and the nibble packing of digests.
- `CountParser` (`count_parser.dfy`): how `Utf8Parser.TryParse` reads the
  count field.
- `Converter` (`converter.dfy`): the chunk loop.
  - `ConvertToBinary` is a `method` with a `while` loop. It fills a
    63,000-byte buffer `array` and decodes into a 20-byte `hash` array.
  - It is proved equal to the chunking-independent function `Convert`.
  - `Records` lays out the output of a text of whole lines, line after line.
- `DigestSearch` (`digest_search.dfy`): `FindHash` as a recursive function
  over the file's bytes. It returns whether the digest was found and the
  list of offsets it probed.
- `Pipeline` (`pipeline.dfy`): converter and searcher together.
  - When every count field parses, a text sorted by digest converts to a
    sorted binary file.
  - When every count field parses, a lookup in the converted file finds
    exactly the digests of the text.
  - When a count field does not parse, the records after that line are
    misaligned and a lookup can miss a digest of the text (see "Findings").

## Model

| member | source | states |
|---|---|---|
| HexCodec.CreateHexLookup | src/PwnedPasswordsUtil/Program.cs:142-162 | The table has 256 entries. '0'-'9' map to 0-9, and 'A'-'F' and 'a'-'f' map to 10-15. Every other entry stays 0, so every entry is below 16. The table is `HexValue` at every byte. |
| HexCodec.HexValue | src/PwnedPasswordsUtil/Program.cs:147-158 | The value of a table entry is below 16, so two of them pack into one byte without truncation. |
| HexCodec.HexValueCaseInsensitive | src/PwnedPasswordsUtil/Program.cs:151-158 | A lower-case hex letter decodes to the same value as its upper-case form. |
| HexCodec.UpperHexChar | src/PwnedPasswordsUtil/Program.cs:122 | The "X2" digit of a nibble is an upper-case hex character. |
| HexCodec.NibbleRoundTrip | src/PwnedPasswordsUtil/Program.cs:119-122 | A printed nibble decodes back to that nibble. An upper-case hex character is what its decoded value prints as. |
| HexCodec.DecodeDigest | src/PwnedPasswordsUtil/Program.cs:117-120 | Decoding a field of 2n characters gives n bytes. Byte j is 16 times the value of character 2j plus the value of character 2j+1. |
| HexCodec.EncodeUpperHex | src/PwnedPasswordsUtil/Program.cs:122 | "X2" formatting of n bytes gives 2n characters. |
| HexCodec.EncodeUpperHexAt | src/PwnedPasswordsUtil/Program.cs:122 | Characters 2j and 2j+1 of the printed digest are the high and low nibble digits of byte j. |
| HexCodec.DecodeEncodeRoundTrip | src/PwnedPasswordsUtil/Program.cs:117-122 | Printing any digest in "X2" form and decoding the text gives the digest back. |
| HexCodec.EncodeDecodeRoundTrip | src/PwnedPasswordsUtil/Program.cs:122 | The property the `Debug.Assert` checks. For an upper-case hex field, printing the decoded digest gives the field back. |
| HexCodec.ToUpper | src/PwnedPasswordsUtil/Program.cs:151-158 | Upper-casing a hex character gives an upper-case hex character. |
| HexCodec.EncodeDecodeUpToCase | src/PwnedPasswordsUtil/Program.cs:117-122 | For a hex field of either case, printing the decoded digest gives the field back, upper-cased. |
| Bytes.EncodeInt32LE | src/PwnedPasswordsUtil/Program.cs:128 | `writer.Write(int)` emits 4 bytes. The top bit of the last byte is the sign. |
| Bytes.DecodeInt32LE | src/PwnedPasswordsUtil/Program.cs:128 | Reading 4 little-endian bytes back always gives an int32. |
| Bytes.Int32RoundTrip | src/PwnedPasswordsUtil/Program.cs:128 | Reading back the 4 bytes written for an int32 gives that int32. |
| Bytes.Compare | src/PwnedPasswordsUtil/Program.cs:78 | The sign of `SequenceCompareTo` is -1, 0 or 1. |
| Bytes.CompareZero | src/PwnedPasswordsUtil/Program.cs:78-79 | The comparison reports 0 exactly when the two sequences are equal. |
| Bytes.CompareAntisymmetric | src/PwnedPasswordsUtil/Program.cs:78-88 | Swapping the operands negates the comparison. |
| Bytes.CompareTransitive | src/PwnedPasswordsUtil/Program.cs:78-88 | The comparison is a transitive order. It is strict when either step is strict. |
| CountParser.ParseCount | src/PwnedPasswordsUtil/Program.cs:126 | A parse that succeeds gives an int32. Text with no digit after the optional sign, or a value outside int32, fails. |
| CountParser.DecimalString | src/PwnedPasswordsUtil/Program.cs:126 | The decimal form of a count is a non-empty run of digits. |
| CountParser.AccumulateDecimalString | src/PwnedPasswordsUtil/Program.cs:126 | Accumulating the digits of a count's decimal form gives the count. |
| CountParser.ParseCountRoundTrip | src/PwnedPasswordsUtil/Program.cs:126 | A signed or unsigned decimal count in int32, followed by padding that is not a digit, parses back to the count. |
| Converter.Line | src/PwnedPasswordsUtil/Program.cs:114-116 | Line i of the text is 63 bytes long. |
| Converter.CountBytes | src/PwnedPasswordsUtil/Program.cs:126-129 | A count field that parses gives 4 bytes that read back as its value. One that does not parse gives no bytes. |
| Converter.LineRecord | src/PwnedPasswordsUtil/Program.cs:116-129 | A 63-byte line gives a 24-byte record exactly when its count field parses. Otherwise it gives only its 20 decoded digest bytes. |
| Converter.Records | src/PwnedPasswordsUtil/Program.cs:114-129 | The bytes written for a text of whole lines: what each line gives, in line order. It is the reference the chunk loop, the line loop and the layout lemmas are stated against. |
| Converter.LineRecordsLength | src/PwnedPasswordsUtil/Program.cs:114-129 | When every count parses, every line gives one whole 24-byte record, so the output is 24 bytes per line. |
| Converter.Convert | src/PwnedPasswordsUtil/Program.cs:105-136 | The conversion succeeds exactly when the input is a whole number of lines. |
| Converter.ConvertStopsAtChunkBoundary | src/PwnedPasswordsUtil/Program.cs:105-112 | A failed conversion holds the records of the input up to a point that is both a chunk boundary and a line boundary and lies less than one chunk before the end. |
| Converter.Read | src/PwnedPasswordsUtil/Program.cs:107 | A read fills the buffer, or reads what remains. The buffer's first bytes are the input at the stream position. |
| Converter.ConvertToBinary | src/PwnedPasswordsUtil/Program.cs:97-140 | The chunked loop computes `Convert(input)`: the records of every line when the input is a whole number of lines. Otherwise it fails with the records of the full chunks before the chunk with the partial line. It fails exactly when the length is not a multiple of 63. |
| Converter.ConvertPartialLine | src/PwnedPasswordsUtil/Program.cs:109-112 | Stopping at the chunk with a partial line leaves the records of all earlier chunks. |
| Converter.ConvertWholeLines | src/PwnedPasswordsUtil/Program.cs:105-136 | Reaching the end of an input of whole lines leaves the records of every line, and the conversion succeeds. |
| Converter.ChunkArithmetic | src/PwnedPasswordsUtil/Program.cs:105-112 | A chunk of whole lines ends on a line boundary, at the next chunk boundary or at the end of the input. A chunk that is not a whole number of lines is the last one, and the input is then not a whole number of lines. |
| Converter.RecordsNextChunk | src/PwnedPasswordsUtil/Program.cs:105-116 | The records of the input read so far grow by the records of the chunk just read. |
| Converter.ConvertChunk | src/PwnedPasswordsUtil/Program.cs:114-136 | The line loop appends the records of the chunk's lines, at offsets 0, 63, 126 and so on, in order. |
| Converter.ConvertLine | src/PwnedPasswordsUtil/Program.cs:116-129 | One line writes its decoded digest, then its 4 count bytes when the count field parses. |
| Converter.DecodeHash | src/PwnedPasswordsUtil/Program.cs:117-120 | After the nibble loop, `hash` holds the decoded 40-character digest field. |
| Converter.RecordsConcat | src/PwnedPasswordsUtil/Program.cs:105-116 | Converting two texts of whole lines one after the other writes the records of each, in order. |
| Converter.RecordsAppendLine | src/PwnedPasswordsUtil/Program.cs:114-129 | One more line adds exactly its record at the end. |
| Converter.LineRecordFields | src/PwnedPasswordsUtil/Program.cs:124-129 | When the count parses, a line's record is 24 bytes. Its first 20 bytes are the decoded digest, and its last 4 read back as the count. |
| Converter.RecordsAt | src/PwnedPasswordsUtil/Program.cs:114-129 | When every count parses, the output is 24 bytes per line, and record i is what line i gives. |
| Converter.RecordsLayout | src/PwnedPasswordsUtil/Program.cs:124-129 | When every count parses, record i of the output is line i's digest followed by its count, which reads back as the parsed value. |
| Converter.FirstBadCount | src/PwnedPasswordsUtil/Program.cs:124-128 | The first line, from a given one on, whose count field does not parse. Every line before it parses. It is the number of lines when all of them parse. |
| Converter.CheckedConvert | src/PwnedPasswordsUtil/Program.cs:105-136 | Corrected conversion: it succeeds exactly when the input is whole lines and every count parses, with the records of every line. A partial line fails as `Convert` does. Otherwise it stops at the first line whose count does not parse, having written the records of the lines before it. |
| Converter.FixedLineRecord | src/PwnedPasswordsUtil/Program.cs:124-129 | Corrected record: every 63-byte line gives 24 bytes starting with its decoded digest. It is the written record when the count parses, and its count reads back as 0 when it does not. |
| Converter.FixedRecordsLayout | src/PwnedPasswordsUtil/Program.cs:114-129 | Corrected output: 24 bytes per line, record i starting with line i's digest, whether or not the counts parse. |
| Converter.FixedRecordsAgree | src/PwnedPasswordsUtil/Program.cs:114-129 | When every count parses, the corrected output equals what the converter writes. |
| DigestSearch.BytesRead | src/PwnedPasswordsUtil/Program.cs:76-77 | A 24-byte read reads all 24 bytes when they exist, and otherwise what is left before the end of the file. |
| DigestSearch.ReadRecord | src/PwnedPasswordsUtil/Program.cs:72-77 | The buffer after a read holds the bytes read, followed by zeros. |
| DigestSearch.ProbeCompare | src/PwnedPasswordsUtil/Program.cs:78 | The comparison is 0 exactly when the query equals the first 20 bytes read. |
| DigestSearch.ProbePosition | src/PwnedPasswordsUtil/Program.cs:70-75 | The probe lies in `[startPos, endPos)`, a whole number of records past `startPos`, in the lower half of the range. |
| DigestSearch.NextRange | src/PwnedPasswordsUtil/Program.cs:83-88 | After a probe that does not match, the next range lies inside the current one and is strictly shorter, so the search terminates. |
| DigestSearch.FindHash | src/PwnedPasswordsUtil/Program.cs:63-89 | An empty range gives false without any read. A digest the search finds equals the first 20 bytes read at its last probe, which lies in the range. |
| DigestSearch.Lookup | src/PwnedPasswordsUtil/Program.cs:54-61 | A digest that is found equals the first 20 bytes of the zero-padded buffer read at some offset in the file. On a file of whole records, sorted or not, it is the digest of one of the records. |
| DigestSearch.PaddedRecordMatch | src/PwnedPasswordsUtil/Program.cs:72-79 | On a file that ends in a partial record, the read there is padded with zeros. A query equal to the padded buffer is found although those bytes are not in the file. |
| DigestSearch.RecordDigest | src/PwnedPasswordsUtil/Program.cs:78 | The digest of record k is the first 20 bytes read at offset 24k. |
| DigestSearch.ProbeAligned | src/PwnedPasswordsUtil/Program.cs:70-77 | In a record-aligned range of a whole-record file, the probe is a record boundary, the whole record lies in the range, and the read is complete. |
| DigestSearch.SeeksInRange | src/PwnedPasswordsUtil/Program.cs:70-88 | Every offset a search probes lies in its range `[startPos, endPos)`, on any file. |
| DigestSearch.SeeksAligned | src/PwnedPasswordsUtil/Program.cs:70-88 | In a record-aligned range of a whole-record file, every probe lies in the range on a record boundary. |
| DigestSearch.HalvesShrink | src/PwnedPasswordsUtil/Program.cs:74-88 | Either half the search goes on with spans at most half the records of the range. |
| DigestSearch.ProbeBound | src/PwnedPasswordsUtil/Program.cs:63-89 | A search of a range spanning n records probes at most floor(log2 n) + 1 times. |
| DigestSearch.FindHashComplete | src/PwnedPasswordsUtil/Program.cs:63-89 | On a sorted whole-record file, a search over an aligned range that contains a record with the digest finds it. |
| DigestSearch.LookupCorrect | src/PwnedPasswordsUtil/Program.cs:59-89 | On a sorted file of whole records, the lookup is true exactly when some record's first 20 bytes equal the query. |
| Pipeline.LineDigest | src/PwnedPasswordsUtil/Program.cs:116-120 | The decoded digest of a line is 20 bytes. |
| Pipeline.RecordDigests | src/PwnedPasswordsUtil/Program.cs:114-129 | When every count parses, the converted file has one record per line. The digest the searcher reads from record i is line i's digest. |
| Pipeline.SortedTransfer | src/PwnedPasswordsUtil/Program.cs:114-129 | A file with one record per line of a text sorted by decoded digest, record i carrying line i's digest, is sorted by record digest. |
| Pipeline.LookupFindsLines | src/PwnedPasswordsUtil/Program.cs:54-89 | In such a file, a lookup is true exactly when some line of the text carries the digest. |
| Pipeline.ConvertThenLookup | src/PwnedPasswordsUtil/Program.cs:97-140 | A sorted text whose counts all parse converts without error. Looking up a digest in the result is true exactly when some line carries it. |
| Pipeline.CheckedConvertThenLookup | src/PwnedPasswordsUtil/Program.cs:97-140 | Corrected conversion: a sorted text of whole lines either stops at a count that does not parse, or converts to a file in which a lookup is true exactly when some line carries the digest. |
| Pipeline.FixedConvertThenLookup | src/PwnedPasswordsUtil/Program.cs:97-140 | Corrected output: for any sorted text of whole lines, parsing counts or not, a lookup is true exactly when some line carries the digest. |
| Pipeline.BlankCountLineRecords | src/PwnedPasswordsUtil/Program.cs:124-129 | A line with a blank count field gives only its 20 digest bytes; the line with count "5" gives 24 bytes. |
| Pipeline.BlankCountRecords | src/PwnedPasswordsUtil/Program.cs:114-129 | The two-line text with a blank first count converts to 44 bytes, the second record starting at offset 20. |
| Pipeline.BlankCountDigests | src/PwnedPasswordsUtil/Program.cs:116-126 | The two lines carry the digests AA..AA and BB..BB, and the first count does not parse. |
| Pipeline.BlankCountSorted | src/PwnedPasswordsUtil/Program.cs:116-120 | The two lines are sorted by digest. |
| Pipeline.MisalignedLookupMisses | src/PwnedPasswordsUtil/Program.cs:59-89 | In the 44-byte misaligned file, the lookup of BB..BB is false: the probe at 0 reads AA..AA and the probe at 24 reads sixteen BB bytes and the count. |
| Pipeline.BlankCountMisaligns | src/PwnedPasswordsUtil/Program.cs:97-140 | As written: a sorted two-line text, the first line with a blank count, converts without error, yet the lookup of the second line's digest is false. |
| Pipeline.BlankCountChecked | src/PwnedPasswordsUtil/Program.cs:124-128 | The checked conversion stops the two-line text at line 0 with nothing written. |
| Pipeline.BlankCountFixed | src/PwnedPasswordsUtil/Program.cs:97-140 | With the corrected records, the lookup of the second line's digest in the same text is true. |
| Pipeline.SampleConversion | src/PwnedPasswordsUtil/Program.cs:114-129 | A line of forty 'A's with count 5 converts to AA..AA 05 00 00 00. The search finds AA..AA and does not find AB..AB. |

## Left out

- `Main`, `PrintHelp` and the missing-file message are command-line plumbing.
  Line 28 opens the file even after reporting that it is missing.
- `PrintProgress`, the `count` line counter and the progress percentage only
  write to the console, using floating point.
- The query digest is an input. The SHA-1 hash of the UTF-8 password in
  `Lookup` is a foreign cryptographic call.
- Files, streams, `BinaryReader` and `BinaryWriter` are byte sequences. The
  input is a `seq`. The output is a sequence that grows as records are
  appended. The searched file is a `seq` indexed at the seek offset.
  Buffering and flushing of the writer, and the state of the output file
  after the exception, are not modelled. `InvalidBytesRead` carries the bytes
  handed to the writer before the error.
- Converter.Read: assumes each `Stream.Read` fills the buffer unless the end
  of the input comes first. A general stream may return fewer bytes.
- Converter.ConvertToBinary: the exception at line 111 becomes the
  `InvalidBytesRead` result.
- DigestSearch.ReadRecord: assumes the 24-byte probe read gets every byte up
  to the end of the file in one call.
- DigestSearch.ProbePosition: `(int)(count / 2.0)` is modelled as the
  integer `count / 2`. The two agree for record counts below 2^31, and the
  double division is not modelled.
- Bytes.Compare: gives only the sign of `SequenceCompareTo`. The source only
  tests the sign.
- CountParser.ParseCount: a model of `Utf8Parser.TryParse` with the default
  format, which is a library call. It reads an optional sign, then the
  longest digit run. It fails when there is no digit or the value is outside
  int32, and otherwise ignores the rest of the field.
- DigestSearch.FindHash: requires `endPos` within the file, which holds for
  the call `Lookup` makes. On a file that ends in a partial record, a found
  digest may include zero padding that the file does not hold
  (`DigestSearch.PaddedRecordMatch`). Found-iff-present is proved for files that are a
  whole number of records and sorted by digest, which is the precondition
  the source relies on without checking.
- DigestSearch.SeeksAligned: probe alignment is stated for record-aligned
  ranges of whole-record files only. On other files the probes stay in range
  (`DigestSearch.SeeksInRange`) but need not be aligned.
- The model is of a Release build, where the `Debug.Assert` at line 122 is
  compiled out. The assertion is modelled as the lemma
  `HexCodec.EncodeDecodeRoundTrip` rather than as a run-time check.
  `HexCodec.EncodeDecodeUpToCase` shows the printed digest is the upper-cased
  field, so a field with a lower-case hex letter fails the assertion. In a
  Debug build that failure stops the process (a fail-fast on .NET Core, a
  blocking dialog on .NET Framework). That stop is not modelled: the model
  converts such a line like any other.
- Converter.LineRecord: defined for every byte sequence and gives nothing for
  a line that is not 63 bytes. The converter only hands it whole lines.
- The loop bodies of `ConvertToBinary` are split into three methods, each
  proved against its own specification function. `ConvertChunk` is proved
  against `Records`, `ConvertLine` against `LineRecord`, and `DecodeHash`
  against `DecodeDigest`.

## Findings

| source | as written | input that shows it | evidently intended | confidence | as-written member | corrected member |
|---|---|---|---|---|---|---|
| src/PwnedPasswordsUtil/Program.cs:124-128 | When the count field does not parse, only the 20 digest bytes are written, so every later record starts 4 bytes early while the search steps in 24-byte records. | Two lines sorted by digest: forty 'A's with a blank count field, then forty 'B's with count 5. They convert without error to 44 bytes, and the lookup of BB..BB is false. | A count field that does not parse stops the conversion with an error, as a partial line does, so that every file the conversion produces is one whole record per line and a lookup finds every digest of a sorted text. | high that the code behaves so; not executed | Pipeline.BlankCountMisaligns | Pipeline.CheckedConvertThenLookup |

`ConvertToBinary` and `Records` model the code as written.
`Converter.CheckedConvert` is the corrected conversion: it stops at the
first line whose count does not parse (`Pipeline.BlankCountChecked` for the
text above), and every file it does produce from a sorted text is searched
correctly. `FixedRecords` is an alternative repair that keeps the records
aligned by writing a count of 0 instead. `Converter.FixedRecordsAgree`
shows it equals the written output whenever every count parses, and
`Pipeline.BlankCountFixed` shows the lookup finds BB..BB in it for the text
above.
