/** The two halves together: the converter's output is the file the searcher
    reads. When every count of a text parses, record i of the binary file
    carries the digest of line i, so a text sorted by digest gives a sorted
    binary file, and a lookup in it finds exactly the digests of the text. */
module Pipeline {
  import opened Bytes
  import HexCodec
  import CountParser
  import Converter
  import RecordFormat
  import DigestSearch

  /** The decoded digest of line i of a text of whole lines. */
  function LineDigest(text: seq<byte>, i: int): (digest: seq<byte>)
    requires |text| % Converter.LineLength == 0
    requires 0 <= i < |text| / Converter.LineLength
    ensures |digest| == RecordFormat.DigestLength
  {
    HexCodec.DecodeDigest(Converter.Line(text, i)[..Converter.DigestFieldLength])
  }

  /** The lines are in ascending order of their decoded digests. */
  predicate TextSorted(text: seq<byte>)
    requires |text| % Converter.LineLength == 0
  {
    forall i, j :: 0 <= i <= j < |text| / Converter.LineLength ==>
      Compare(LineDigest(text, i), LineDigest(text, j)) <= 0
  }

  /** The converted file holds one record per line, and the digest the
      searcher reads from record i is the digest of line i. */
  lemma RecordDigests(text: seq<byte>)
    requires |text| % Converter.LineLength == 0 && Converter.CountsParse(text)
    ensures |Converter.Records(text)| % RecordFormat.RecordLength == 0
    ensures |Converter.Records(text)| / RecordFormat.RecordLength == |text| / Converter.LineLength
    ensures forall i :: 0 <= i < |text| / Converter.LineLength ==>
              DigestSearch.RecordDigest(Converter.Records(text), i) == LineDigest(text, i)
  {
    var lines := |text| / Converter.LineLength;
    if lines == 0 {
      assert text == [];
    } else {
      Converter.RecordsLayout(text, 0);
    }
    assert |Converter.Records(text)| == RecordFormat.RecordLength * lines;
    forall i | 0 <= i < lines
      ensures DigestSearch.RecordDigest(Converter.Records(text), i) == LineDigest(text, i)
    {
      Converter.RecordsLayout(text, i);
    }
  }

  /** The file holds one record per line of the text, record i carrying the
      decoded digest of line i. */
  predicate CarriesLineDigests(text: seq<byte>, file: seq<byte>)
    requires |text| % Converter.LineLength == 0
  {
    |file| == RecordFormat.RecordLength * (|text| / Converter.LineLength) &&
    forall i :: 0 <= i < |text| / Converter.LineLength ==>
      i < |file| / RecordFormat.RecordLength && DigestSearch.RecordDigest(file, i) == LineDigest(text, i)
  }

  /** A file that carries the digests of a text sorted by digest is sorted:
      the order the searcher relies on is the order of the input lines. */
  lemma SortedTransfer(text: seq<byte>, file: seq<byte>)
    requires |text| % Converter.LineLength == 0 && CarriesLineDigests(text, file)
    requires TextSorted(text)
    ensures DigestSearch.Sorted(file)
  {
    forall i, j | 0 <= i <= j < |file| / RecordFormat.RecordLength
      ensures Compare(DigestSearch.RecordDigest(file, i), DigestSearch.RecordDigest(file, j)) <= 0
    {
      assert DigestSearch.RecordDigest(file, i) == LineDigest(text, i);
      assert DigestSearch.RecordDigest(file, j) == LineDigest(text, j);
    }
  }

  /** A lookup in a file that carries the digests of a text sorted by digest
      reports a digest exactly when some line of the text carries it. */
  lemma LookupFindsLines(text: seq<byte>, file: seq<byte>, hash: seq<byte>)
    requires |text| % Converter.LineLength == 0 && CarriesLineDigests(text, file)
    requires TextSorted(text)
    ensures DigestSearch.Lookup(file, hash) <==>
            exists i :: 0 <= i < |text| / Converter.LineLength && LineDigest(text, i) == hash
  {
    SortedTransfer(text, file);
    DigestSearch.LookupCorrect(file, hash);
    if DigestSearch.Lookup(file, hash) {
      var k :| 0 <= k < |file| / RecordFormat.RecordLength && DigestSearch.RecordDigest(file, k) == hash;
      assert LineDigest(text, k) == hash;
    }
    if exists i :: 0 <= i < |text| / Converter.LineLength && LineDigest(text, i) == hash {
      var i :| 0 <= i < |text| / Converter.LineLength && LineDigest(text, i) == hash;
      assert DigestSearch.RecordDigest(file, i) == hash;
    }
  }

  /** End to end: a text of whole lines, sorted by digest and with every count
      parsing, converts without error, and a lookup in the result reports a
      digest exactly when some line of the text carries it. */
  lemma ConvertThenLookup(text: seq<byte>, hash: seq<byte>)
    requires |text| % Converter.LineLength == 0 && Converter.CountsParse(text)
    requires TextSorted(text)
    ensures Converter.Convert(text) == Converter.Converted(Converter.Records(text))
    ensures DigestSearch.Lookup(Converter.Records(text), hash) <==>
            exists i :: 0 <= i < |text| / Converter.LineLength && LineDigest(text, i) == hash
  {
    RecordDigests(text);
    LookupFindsLines(text, Converter.Records(text), hash);
  }

  /** With the checked conversion, a sorted text of whole lines either stops
      with an error at a count that does not parse, or converts to a file in
      which a lookup reports a digest exactly when some line carries it. */
  lemma CheckedConvertThenLookup(text: seq<byte>, hash: seq<byte>)
    requires |text| % Converter.LineLength == 0 && TextSorted(text)
    ensures Converter.CheckedConvert(text).Converted? || Converter.CheckedConvert(text).InvalidCount?
    ensures Converter.CheckedConvert(text).Converted? ==>
              (DigestSearch.Lookup(Converter.CheckedConvert(text).output, hash) <==>
               exists i :: 0 <= i < |text| / Converter.LineLength && LineDigest(text, i) == hash)
  {
    if Converter.CheckedConvert(text).Converted? {
      ConvertThenLookup(text, hash);
    }
  }

  /** With the corrected records, every count parsing is no longer needed: a
      lookup in the corrected output of any text of whole lines sorted by
      digest reports a digest exactly when some line carries it. */
  lemma FixedConvertThenLookup(text: seq<byte>, hash: seq<byte>)
    requires |text| % Converter.LineLength == 0
    requires TextSorted(text)
    ensures DigestSearch.Lookup(Converter.FixedRecords(text), hash) <==>
            exists i :: 0 <= i < |text| / Converter.LineLength && LineDigest(text, i) == hash
  {
    var file := Converter.FixedRecords(text);
    if text != [] {
      Converter.FixedRecordsLayout(text, 0);
    }
    forall i | 0 <= i < |text| / Converter.LineLength
      ensures i < |file| / RecordFormat.RecordLength && DigestSearch.RecordDigest(file, i) == LineDigest(text, i)
    {
      Converter.FixedRecordsLayout(text, i);
    }
    LookupFindsLines(text, file, hash);
  }

  /** Two lines sorted by digest, the first with a blank count field: forty
      'A's, forty 'B's with the count "5". */
  const BlankCountLine: seq<byte> := seq(40, _ => 65) + [58] + seq(20, _ => 32) + [13, 10]
  const CountedLine: seq<byte> := seq(40, _ => 66) + [58, 53] + seq(19, _ => 32) + [13, 10]

  /** As written, the blank count gives a 20-byte record and the count "5"
      a 24-byte one. */
  lemma BlankCountLineRecords()
    ensures Converter.CountField(BlankCountLine) == seq(10, _ => 32)
    ensures CountParser.ParseCount(seq(10, _ => 32)).None?
    ensures Converter.LineRecord(BlankCountLine) == seq(20, _ => 0xAA)
    ensures Converter.LineRecord(CountedLine) == seq(20, _ => 0xBB) + [5, 0, 0, 0]
  {
    assert BlankCountLine[..Converter.DigestFieldLength] == seq(40, _ => 65);
    assert CountedLine[..Converter.DigestFieldLength] == seq(40, _ => 66);
    assert Converter.CountField(BlankCountLine) == seq(10, _ => 32);
    var padding: seq<byte> := seq(9, _ => 32);
    assert CountParser.DecimalString(5) == [53];
    assert Converter.CountField(CountedLine) == [] + CountParser.DecimalString(5) + padding;
    CountParser.ParseCountRoundTrip(5, [], padding);
    assert EncodeInt32LE(5) == [5, 0, 0, 0];
  }

  const BlankCountText: seq<byte> := BlankCountLine + CountedLine

  /** The two lines convert to 44 bytes, the second record starting four
      bytes early. */
  lemma BlankCountRecords()
    ensures |BlankCountText| % Converter.LineLength == 0
    ensures Converter.Records(BlankCountText) == seq(20, _ => 0xAA) + seq(20, _ => 0xBB) + [5, 0, 0, 0]
  {
    var text := BlankCountText;
    assert |text| == 2 * Converter.LineLength;
    BlankCountLineRecords();
    Converter.RecordsAppendLine(text, 0);
    Converter.RecordsAppendLine(text, Converter.LineLength);
    assert text[..0] == [] && text[0 .. Converter.LineLength] == BlankCountLine;
    assert text[..2 * Converter.LineLength] == text;
    assert text[Converter.LineLength .. 2 * Converter.LineLength] == CountedLine;
    assert Converter.Records([]) == [];
  }

  /** The lines carry the digests AA..AA and BB..BB, and the first count does
      not parse. */
  lemma BlankCountDigests()
    ensures |BlankCountText| % Converter.LineLength == 0 && !Converter.CountsParse(BlankCountText)
    ensures LineDigest(BlankCountText, 0) == seq(20, _ => 0xAA)
    ensures LineDigest(BlankCountText, 1) == seq(20, _ => 0xBB)
  {
    var text := BlankCountText;
    assert |text| == 2 * Converter.LineLength;
    assert Converter.Line(text, 0) == BlankCountLine && Converter.Line(text, 1) == CountedLine;
    assert BlankCountLine[..Converter.DigestFieldLength] == seq(40, _ => 65);
    assert CountedLine[..Converter.DigestFieldLength] == seq(40, _ => 66);
    BlankCountLineRecords();
  }

  /** In the misaligned 44-byte file the search misses the second digest: the
      probe at 0 reads the first digest, and the probe at 24 reads sixteen
      bytes of the second digest followed by the count. */
  lemma MisalignedLookupMisses()
    ensures !DigestSearch.Lookup(seq(20, _ => 0xAA) + seq(20, _ => 0xBB) + [5, 0, 0, 0], seq(20, _ => 0xBB))
  {
    var a, b := seq(20, _ => 0xAA), seq(20, _ => 0xBB);
    var file := a + b + [5, 0, 0, 0];
    assert |file| == 44;
    assert DigestSearch.ProbePosition(0, 44) == 0 && DigestSearch.ProbePosition(24, 44) == 24;
    assert DigestSearch.ReadRecord(file, 0)[..RecordFormat.DigestLength] == a;
    assert DigestSearch.ReadRecord(file, 24)[16] == file[40] == 5;
    var first := DigestSearch.ProbeCompare(file, 0, b);
    var second := DigestSearch.ProbeCompare(file, 24, b);
    assert first != 0 && second != 0;
    var next := DigestSearch.NextRange(file, 24, 44, 24, second);
    assert next.1 <= next.0;
    assert !DigestSearch.FindHash(file, 24, 44, b).found;
    next := DigestSearch.NextRange(file, 0, 44, 0, first);
    assert next == (24, 44) || next.1 <= next.0;
    assert !DigestSearch.FindHash(file, 0, 44, b).found;
  }

  /** The two lines are in ascending order of their digests. */
  lemma BlankCountSorted()
    ensures |BlankCountText| % Converter.LineLength == 0 && TextSorted(BlankCountText)
  {
    var text := BlankCountText;
    BlankCountDigests();
    forall i, j | 0 <= i <= j < |text| / Converter.LineLength
      ensures Compare(LineDigest(text, i), LineDigest(text, j)) <= 0
    {
      if i == j {
        CompareZero(LineDigest(text, i), LineDigest(text, j));
      } else {
        assert i == 0 && j == 1;
        assert Compare(seq(20, _ => 0xAA), seq(20, _ => 0xBB)) == -1;
      }
    }
  }

  /** As written, a line whose count field does not parse shifts every later
      record by four bytes: these two lines are sorted by digest and convert
      without error, yet the lookup misses the digest of the second line. */
  lemma BlankCountMisaligns()
    ensures |BlankCountText| % Converter.LineLength == 0
    ensures TextSorted(BlankCountText) && !Converter.CountsParse(BlankCountText)
    ensures Converter.Convert(BlankCountText)
            == Converter.Converted(seq(20, _ => 0xAA) + seq(20, _ => 0xBB) + [5, 0, 0, 0])
    ensures LineDigest(BlankCountText, 1) == seq(20, _ => 0xBB)
    ensures !DigestSearch.Lookup(Converter.Records(BlankCountText), seq(20, _ => 0xBB))
  {
    BlankCountRecords();
    BlankCountDigests();
    BlankCountSorted();
    MisalignedLookupMisses();
  }

  /** With the corrected records the same two lines give a file in which the
      lookup finds the digest of the second line. */
  lemma BlankCountFixed()
    ensures |BlankCountText| % Converter.LineLength == 0
    ensures DigestSearch.Lookup(Converter.FixedRecords(BlankCountText), seq(20, _ => 0xBB))
  {
    BlankCountDigests();
    BlankCountSorted();
    FixedConvertThenLookup(BlankCountText, seq(20, _ => 0xBB));
    assert 1 < |BlankCountText| / Converter.LineLength;
  }

  /** The checked conversion stops the same two lines at the first line,
      before anything is written. */
  lemma BlankCountChecked()
    ensures Converter.CheckedConvert(BlankCountText) == Converter.InvalidCount([], 0)
  {
    BlankCountDigests();
    BlankCountLineRecords();
    var text := BlankCountText;
    assert Converter.Line(text, 0) == BlankCountLine;
    assert Converter.FirstBadCount(text, 0) == 0;
    assert text[..Converter.LineLength * 0] == [];
    assert Converter.Records([]) == [];
  }

  /** A one-line corpus: forty 'A's, the ':' separator, the count "5" padded
      with spaces, and a CRLF line ending. */
  const SampleLine: seq<byte> := seq(40, _ => 65) + [58, 53] + seq(19, _ => 32) + [13, 10]

  const SampleDigest: seq<byte> := seq(20, _ => 0xAA)

  /** The sample line converts to the record AA..AA 05 00 00 00; the search
      finds its digest and does not find AB..AB. */
  lemma SampleConversion()
    ensures Converter.Convert(SampleLine) == Converter.Converted(SampleDigest + [5, 0, 0, 0])
    ensures DigestSearch.Lookup(SampleDigest + [5, 0, 0, 0], SampleDigest)
    ensures !DigestSearch.Lookup(SampleDigest + [5, 0, 0, 0], seq(20, _ => 0xAB))
  {
    var text := SampleLine;
    assert |text| == Converter.LineLength;
    var line := Converter.Line(text, 0);
    assert line == text;
    assert LineDigest(text, 0) == SampleDigest;
    var padding: seq<byte> := seq(9, _ => 32);
    assert CountParser.DecimalString(5) == [53];
    assert Converter.CountField(line) == [] + CountParser.DecimalString(5) + padding;
    CountParser.ParseCountRoundTrip(5, [], padding);
    assert Converter.CountsParse(text);
    Converter.RecordsAppendLine(text, 0);
    assert text[..0] == [] && text[..Converter.LineLength] == text && text[0 .. Converter.LineLength] == text;
    assert Converter.Records([]) == [];
    assert Converter.Records(text) == Converter.LineRecord(text);
    assert EncodeInt32LE(5) == [5, 0, 0, 0];
    assert Converter.Records(text) == SampleDigest + [5, 0, 0, 0];
    CompareZero(SampleDigest, SampleDigest);
    assert TextSorted(text);
    ConvertThenLookup(text, SampleDigest);
    ConvertThenLookup(text, seq(20, _ => 0xAB));
    assert LineDigest(text, 0)[0] != seq(20, _ => 0xAB)[0];
  }
}
