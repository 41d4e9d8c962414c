/** The Intel Hexadecimal Object File Format record parser of firmware.c: one text line
    `:LLAAAATTDD...CC` holds a byte count, a 16-bit load address, a record type, the data bytes and
    a checksum, every byte written as two hex digits. The checksum is the two's complement of the
    low byte of the sum of all other record bytes, so all bytes of a good record sum to zero
    modulo 256. Record type 00 is data and 01 is end-of-file. */
module IntelHex {
  import opened Bytes
  import opened Nibble
  import opened Failures

  const START_CODE: byte := ':' as int as byte
  const DATA_RECORD: byte := 0x00
  const EOF_RECORD: byte := 0x01

  /** A decoded record: its type, its load address and its data bytes. */
  datatype Record = Record(kind: byte, address: nat, data: seq<byte>)

  /** A record that fits the format's fields: a 16-bit address and at most 255 data bytes. */
  predicate WellFormed(r: Record)
  {
    r.address < 0x1_0000 && |r.data| < 256
  }

  predicate AllHexDigits(s: seq<byte>)
  {
    forall i :: 0 <= i < |s| ==> ValidateNibble(s[i])
  }

  /** The byte that two hex digits spell, high digit first. */
  function PairValue(hi: byte, lo: byte): byte
  {
    (AsciiToNibble(hi) as int * 16 + AsciiToNibble(lo) as int) as byte
  }

  /** Hex text to bytes: every character is checked with `validate_nibble` before it is
      converted, and an odd digit count or a non-digit rejects the whole text. */
  function DecodePairs(chars: seq<byte>): (r: Option<seq<byte>>)
    ensures r.Some? <==> |chars| % 2 == 0 && AllHexDigits(chars)
    ensures r.Some? ==> |chars| == 2 * |r.value|
    decreases |chars|
  {
    if |chars| == 0 then Some([])
    else if |chars| == 1 || !ValidateNibble(chars[0]) || !ValidateNibble(chars[1]) then None
    else
      match DecodePairs(chars[2..])
      case None =>
        assert |chars| % 2 == 1 || exists i :: 2 <= i < |chars| && !ValidateNibble(chars[i]) by {
          if |chars| % 2 == 0 {
            var i :| 0 <= i < |chars[2..]| && !ValidateNibble(chars[2..][i]);
            assert !ValidateNibble(chars[i + 2]);
          }
        }
        None
      case Some(rest) => Some([PairValue(chars[0], chars[1])] + rest)
  }

  /** Bytes to upper-case hex text, high digit first. */
  function EncodePairs(bytes: seq<byte>): (chars: seq<byte>)
    ensures |chars| == 2 * |bytes|
    ensures AllHexDigits(chars)
    decreases |bytes|
  {
    if |bytes| == 0 then []
    else [NibbleToAscii(bytes[0] / 16), NibbleToAscii(bytes[0] % 16)] + EncodePairs(bytes[1..])
  }

  /** Hex text written by `EncodePairs` decodes to the bytes it was written from. */
  lemma {:induction false} PairsRoundTrip(bytes: seq<byte>)
    ensures DecodePairs(EncodePairs(bytes)) == Some(bytes)
    decreases |bytes|
  {
    if |bytes| > 0 {
      var chars := EncodePairs(bytes);
      var b := bytes[0];
      NibbleRoundTrip(b / 16);
      NibbleRoundTrip(b % 16);
      assert PairValue(chars[0], chars[1]) == b;
      assert chars[2..] == EncodePairs(bytes[1..]);
      PairsRoundTrip(bytes[1..]);
      assert [b] + bytes[1..] == bytes;
    }
  }

  /** Each byte of a text in upper case. */
  function UpperCaseAll(chars: seq<byte>): (r: seq<byte>)
    ensures |r| == |chars|
  {
    seq(|chars|, i requires 0 <= i < |chars| => UpperCase(chars[i]))
  }

  /** The two digits of a pair are the high and the low nibble of the byte they spell. */
  lemma {:induction false} PairValueDigits(hi: byte, lo: byte)
    ensures PairValue(hi, lo) / 16 == AsciiToNibble(hi)
    ensures PairValue(hi, lo) % 16 == AsciiToNibble(lo)
  {
  }

  /** The converse round trip: text that decodes is, once upper-cased, exactly the text its bytes
      encode to, so the decoded bytes are the ones the digits spell and nothing else. */
  lemma {:induction false} DecodePairsUpperCase(chars: seq<byte>)
    requires DecodePairs(chars).Some?
    ensures EncodePairs(DecodePairs(chars).value) == UpperCaseAll(chars)
    decreases |chars|
  {
    if |chars| > 0 {
      var rest := DecodePairs(chars[2..]).value;
      var b := PairValue(chars[0], chars[1]);
      assert DecodePairs(chars).value == [b] + rest;
      assert ([b] + rest)[1..] == rest;
      PairValueDigits(chars[0], chars[1]);
      AsciiRoundTrip(chars[0]);
      AsciiRoundTrip(chars[1]);
      DecodePairsUpperCase(chars[2..]);
      assert UpperCaseAll(chars) == [UpperCase(chars[0]), UpperCase(chars[1])] + UpperCaseAll(chars[2..]);
    }
  }

  /** The sum of a byte sequence. */
  function ByteSum(bs: seq<byte>): nat
    decreases |bs|
  {
    if |bs| == 0 then 0 else ByteSum(bs[..|bs| - 1]) + bs[|bs| - 1] as int
  }

  /** The checksum byte of a record body: the byte that makes the total a multiple of 256. */
  function ChecksumByte(body: seq<byte>): (c: byte)
    ensures (ByteSum(body) + c as int) % 256 == 0
  {
    ((256 - ByteSum(body) % 256) % 256) as byte
  }

  /** The checksum byte is the only byte that makes the total a multiple of 256. */
  lemma {:induction false} ChecksumByteUnique(body: seq<byte>, c: byte)
    requires (ByteSum(body) + c as int) % 256 == 0
    ensures c == ChecksumByte(body)
  {
    var q, m := ByteSum(body) / 256, ByteSum(body) % 256;
    var u, t := (m + c as int) / 256, (m + c as int) % 256;
    DivMod8(ByteSum(body) + c as int, q + u, t);
    if m == 0 {
      DivMod8(256 - m, 1, 0);
    } else {
      DivMod8(256 - m, 0, 256 - m);
    }
  }

  /** Count, address high, address low and type, then the data. */
  function RecordBody(r: Record): seq<byte>
    requires WellFormed(r)
  {
    [|r.data| as byte, (r.address / 256) as byte, (r.address % 256) as byte, r.kind] + r.data
  }

  /** All bytes of a record as they appear on its line, checksum last. */
  function RecordBytes(r: Record): seq<byte>
    requires WellFormed(r)
  {
    RecordBody(r) + [ChecksumByte(RecordBody(r))]
  }

  /** The line a record is written as. */
  function EncodeLine(r: Record): seq<byte>
    requires WellFormed(r)
  {
    [START_CODE] + EncodePairs(RecordBytes(r))
  }

  /** One hex line to a record, or the first of these failures: no start code, bad hex digits,
      fewer than five record bytes, a byte count that disagrees with the line, a bad checksum. */
  function ParseLine(line: seq<byte>): (res: Result<Record>)
    ensures res.Ok? ==> WellFormed(res.value) && |line| == 11 + 2 * |res.value.data|
  {
    if |line| == 0 || line[0] != START_CODE then Err(MissingStartCode)
    else
      match DecodePairs(line[1..])
      case None => Err(BadHexDigit)
      case Some(bs) =>
        if |bs| < 5 then Err(ShortRecord)
        else if |bs| != bs[0] as int + 5 then Err(LengthMismatch)
        else if ByteSum(bs) % 256 != 0 then Err(BadChecksum)
        else Ok(Record(bs[3], bs[1] as int * 256 + bs[2] as int, bs[4..|bs| - 1]))
  }

  lemma {:induction false} ByteSumAppend(a: seq<byte>, c: byte)
    ensures ByteSum(a + [c]) == ByteSum(a) + c as int
  {
    assert (a + [c])[..|a + [c]| - 1] == a;
  }

  /** What an accepted line consists of: a start code and digits that decode to a complete,
      consistent record whose fields are the result. */
  lemma {:induction false} ParseLineAccepted(line: seq<byte>)
    requires ParseLine(line).Ok?
    ensures |line| > 0 && line[0] == START_CODE && DecodePairs(line[1..]).Some?
    ensures var bs := DecodePairs(line[1..]).value;
      && |bs| >= 5 && |bs| == bs[0] as int + 5 && ByteSum(bs) % 256 == 0
      && ParseLine(line).value == Record(bs[3], bs[1] as int * 256 + bs[2] as int, bs[4..|bs| - 1])
  {
  }

  /** A line is accepted only if its digits spell exactly the record's bytes followed by the
      right checksum byte: the parser never accepts a record whose bytes do not sum to zero. */
  lemma {:induction false} ParseLineSound(line: seq<byte>)
    requires ParseLine(line).Ok?
    ensures line[0] == START_CODE
    ensures DecodePairs(line[1..]) == Some(RecordBytes(ParseLine(line).value))
  {
    ParseLineAccepted(line);
    var bs := DecodePairs(line[1..]).value;
    var r := ParseLine(line).value;
    var n := |bs| - 1;
    assert bs[0] as int == |r.data|;
    DivMod8(r.address, bs[1] as int, bs[2] as int);
    assert bs[..n] == RecordBody(r);
    assert bs == bs[..n] + [bs[n]];
    ByteSumAppend(bs[..n], bs[n]);
    ChecksumByteUnique(bs[..n], bs[n]);
  }

  /** The fields of a record's bytes, as `ParseLine` reads them back. */
  lemma {:induction false} RecordBytesFields(r: Record)
    requires WellFormed(r)
    ensures var bs := RecordBytes(r);
      && |bs| == |r.data| + 5 && bs[0] as int == |r.data|
      && bs[1] as int * 256 + bs[2] as int == r.address && bs[3] == r.kind
      && bs[4..|bs| - 1] == r.data && ByteSum(bs) % 256 == 0
  {
    var body := RecordBody(r);
    var bs := RecordBytes(r);
    ByteSumAppend(body, ChecksumByte(body));
    assert bs[4..|bs| - 1] == body[4..];
  }

  /** What `ParseLine` makes of a line whose digits decode to a complete, consistent record. */
  lemma {:induction false} ParseLineOf(line: seq<byte>, bs: seq<byte>)
    requires |line| > 0 && line[0] == START_CODE && DecodePairs(line[1..]) == Some(bs)
    requires |bs| >= 5 && |bs| == bs[0] as int + 5 && ByteSum(bs) % 256 == 0
    ensures ParseLine(line) == Ok(Record(bs[3], bs[1] as int * 256 + bs[2] as int, bs[4..|bs| - 1]))
  {
  }

  /** Every well-formed record survives being written as a line and parsed back. */
  lemma {:induction false} LineRoundTrip(r: Record)
    requires WellFormed(r)
    ensures ParseLine(EncodeLine(r)) == Ok(r)
  {
    var line := EncodeLine(r);
    var bs := RecordBytes(r);
    assert line[1..] == EncodePairs(bs);
    PairsRoundTrip(bs);
    RecordBytesFields(r);
    ParseLineOf(line, bs);
    assert Record(bs[3], bs[1] as int * 256 + bs[2] as int, bs[4..|bs| - 1]) == r;
  }

  /** The data records of a hex file in order, up to its first end-of-file record or its end.
      The first bad line rejects the whole file. A record of any other type is an error when
      `strict`, and is skipped otherwise. */
  function DataRecords(lines: seq<seq<byte>>, strict: bool): (res: Result<seq<Record>>)
    ensures res.Ok? ==> forall i :: 0 <= i < |res.value| ==>
      res.value[i].kind == DATA_RECORD && WellFormed(res.value[i])
    decreases |lines|
  {
    if |lines| == 0 then Ok([])
    else
      match ParseLine(lines[0])
      case Err(e) => Err(e)
      case Ok(r) =>
        if r.kind == EOF_RECORD then Ok([])
        else if r.kind == DATA_RECORD then
          match DataRecords(lines[1..], strict)
          case Err(e) => Err(e)
          case Ok(rest) => Ok([r] + rest)
        else if strict then Err(UnsupportedRecordType)
        else DataRecords(lines[1..], strict)
  }

  /** A line that ends the records: it parses to an end-of-file record. */
  predicate EndsFile(line: seq<byte>)
  {
    ParseLine(line).Ok? && ParseLine(line).value.kind == EOF_RECORD
  }

  /** A line that rejects the file when it is reached: it does not parse, or, when `strict`, it
      parses to a record that is neither data nor end-of-file. */
  predicate RejectsFile(line: seq<byte>, strict: bool)
  {
    ParseLine(line).Err?
    || (strict && ParseLine(line).value.kind != DATA_RECORD && ParseLine(line).value.kind != EOF_RECORD)
  }

  /** A rejecting line before the first end-of-file line rejects the whole file, whatever the
      other lines hold. */
  lemma {:induction false} DataRecordsRejects(lines: seq<seq<byte>>, strict: bool, i: nat)
    requires i < |lines| && RejectsFile(lines[i], strict)
    requires forall j :: 0 <= j < i ==> !EndsFile(lines[j])
    ensures DataRecords(lines, strict).Err?
    decreases i
  {
    if i > 0 && ParseLine(lines[0]).Ok? {
      assert !EndsFile(lines[0]);
      assert lines[1..][i - 1] == lines[i];
      assert forall j :: 0 <= j < i - 1 ==> lines[1..][j] == lines[j + 1];
      DataRecordsRejects(lines[1..], strict, i - 1);
    }
  }

  /** Conversely, a rejected file has a rejecting line before its first end-of-file line. */
  lemma {:induction false} DataRecordsRejectedAt(lines: seq<seq<byte>>, strict: bool) returns (i: nat)
    requires DataRecords(lines, strict).Err?
    ensures i < |lines| && RejectsFile(lines[i], strict)
    ensures forall j :: 0 <= j < i ==> !EndsFile(lines[j])
    decreases |lines|
  {
    if RejectsFile(lines[0], strict) {
      i := 0;
    } else {
      var k := DataRecordsRejectedAt(lines[1..], strict);
      i := k + 1;
      assert lines[i] == lines[1..][k];
      assert forall j :: 1 <= j < i ==> lines[j] == lines[1..][j - 1];
    }
  }

  /** When not `strict`, a record that is neither data nor end-of-file is skipped. */
  lemma {:induction false} DataRecordsSkipsOther(lines: seq<seq<byte>>, r: Record)
    requires |lines| > 0 && ParseLine(lines[0]) == Ok(r)
    requires r.kind != DATA_RECORD && r.kind != EOF_RECORD
    ensures DataRecords(lines, false) == DataRecords(lines[1..], false)
  {
  }

  /** A data line puts its record in front of the records of the lines after it. */
  lemma {:induction false} DataRecordsOfData(lines: seq<seq<byte>>, strict: bool, r: Record)
    requires |lines| > 0 && ParseLine(lines[0]) == Ok(r) && r.kind == DATA_RECORD
    requires DataRecords(lines[1..], strict).Ok?
    ensures DataRecords(lines, strict) == Ok([r] + DataRecords(lines[1..], strict).value)
  {
  }

  /** An end-of-file line ends the records, whatever follows it. */
  lemma {:induction false} DataRecordsOfEof(lines: seq<seq<byte>>, strict: bool, r: Record)
    requires |lines| > 0 && ParseLine(lines[0]) == Ok(r) && r.kind == EOF_RECORD
    ensures DataRecords(lines, strict) == Ok([])
  {
  }

  /** Lines that parse to some data records followed by a line that parses to an end-of-file
      record read back as exactly those records, whatever follows the end-of-file line. */
  lemma {:induction false} DataRecordsOfParsed(lines: seq<seq<byte>>, records: seq<Record>, eof: Record, strict: bool)
    requires |records| < |lines|
    requires forall i :: 0 <= i < |records| ==> ParseLine(lines[i]) == Ok(records[i]) && records[i].kind == DATA_RECORD
    requires ParseLine(lines[|records|]) == Ok(eof) && eof.kind == EOF_RECORD
    ensures DataRecords(lines, strict) == Ok(records)
    decreases |records|
  {
    if |records| == 0 {
      DataRecordsOfEof(lines, strict, eof);
    } else {
      assert forall i :: 0 <= i < |records| - 1 ==> lines[1..][i] == lines[i + 1];
      DataRecordsOfParsed(lines[1..], records[1..], eof, strict);
      DataRecordsOfData(lines, strict, records[0]);
      assert records == [records[0]] + records[1..];
    }
  }

  /** A file written as the lines of some data records followed by an end-of-file record reads
      back as exactly those records, whatever follows the end-of-file record. */
  lemma {:induction false} FileRoundTrip(records: seq<Record>, eof: Record, trailer: seq<seq<byte>>, strict: bool)
    requires forall i :: 0 <= i < |records| ==> records[i].kind == DATA_RECORD && WellFormed(records[i])
    requires eof.kind == EOF_RECORD && WellFormed(eof)
    ensures DataRecords(Lines(records) + [EncodeLine(eof)] + trailer, strict) == Ok(records)
  {
    var lines := Lines(records) + [EncodeLine(eof)] + trailer;
    forall i | 0 <= i < |records|
      ensures ParseLine(lines[i]) == Ok(records[i])
    {
      assert lines[i] == EncodeLine(records[i]);
      LineRoundTrip(records[i]);
    }
    assert lines[|records|] == EncodeLine(eof);
    LineRoundTrip(eof);
    DataRecordsOfParsed(lines, records, eof, strict);
  }

  /** The lines of a sequence of records, one per record. */
  function Lines(records: seq<Record>): (lines: seq<seq<byte>>)
    requires forall i :: 0 <= i < |records| ==> WellFormed(records[i])
    ensures |lines| == |records|
    ensures forall i :: 0 <= i < |records| ==> lines[i] == EncodeLine(records[i])
    decreases |records|
  {
    if |records| == 0 then [] else [EncodeLine(records[0])] + Lines(records[1..])
  }
}
