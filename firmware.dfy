/** `firmware_read_firmware` of firmware.c: turns a firmware file into the numbered blocks that
    are sent to the bootloader. For a known device the file is Intel HEX text: its data records
    are copied into a flat image of the device's flash size that starts erased (all 0xFF), and
    the image is cut into blocks of the device's block length. For the unknown device the file is
    the binary eq3 format, whose records already are blocks. Every block is handed on as
    `number (2 bytes, big-endian) ++ payload length (2 bytes, big-endian) ++ payload`. */
module Firmware {
  import opened Bytes
  import opened Failures
  import opened IntelHex

  /** The value of flash memory that was never written. */
  const ERASED: byte := 0xFF

  /** The device profiles the decoder knows; `AtmegaUnknown` selects the eq3 format. */
  datatype Atmega = AtmegaUnknown | Atmega328P

  /** Flash size in bytes and bytes per transfer block. */
  datatype Geometry = Geometry(imageSize: nat, blockLength: nat)

  /** The device table: the ATmega328P has a 0x7000-byte image in 128-byte blocks; the unknown
      device has no geometry. */
  function DeviceGeometry(device: Atmega): (g: Option<Geometry>)
    ensures g.Some? <==> device != AtmegaUnknown
    ensures g.Some? ==> g.value.blockLength > 0
  {
    match device
    case AtmegaUnknown => None
    case Atmega328P => Some(Geometry(0x7000, 128))
  }

  /** One transfer block. */
  datatype Block = Block(number: nat, payload: seq<byte>)

  /** The bytes of a block as stored in `fw->fw[i]`. */
  function Serialize(b: Block): (r: seq<byte>)
    ensures |r| == 4 + |b.payload|
    ensures FromBe16(r[0], r[1]) == b.number % 0x1_0000
    ensures FromBe16(r[2], r[3]) == |b.payload| % 0x1_0000
    ensures r[..2] == Be16(b.number) && r[2..4] == Be16(|b.payload|) && r[4..] == b.payload
  {
    Be16(b.number) + Be16(|b.payload|) + b.payload
  }

  /** The stored form of every block, in order (`fw->fw`). */
  function SerializeAll(blocks: seq<Block>): (r: seq<seq<byte>>)
    ensures |r| == |blocks|
  {
    seq(|blocks|, i requires 0 <= i < |blocks| => Serialize(blocks[i]))
  }

  predicate Representable(b: Block)
  {
    b.number < 0x1_0000 && |b.payload| < 0x1_0000
  }

  /** Block numbers never go down, and none is below `prev`. */
  predicate Ascending(blocks: seq<Block>, prev: int)
  {
    (|blocks| > 0 ==> prev <= blocks[0].number)
    && forall i :: 0 < i < |blocks| ==> blocks[i - 1].number <= blocks[i].number
  }

  // ---------------------------------------------------------------- eq3 format

  /** The blocks of an eq3 file: each record `number (BE16) ++ length (BE16) ++ data` becomes one
      block, from the start of the file to its end. A record cut short in its header or its data,
      or a block number below the previous record's (`prev` for the first), rejects the file.
      A decoded file is empty exactly when it has no blocks: no record is dropped silently. */
  function Eq3Blocks(bytes: seq<byte>, prev: int): (res: Result<seq<Block>>)
    ensures res.Ok? ==> (|res.value| == 0 <==> |bytes| == 0)
    decreases |bytes|
  {
    if |bytes| == 0 then Ok([])
    else if |bytes| < 4 then Err(TruncatedHeader)
    else
      var number := FromBe16(bytes[0], bytes[1]);
      var len := FromBe16(bytes[2], bytes[3]);
      if |bytes| < 4 + len then Err(TruncatedData)
      else if number < prev then Err(BlockOutOfOrder)
      else
        match Eq3Blocks(bytes[4 + len..], number)
        case Err(e) => Err(e)
        case Ok(rest) => Ok([Block(number, bytes[4..4 + len])] + rest)
  }

  /** Decoded eq3 blocks have 16-bit numbers and lengths, and their numbers never go down. */
  lemma {:induction false} Eq3BlocksOrdered(bytes: seq<byte>, prev: int)
    requires Eq3Blocks(bytes, prev).Ok?
    ensures Ascending(Eq3Blocks(bytes, prev).value, prev)
    ensures forall i :: 0 <= i < |Eq3Blocks(bytes, prev).value| ==> Representable(Eq3Blocks(bytes, prev).value[i])
    decreases |bytes|
  {
    if |bytes| > 0 {
      var number := FromBe16(bytes[0], bytes[1]);
      var len := FromBe16(bytes[2], bytes[3]);
      Eq3Decoded(bytes, prev);
      var rest := Eq3Blocks(bytes[4 + len..], number).value;
      Eq3BlocksOrdered(bytes[4 + len..], number);
      var blocks := [Block(number, bytes[4..4 + len])] + rest;
      assert forall i :: 0 < i < |blocks| ==> blocks[i] == rest[i - 1];
    }
  }

  /** Records pass through verbatim: the stored blocks of a decoded eq3 file, laid end to end,
      are the file itself. */
  lemma {:induction false} Eq3Verbatim(bytes: seq<byte>, prev: int)
    requires Eq3Blocks(bytes, prev).Ok?
    ensures Concat(SerializeAll(Eq3Blocks(bytes, prev).value)) == bytes
    decreases |bytes|
  {
    if |bytes| > 0 {
      var number := FromBe16(bytes[0], bytes[1]);
      var len := FromBe16(bytes[2], bytes[3]);
      Eq3Decoded(bytes, prev);
      var first := Block(number, bytes[4..4 + len]);
      var rest := Eq3Blocks(bytes[4 + len..], number).value;
      Eq3Verbatim(bytes[4 + len..], number);
      StoredRecord(bytes);
      StoredJoin(bytes, 4 + len, first, rest);
    }
  }

  /** A non-empty eq3 file that decodes has a complete first record, in order, and the rest of
      the file decodes to the remaining blocks. */
  lemma {:induction false} Eq3Decoded(bytes: seq<byte>, prev: int)
    requires |bytes| > 0 && Eq3Blocks(bytes, prev).Ok?
    ensures |bytes| >= 4 && |bytes| >= 4 + FromBe16(bytes[2], bytes[3])
    ensures var number, len := FromBe16(bytes[0], bytes[1]), FromBe16(bytes[2], bytes[3]);
      && Eq3Blocks(bytes[4 + len..], number).Ok?
      && Eq3Blocks(bytes, prev).value == [Block(number, bytes[4..4 + len])] + Eq3Blocks(bytes[4 + len..], number).value
  {
  }

  /** The stored form of a record's block is the record itself. */
  lemma {:induction false} StoredRecord(bytes: seq<byte>)
    requires |bytes| >= 4 && |bytes| >= 4 + FromBe16(bytes[2], bytes[3])
    ensures var len := FromBe16(bytes[2], bytes[3]);
      Serialize(Block(FromBe16(bytes[0], bytes[1]), bytes[4..4 + len])) == bytes[..4 + len]
  {
    Be16OfFromBe16(bytes[0], bytes[1]);
    Be16OfFromBe16(bytes[2], bytes[3]);
  }

  /** A block stored as the front of some bytes, followed by blocks stored as the remainder,
      lay out the bytes exactly. */
  lemma {:induction false} StoredJoin(bytes: seq<byte>, k: nat, first: Block, rest: seq<Block>)
    requires k <= |bytes|
    requires Serialize(first) == bytes[..k]
    requires Concat(SerializeAll(rest)) == bytes[k..]
    ensures Concat(SerializeAll([first] + rest)) == bytes
  {
    assert SerializeAll([first] + rest)[1..] == SerializeAll(rest);
    assert bytes == bytes[..k] + bytes[k..];
  }

  /** The header of a stored representable block reads back its number and length. */
  lemma {:induction false} StoredHeader(b: Block, rest: seq<byte>)
    requires Representable(b)
    ensures var bytes := Serialize(b) + rest;
      && |bytes| >= 4 + |b.payload|
      && FromBe16(bytes[0], bytes[1]) == b.number
      && FromBe16(bytes[2], bytes[3]) == |b.payload|
      && bytes[4..4 + |b.payload|] == b.payload
      && bytes[4 + |b.payload|..] == rest
  {
    var head := Serialize(b);
    var bytes := head + rest;
    var n := |b.payload|;
    Be16Value(b.number);
    Be16Value(n);
    assert head[0] == head[..2][0] && head[1] == head[..2][1];
    assert head[2] == head[2..4][0] && head[3] == head[2..4][1];
    assert bytes[0] == head[0] && bytes[1] == head[1] && bytes[2] == head[2] && bytes[3] == head[3];
    assert bytes[4..4 + n] == head[4..];
    assert bytes[4 + n..] == rest;
  }

  /** Every sequence of representable blocks in ascending order is decoded back from its stored
      form. */
  lemma {:induction false} Eq3RoundTrip(blocks: seq<Block>, prev: int)
    requires forall i :: 0 <= i < |blocks| ==> Representable(blocks[i])
    requires Ascending(blocks, prev)
    ensures Eq3Blocks(Concat(SerializeAll(blocks)), prev) == Ok(blocks)
    decreases |blocks|
  {
    if |blocks| > 0 {
      var b := blocks[0];
      var tail := Concat(SerializeAll(blocks[1..]));
      assert SerializeAll(blocks)[1..] == SerializeAll(blocks[1..]);
      var bytes := Serialize(b) + tail;
      assert Concat(SerializeAll(blocks)) == bytes;
      StoredHeader(b, tail);
      Eq3Step(bytes, prev);
      assert Ascending(blocks[1..], b.number);
      Eq3RoundTrip(blocks[1..], b.number);
      assert blocks == [b] + blocks[1..];
    }
  }

  /** `Eq3Blocks` with the blocks already decoded put in front of its result. */
  function Prepend(done: seq<Block>, res: Result<seq<Block>>): Result<seq<Block>>
  {
    match res
    case Err(e) => Err(e)
    case Ok(rest) => Ok(done + rest)
  }

  /** One record of an eq3 file that is complete and in order becomes the first block. */
  lemma {:induction false} Eq3Step(bytes: seq<byte>, prev: int)
    requires |bytes| >= 4
    requires |bytes| >= 4 + FromBe16(bytes[2], bytes[3])
    requires FromBe16(bytes[0], bytes[1]) >= prev
    ensures var number, len := FromBe16(bytes[0], bytes[1]), FromBe16(bytes[2], bytes[3]);
      Eq3Blocks(bytes, prev) == Prepend([Block(number, bytes[4..4 + len])], Eq3Blocks(bytes[4 + len..], number))
  {
  }

  /** `Eq3Blocks` for the part of the file that starts at `pos`, one record at a time. */
  lemma {:induction false} Eq3At(bytes: seq<byte>, pos: nat, prev: int)
    requires pos < |bytes|
    ensures Eq3Blocks(bytes[pos..], prev) ==
      if |bytes| - pos < 4 then Err(TruncatedHeader)
      else
        var number, len := FromBe16(bytes[pos], bytes[pos + 1]), FromBe16(bytes[pos + 2], bytes[pos + 3]);
        if |bytes| - pos < 4 + len then Err(TruncatedData)
        else if number < prev then Err(BlockOutOfOrder)
        else Prepend([Block(number, bytes[pos + 4..pos + 4 + len])], Eq3Blocks(bytes[pos + 4 + len..], number))
  {
    var rest := bytes[pos..];
    if |rest| >= 4 {
      assert rest[0] == bytes[pos] && rest[1] == bytes[pos + 1];
      assert rest[2] == bytes[pos + 2] && rest[3] == bytes[pos + 3];
      var len := FromBe16(bytes[pos + 2], bytes[pos + 3]);
      if |rest| >= 4 + len {
        assert rest[4 + len..] == bytes[pos + 4 + len..];
        assert rest[4..4 + len] == bytes[pos + 4..pos + 4 + len];
      }
    }
  }

  lemma {:induction false} PrependTwice(done: seq<Block>, b: Block, res: Result<seq<Block>>)
    ensures Prepend(done, Prepend([b], res)) == Prepend(done + [b], res)
  {
    if res.Ok? {
      assert done + ([b] + res.value) == (done + [b]) + res.value;
    }
  }

  /** The record loop of the eq3 path: reads header and data record by record and appends one
      block per record. */
  method ReadEq3(bytes: seq<byte>) returns (res: Result<seq<Block>>)
    ensures res == Eq3Blocks(bytes, -1)
  {
    var blocks: seq<Block> := [];
    var pos := 0;
    var prev: int := -1;
    assert bytes[pos..] == bytes;
    assert Prepend([], Eq3Blocks(bytes, -1)) == Eq3Blocks(bytes, -1) by {
      var whole := Eq3Blocks(bytes, -1);
      if whole.Ok? {
        assert [] + whole.value == whole.value;
      }
    }
    while pos < |bytes|
      invariant pos <= |bytes|
      invariant Eq3Blocks(bytes, -1) == Prepend(blocks, Eq3Blocks(bytes[pos..], prev))
      decreases |bytes| - pos
    {
      Eq3At(bytes, pos, prev);
      if |bytes| - pos < 4 {
        return Err(TruncatedHeader);
      }
      var number := FromBe16(bytes[pos], bytes[pos + 1]);
      var len := FromBe16(bytes[pos + 2], bytes[pos + 3]);
      if |bytes| - pos < 4 + len {
        return Err(TruncatedData);
      }
      if number < prev {
        return Err(BlockOutOfOrder);
      }
      var block := Block(number, bytes[pos + 4..pos + 4 + len]);
      PrependTwice(blocks, block, Eq3Blocks(bytes[pos + 4 + len..], number));
      blocks := blocks + [block];
      prev := number;
      pos := pos + 4 + len;
    }
    assert bytes[pos..] == [];
    assert blocks + [] == blocks;
    return Ok(blocks);
  }

  // ---------------------------------------------------------------- Intel HEX format

  /** An erased flash image of `size` bytes. */
  function Fill(size: nat): (image: seq<byte>)
    ensures |image| == size
    ensures forall k :: 0 <= k < size ==> image[k] == ERASED
  {
    seq(size, _ => ERASED)
  }

  predicate Fits(r: Record, size: nat)
  {
    r.address + |r.data| <= size
  }

  predicate Covers(r: Record, k: nat)
  {
    r.address <= k < r.address + |r.data|
  }

  /** The image with a data record's bytes copied in at its address. */
  function Write(image: seq<byte>, r: Record): (out: seq<byte>)
    requires Fits(r, |image|)
    ensures |out| == |image|
    ensures forall k :: 0 <= k < |image| ==>
      out[k] == if Covers(r, k) then r.data[k - r.address] else image[k]
  {
    image[..r.address] + r.data + image[r.address + |r.data|..]
  }

  /** The image after copying in every record in order; a record that does not fit inside the
      image is a fatal error, reported only once the records before it were copied. */
  function LoadImage(image: seq<byte>, records: seq<Record>): (res: Result<seq<byte>>)
    ensures res.Ok? <==> forall i :: 0 <= i < |records| ==> Fits(records[i], |image|)
    ensures res.Err? ==> res.error == AddressOutOfRange
    ensures res.Ok? ==> |res.value| == |image|
    decreases |records|
  {
    if |records| == 0 then Ok(image)
    else if !Fits(records[0], |image|) then Err(AddressOutOfRange)
    else LoadImage(Write(image, records[0]), records[1..])
  }

  /** A byte that no record covers keeps its value (in a fresh image: stays erased). */
  lemma {:induction false} LoadKeepsUncovered(image: seq<byte>, records: seq<Record>, k: nat)
    requires LoadImage(image, records).Ok?
    requires k < |image|
    requires forall i :: 0 <= i < |records| ==> !Covers(records[i], k)
    ensures LoadImage(image, records).value[k] == image[k]
    decreases |records|
  {
    if |records| > 0 {
      LoadKeepsUncovered(Write(image, records[0]), records[1..], k);
    }
  }

  /** Record `j` is the last one that writes byte `k`. */
  predicate LastWriter(records: seq<Record>, j: int, k: nat)
  {
    0 <= j < |records| && Covers(records[j], k)
    && forall i :: j < i < |records| ==> !Covers(records[i], k)
  }

  /** A byte holds the data of the last record that covers it. */
  lemma {:induction false} LoadLastWriteWins(image: seq<byte>, records: seq<Record>, j: nat, k: nat)
    requires LoadImage(image, records).Ok?
    requires LastWriter(records, j, k)
    ensures k < |image|
    ensures LoadImage(image, records).value[k] == records[j].data[k - records[j].address]
    decreases |records|
  {
    assert Fits(records[j], |image|);
    var next := Write(image, records[0]);
    if j == 0 {
      LoadKeepsUncovered(next, records[1..], k);
    } else {
      LoadLastWriteWins(next, records[1..], j - 1, k);
    }
  }

  /** Number of blocks for an image: `image_size / block_length`, rounded up. */
  function BlockCount(size: nat, blockLength: nat): nat
    requires blockLength > 0
  {
    (size + blockLength - 1) / blockLength
  }

  /** `blockLength` image bytes from `start`, padded with erased bytes past the image's end. */
  function Slice(image: seq<byte>, start: nat, blockLength: nat): (payload: seq<byte>)
    ensures |payload| == blockLength
  {
    seq(blockLength, j requires 0 <= j < blockLength =>
      if start + j < |image| then image[start + j] else ERASED)
  }

  /** The image cut into blocks numbered from 0, each exactly `blockLength` bytes, one block per
      `blockLength` bytes of the image, rounded up. */
  function Chunk(image: seq<byte>, blockLength: nat): (blocks: seq<Block>)
    requires blockLength > 0
    ensures |blocks| == BlockCount(|image|, blockLength)
  {
    seq(BlockCount(|image|, blockLength), i requires 0 <= i < BlockCount(|image|, blockLength) =>
      Block(i, Slice(image, i * blockLength, blockLength)))
  }

  /** Rounding up: `BlockCount` blocks hold `size` bytes, and one block fewer would not. */
  lemma {:induction false} BlockCountBounds(size: nat, blockLength: nat)
    requires blockLength > 0
    ensures (BlockCount(size, blockLength) - 1) * blockLength < size <= BlockCount(size, blockLength) * blockLength
  {
    var n := BlockCount(size, blockLength);
    var m := size + blockLength - 1;
    assert m == n * blockLength + m % blockLength;
    assert (n - 1) * blockLength == n * blockLength - blockLength;
  }

  /** Chunking invents nothing: there are just enough blocks to hold the image, block `i` is
      numbered `i` and has exactly `blockLength` bytes, and every byte past the image is erased. */
  lemma {:induction false} ChunkLayout(image: seq<byte>, blockLength: nat)
    requires blockLength > 0
    ensures var blocks := Chunk(image, blockLength);
      && (|blocks| - 1) * blockLength < |image| <= |blocks| * blockLength
      && (forall i :: 0 <= i < |blocks| ==> blocks[i].number == i && |blocks[i].payload| == blockLength)
      && (forall i, j :: 0 <= i < |blocks| && 0 <= j < blockLength && i * blockLength + j >= |image| ==>
            blocks[i].payload[j] == ERASED)
  {
    BlockCountBounds(|image|, blockLength);
  }

  /** Chunking loses nothing: image byte `k` is byte `k % blockLength` of block
      `k / blockLength`. */
  lemma {:induction false} ChunkPosition(image: seq<byte>, blockLength: nat, k: nat)
    requires blockLength > 0 && k < |image|
    ensures k / blockLength < |Chunk(image, blockLength)|
    ensures Chunk(image, blockLength)[k / blockLength].payload[k % blockLength] == image[k]
  {
    var q, r := k / blockLength, k % blockLength;
    assert k == q * blockLength + r;
    ChunkLayout(image, blockLength);
    var n := |Chunk(image, blockLength)|;
    if q >= n {
      MulMonotone(n, q, blockLength);
    }
  }

  lemma {:induction false} MulMonotone(a: nat, b: nat, c: nat)
    requires a <= b
    ensures a * c <= b * c
  {
  }

  /** The blocks of an Intel HEX file for a device: its data records loaded into an erased image
      of the device's size, cut into the device's block length. It succeeds exactly when the
      lines up to the end-of-file record are accepted and every data record fits in the image,
      and then yields one block per `blockLength` bytes of the image, rounded up. */
  function HexBlocks(lines: seq<seq<byte>>, g: Geometry, strict: bool): (res: Result<seq<Block>>)
    requires g.blockLength > 0
    ensures res.Ok? <==>
      && DataRecords(lines, strict).Ok?
      && forall i :: 0 <= i < |DataRecords(lines, strict).value| ==> Fits(DataRecords(lines, strict).value[i], g.imageSize)
    ensures res.Ok? ==> |res.value| == BlockCount(g.imageSize, g.blockLength)
  {
    match DataRecords(lines, strict)
    case Err(e) => Err(e)
    case Ok(records) =>
      match LoadImage(Fill(g.imageSize), records)
      case Err(e) => Err(e)
      case Ok(image) => Ok(Chunk(image, g.blockLength))
  }

  /** What a decoded Intel HEX file holds: image byte `k` sits at position `k % blockLength` of
      block `k / blockLength`; it is erased (0xFF) when no data record wrote it, and otherwise holds
      the byte of the last data record that wrote it. */
  lemma {:induction false} HexBlockContents(lines: seq<seq<byte>>, g: Geometry, strict: bool,
                         records: seq<Record>, blocks: seq<Block>, k: nat)
    requires g.blockLength > 0
    requires HexBlocks(lines, g, strict) == Ok(blocks)
    requires DataRecords(lines, strict) == Ok(records)
    requires k < g.imageSize
    ensures k / g.blockLength < |blocks| && |blocks[k / g.blockLength].payload| == g.blockLength
    ensures (forall i :: 0 <= i < |records| ==> !Covers(records[i], k)) ==>
      blocks[k / g.blockLength].payload[k % g.blockLength] == ERASED
    ensures forall j :: LastWriter(records, j, k) ==>
      blocks[k / g.blockLength].payload[k % g.blockLength] == records[j].data[k - records[j].address]
  {
    HexBlocksOfRecords(lines, g, strict, records);
    ChunkedImageContents(LoadImage(Fill(g.imageSize), records).value, g, records, blocks, k);
  }

  /** `HexBlockContents` for the blocks cut from the image that the records were loaded into. */
  lemma {:induction false} ChunkedImageContents(image: seq<byte>, g: Geometry, records: seq<Record>,
                                                blocks: seq<Block>, k: nat)
    requires g.blockLength > 0
    requires LoadImage(Fill(g.imageSize), records) == Ok(image)
    requires blocks == Chunk(image, g.blockLength)
    requires k < g.imageSize
    ensures k / g.blockLength < |blocks| && |blocks[k / g.blockLength].payload| == g.blockLength
    ensures (forall i :: 0 <= i < |records| ==> !Covers(records[i], k)) ==>
      blocks[k / g.blockLength].payload[k % g.blockLength] == ERASED
    ensures forall j :: LastWriter(records, j, k) ==>
      blocks[k / g.blockLength].payload[k % g.blockLength] == records[j].data[k - records[j].address]
  {
    ChunkPosition(image, g.blockLength, k);
    ImageByteAt(image, g.imageSize, records, k);
  }

  /** Byte `k` of an image loaded from erased flash: erased when no record covers it, otherwise
      the byte of the last record that covers it. */
  lemma {:induction false} ImageByteAt(image: seq<byte>, size: nat, records: seq<Record>, k: nat)
    requires LoadImage(Fill(size), records) == Ok(image)
    requires k < size
    ensures (forall i :: 0 <= i < |records| ==> !Covers(records[i], k)) ==> image[k] == ERASED
    ensures forall j :: LastWriter(records, j, k) ==> image[k] == records[j].data[k - records[j].address]
  {
    if forall i :: 0 <= i < |records| ==> !Covers(records[i], k) {
      LoadKeepsUncovered(Fill(size), records, k);
    }
    forall j | LastWriter(records, j, k)
      ensures image[k] == records[j].data[k - records[j].address]
    {
      LoadLastWriteWins(Fill(size), records, j, k);
    }
  }

  /** A successful Intel HEX decode is the chunked image of its data records. */
  lemma {:induction false} HexBlocksOfRecords(lines: seq<seq<byte>>, g: Geometry, strict: bool, records: seq<Record>)
    requires g.blockLength > 0
    requires HexBlocks(lines, g, strict).Ok?
    requires DataRecords(lines, strict) == Ok(records)
    ensures LoadImage(Fill(g.imageSize), records).Ok?
    ensures HexBlocks(lines, g, strict).value == Chunk(LoadImage(Fill(g.imageSize), records).value, g.blockLength)
  {
  }

  /** `memcpy` of one data record into the image. */
  method CopyRecord(image: array<byte>, r: Record)
    requires Fits(r, image.Length)
    modifies image
    ensures image[..] == Write(old(image[..]), r)
  {
    var k := 0;
    while k < |r.data|
      invariant k <= |r.data|
      invariant forall t :: 0 <= t < image.Length ==>
        image[t] == if r.address <= t < r.address + k then r.data[t - r.address] else old(image[t])
    {
      image[r.address + k] := r.data[k];
      k := k + 1;
    }
  }

  /** Allocates an image of `size` bytes and erases every byte. */
  method NewErasedImage(size: nat) returns (image: array<byte>)
    ensures fresh(image)
    ensures image[..] == Fill(size)
  {
    image := new byte[size];
    var i := 0;
    while i < size
      invariant i <= size
      invariant forall k :: 0 <= k < i ==> image[k] == ERASED
    {
      image[i] := ERASED;
      i := i + 1;
    }
  }

  /** Loading the records from `j` on: the record at `j` is either copied in or rejected. */
  lemma {:induction false} LoadImageAt(image: seq<byte>, records: seq<Record>, j: nat)
    requires j < |records|
    ensures LoadImage(image, records[j..]) ==
      if Fits(records[j], |image|) then LoadImage(Write(image, records[j]), records[j + 1..])
      else Err(AddressOutOfRange)
  {
    assert records[j..][0] == records[j] && records[j..][1..] == records[j + 1..];
  }

  /** Builds the flat image: allocates `size` bytes, erases them all, then copies each record
      in at its address; a record outside the image aborts the build. */
  method BuildImage(records: seq<Record>, size: nat) returns (res: Result<array<byte>>)
    ensures res.Ok? <==> LoadImage(Fill(size), records).Ok?
    ensures res.Err? ==> res.error == LoadImage(Fill(size), records).error
    ensures res.Ok? ==> res.value[..] == LoadImage(Fill(size), records).value
  {
    var image := NewErasedImage(size);
    var j := 0;
    while j < |records|
      invariant j <= |records|
      invariant image.Length == size
      invariant LoadImage(Fill(size), records) == LoadImage(image[..], records[j..])
    {
      var r := records[j];
      LoadImageAt(image[..], records, j);
      if !Fits(r, size) {
        return Err(AddressOutOfRange);
      }
      CopyRecord(image, r);
      j := j + 1;
    }
    assert records[j..] == [];
    return Ok(image);
  }

  /** Cuts the image into blocks: block `i` takes image bytes `i * blockLength` onwards, padded
      with erased bytes past the end of the image. The image is only read. */
  method ChunkImage(image: array<byte>, blockLength: nat) returns (blocks: seq<Block>)
    requires blockLength > 0
    ensures blocks == Chunk(image[..], blockLength)
  {
    ghost var whole := image[..];
    var n := (image.Length + blockLength - 1) / blockLength;
    blocks := [];
    for i := 0 to n
      invariant blocks == Chunk(whole, blockLength)[..i]
    {
      BlockStartInImage(image.Length, blockLength, i);
      var lo := i * blockLength;
      var hi := if lo + blockLength <= image.Length then lo + blockLength else image.Length;
      var payload := image[lo..hi] + seq(blockLength - (hi - lo), _ => ERASED);
      PaddedSlice(whole, lo, hi, blockLength);
      assert Chunk(whole, blockLength)[..i + 1] == Chunk(whole, blockLength)[..i] + [Block(i, payload)];
      blocks := blocks + [Block(i, payload)];
    }
  }

  /** Every block starts inside the image. */
  lemma {:induction false} BlockStartInImage(size: nat, blockLength: nat, i: nat)
    requires blockLength > 0 && i < BlockCount(size, blockLength)
    ensures i * blockLength < size
  {
    var n := BlockCount(size, blockLength);
    var m := size + blockLength - 1;
    assert m == n * blockLength + m % blockLength;
    MulMonotone(i + 1, n, blockLength);
  }

  /** The slice-and-pad of `ChunkImage` is the block payload `Slice` describes. */
  lemma {:induction false} PaddedSlice(image: seq<byte>, lo: nat, hi: nat, blockLength: nat)
    requires lo < |image|
    requires hi == if lo + blockLength <= |image| then lo + blockLength else |image|
    ensures image[lo..hi] + seq(blockLength - (hi - lo), _ => ERASED) == Slice(image, lo, blockLength)
  {
    var p := image[lo..hi] + seq(blockLength - (hi - lo), _ => ERASED);
    forall j | 0 <= j < blockLength
      ensures p[j] == Slice(image, lo, blockLength)[j]
    {
      if j < hi - lo {
        assert p[j] == image[lo + j];
      }
    }
  }

  /** The Intel HEX path: parse the records, build the image, cut it into blocks. */
  method ReadHex(lines: seq<seq<byte>>, g: Geometry, strict: bool) returns (res: Result<seq<Block>>)
    requires g.blockLength > 0
    ensures res == HexBlocks(lines, g, strict)
  {
    var parsed := DataRecords(lines, strict);
    if parsed.Err? {
      return Err(parsed.error);
    }
    var built := BuildImage(parsed.value, g.imageSize);
    if built.Err? {
      return Err(built.error);
    }
    var blocks := ChunkImage(built.value, g.blockLength);
    return Ok(blocks);
  }

  // ---------------------------------------------------------------- whole files

  predicate IsLineBreak(c: byte)
  {
    c == 0x0A || c == 0x0D
  }

  /** Length of the line at the start of `s`: up to the first CR or LF, or the end. */
  function LineLength(s: seq<byte>): (n: nat)
    ensures n <= |s|
    ensures forall j :: 0 <= j < n ==> !IsLineBreak(s[j])
    ensures n < |s| ==> IsLineBreak(s[n])
    decreases |s|
  {
    if |s| == 0 || IsLineBreak(s[0]) then 0 else 1 + LineLength(s[1..])
  }

  /** The non-empty lines of a text, CR and LF both ending a line. */
  function SplitLines(s: seq<byte>): (lines: seq<seq<byte>>)
    ensures forall i :: 0 <= i < |lines| ==> |lines[i]| > 0
    ensures forall i, j :: 0 <= i < |lines| && 0 <= j < |lines[i]| ==> !IsLineBreak(lines[i][j])
    decreases |s|
  {
    if |s| == 0 then []
    else if IsLineBreak(s[0]) then SplitLines(s[1..])
    else
      var n := LineLength(s);
      [s[..n]] + SplitLines(s[n..])
  }

  /** Lines written one after another, each ended by LF. */
  function JoinLines(lines: seq<seq<byte>>): seq<byte>
    decreases |lines|
  {
    if |lines| == 0 then [] else lines[0] + [0x0A] + JoinLines(lines[1..])
  }

  predicate IsLine(line: seq<byte>)
  {
    |line| > 0 && forall j :: 0 <= j < |line| ==> !IsLineBreak(line[j])
  }

  lemma {:induction false} LineLengthOfLine(line: seq<byte>, rest: seq<byte>)
    requires forall j :: 0 <= j < |line| ==> !IsLineBreak(line[j])
    ensures LineLength(line + [0x0A] + rest) == |line|
    decreases |line|
  {
    if |line| > 0 {
      assert (line + [0x0A] + rest)[1..] == line[1..] + [0x0A] + rest;
      LineLengthOfLine(line[1..], rest);
    }
  }

  /** Splitting a text written as LF-terminated lines gives back those lines. */
  lemma {:induction false} SplitJoin(lines: seq<seq<byte>>)
    requires forall i :: 0 <= i < |lines| ==> IsLine(lines[i])
    ensures SplitLines(JoinLines(lines)) == lines
    decreases |lines|
  {
    if |lines| > 0 {
      var text := JoinLines(lines);
      var rest := JoinLines(lines[1..]);
      assert IsLine(lines[0]);
      LineLengthOfLine(lines[0], rest);
      var n := |lines[0]|;
      assert text[..n] == lines[0];
      assert text[n..] == [0x0A] + rest;
      assert SplitLines([0x0A] + rest) == SplitLines(rest) by {
        assert ([0x0A] + rest)[1..] == rest;
      }
      SplitJoin(lines[1..]);
      assert lines == [lines[0]] + lines[1..];
    }
  }

  /** What `firmware_read_firmware` produces for a file's content and a device: for a known
      device, one block per block length of its image, rounded up; for the unknown device, no
      blocks exactly when the file is empty. */
  function FirmwareBlocks(device: Atmega, content: seq<byte>, strict: bool): (res: Result<seq<Block>>)
    ensures res.Ok? && DeviceGeometry(device).Some? ==>
      |res.value| == BlockCount(DeviceGeometry(device).value.imageSize, DeviceGeometry(device).value.blockLength)
    ensures res.Ok? && DeviceGeometry(device).None? ==> (|res.value| == 0 <==> |content| == 0)
  {
    match DeviceGeometry(device)
    case None => Eq3Blocks(content, -1)
    case Some(g) => HexBlocks(SplitLines(content), g, strict)
  }

  /** `firmware_read_firmware`: the unknown device selects the eq3 path, a known device the
      Intel HEX path with that device's geometry. */
  method ReadFirmware(device: Atmega, content: seq<byte>, strict: bool) returns (res: Result<seq<Block>>)
    ensures res == FirmwareBlocks(device, content, strict)
  {
    var g := DeviceGeometry(device);
    if g.None? {
      res := ReadEq3(content);
    } else {
      res := ReadHex(SplitLines(content), g.value, strict);
    }
  }

  // ---------------------------------------------------------------- the unit tests' files

  /** The eq3 file of two records, block 0 with DE AD BE EF and block 1 with CA FE, decodes to
      exactly two blocks whose stored bytes are the records. */
  lemma {:induction false} Eq3TwoRecordFile(file: seq<byte>, strict: bool)
    requires file == [0x00, 0x00, 0x00, 0x04, 0xDE, 0xAD, 0xBE, 0xEF,
                      0x00, 0x01, 0x00, 0x02, 0xCA, 0xFE]
    ensures var res := FirmwareBlocks(AtmegaUnknown, file, strict);
      && res.Ok? && |res.value| == 2
      && Serialize(res.value[0]) == [0x00, 0x00, 0x00, 0x04, 0xDE, 0xAD, 0xBE, 0xEF]
      && Serialize(res.value[1]) == [0x00, 0x01, 0x00, 0x02, 0xCA, 0xFE]
  {
    Eq3FirstRecord(file);
    assert FirmwareBlocks(AtmegaUnknown, file, strict) == Eq3Blocks(file, -1);
    Eq3TwoRecordsStored(Block(0, [0xDE, 0xAD, 0xBE, 0xEF]), Block(1, [0xCA, 0xFE]));
  }

  lemma {:induction false} Eq3TwoRecordsStored(first: Block, second: Block)
    requires first == Block(0, [0xDE, 0xAD, 0xBE, 0xEF]) && second == Block(1, [0xCA, 0xFE])
    ensures Serialize(first) == [0x00, 0x00, 0x00, 0x04, 0xDE, 0xAD, 0xBE, 0xEF]
    ensures Serialize(second) == [0x00, 0x01, 0x00, 0x02, 0xCA, 0xFE]
  {
    StoredBlock(first);
    StoredBlock(second);
  }

  lemma {:induction false} Eq3FirstRecord(file: seq<byte>)
    requires file == [0x00, 0x00, 0x00, 0x04, 0xDE, 0xAD, 0xBE, 0xEF,
                      0x00, 0x01, 0x00, 0x02, 0xCA, 0xFE]
    ensures Eq3Blocks(file, -1) == Ok([Block(0, [0xDE, 0xAD, 0xBE, 0xEF]), Block(1, [0xCA, 0xFE])])
  {
    var first := Block(0, [0xDE, 0xAD, 0xBE, 0xEF]);
    assert FromBe16(file[0], file[1]) == 0 && FromBe16(file[2], file[3]) == 4;
    Eq3Step(file, -1);
    assert file[4..8] == first.payload;
    Eq3LastRecord(file[8..]);
    assert [first] + [Block(1, [0xCA, 0xFE])] == [first, Block(1, [0xCA, 0xFE])];
  }

  lemma {:induction false} Eq3LastRecord(bytes: seq<byte>)
    requires bytes == [0x00, 0x01, 0x00, 0x02, 0xCA, 0xFE]
    ensures Eq3Blocks(bytes, 0) == Ok([Block(1, [0xCA, 0xFE])])
  {
    assert FromBe16(bytes[0], bytes[1]) == 1 && FromBe16(bytes[2], bytes[3]) == 2;
    Eq3Step(bytes, 0);
    assert bytes[6..] == [] && bytes[4..6] == [0xCA, 0xFE];
    assert [Block(1, [0xCA, 0xFE])] + [] == [Block(1, [0xCA, 0xFE])];
  }

  /** A block whose number and length fit in one byte is stored with zero high bytes. */
  lemma {:induction false} StoredBlock(b: Block)
    requires b.number < 256 && |b.payload| < 256
    ensures Serialize(b) == [0, b.number as byte, 0, |b.payload| as byte] + b.payload
  {
    DivMod8(b.number, 0, b.number);
    DivMod8(|b.payload|, 0, |b.payload|);
  }

  /** An Intel HEX file for the ATmega328P with a data record DE AD BE EF at address 0 and an
      end-of-file record yields 224 blocks (0x7000 / 128); block 0 is stored as number 0, length
      0x0080, the four data bytes, then erased bytes. */
  lemma {:induction false} Atmega328PHexFile(data: Record, eof: Record, trailer: seq<seq<byte>>, strict: bool)
    requires data == Record(DATA_RECORD, 0, [0xDE, 0xAD, 0xBE, 0xEF])
    requires eof == Record(EOF_RECORD, 0, [])
    ensures var res := HexBlocks(Lines([data]) + [EncodeLine(eof)] + trailer, DeviceGeometry(Atmega328P).value, strict);
      && res.Ok? && |res.value| == 224 && |res.value[0].payload| == 128
      && Serialize(res.value[0])[..9] == [0x00, 0x00, 0x00, 0x80, 0xDE, 0xAD, 0xBE, 0xEF, 0xFF]
  {
    FileRoundTrip([data], eof, trailer, strict);
    Atmega328PImage(data);
  }

  /** The same file as text handed to `firmware_read_firmware` for the ATmega328P. */
  lemma {:induction false} Atmega328PHexText(data: Record, eof: Record, text: seq<byte>, strict: bool)
    requires data == Record(DATA_RECORD, 0, [0xDE, 0xAD, 0xBE, 0xEF])
    requires eof == Record(EOF_RECORD, 0, [])
    requires text == JoinLines([EncodeLine(data), EncodeLine(eof)])
    ensures var res := FirmwareBlocks(Atmega328P, text, strict);
      && res.Ok? && |res.value| == 224 && |res.value[0].payload| == 128
      && Serialize(res.value[0])[..9] == [0x00, 0x00, 0x00, 0x80, 0xDE, 0xAD, 0xBE, 0xEF, 0xFF]
  {
    TwoRecordText(data, eof, text);
    assert FirmwareBlocks(Atmega328P, text, strict)
      == HexBlocks(Lines([data]) + [EncodeLine(eof)] + [], DeviceGeometry(Atmega328P).value, strict);
    Atmega328PHexFile(data, eof, [], strict);
  }

  /** The text of two encoded records splits back into the file of the first record followed by
      the second. */
  lemma {:induction false} TwoRecordText(data: Record, eof: Record, text: seq<byte>)
    requires WellFormed(data) && WellFormed(eof)
    requires text == JoinLines([EncodeLine(data), EncodeLine(eof)])
    ensures SplitLines(text) == Lines([data]) + [EncodeLine(eof)] + []
  {
    var lines := [EncodeLine(data), EncodeLine(eof)];
    EncodedLineIsLine(data);
    EncodedLineIsLine(eof);
    SplitJoin(lines);
    assert Lines([data]) == [EncodeLine(data)];
  }

  /** An encoded record is one line: a start code and hex digits, no line break. */
  lemma {:induction false} EncodedLineIsLine(r: Record)
    requires WellFormed(r)
    ensures IsLine(EncodeLine(r))
  {
    var line := EncodeLine(r);
    forall j | 0 <= j < |line| ensures !IsLineBreak(line[j]) {
      if j > 0 {
        assert line[j] == EncodePairs(RecordBytes(r))[j - 1];
      }
    }
  }

  /** The image part of `Atmega328PHexFile`, once the records are known. */
  lemma {:induction false} Atmega328PImage(data: Record)
    requires data == Record(DATA_RECORD, 0, [0xDE, 0xAD, 0xBE, 0xEF])
    ensures LoadImage(Fill(0x7000), [data]).Ok?
    ensures var blocks := Chunk(LoadImage(Fill(0x7000), [data]).value, 128);
      && |blocks| == 224 && |blocks[0].payload| == 128
      && Serialize(blocks[0])[..9] == [0x00, 0x00, 0x00, 0x80, 0xDE, 0xAD, 0xBE, 0xEF, 0xFF]
  {
    var image := Write(Fill(0x7000), data);
    assert LoadImage(Fill(0x7000), [data]) == Ok(image);
    var blocks := Chunk(image, 128);
    assert |blocks| == 224;
    var payload := blocks[0].payload;
    assert payload[..5] == [0xDE, 0xAD, 0xBE, 0xEF, 0xFF];
    assert Serialize(blocks[0])[..9] == Be16(0) + Be16(128) + payload[..5];
  }
}
