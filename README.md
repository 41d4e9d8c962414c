# hmcfgusb firmware and packet core, modelled in Dafny

This project models the hardware-independent core of hmcfgusb. That is the behaviour its unit
tests in `test_unit.c` pin down for `util.c`, `firmware.c` and the `hm.h` packet macros:

- **Nibble codec** (`nibble.dfy`, module `Nibble`): `ascii_to_nibble`, `nibble_to_ascii` and
  `validate_nibble` on single bytes.
- **Packet field codec** (`packet.dfy`, module `Packet`): the fixed packet layout. LEN, MSGID, CTL
  and TYPE sit at offsets 0-3. SRC (offsets 4-6) and DST (offsets 7-9) are 24-bit big-endian
  addresses. The payload starts at offset 10. The readers `SRC`, `DST` and `PAYLOADLEN` are
  functions of the buffer's bytes. The setters `SET_SRC`, `SET_DST` and `SET_LEN_FROM_PAYLOADLEN`
  are methods that write an `array<byte>` in place.
- **CRC16 accumulator** (`crc.dfy`, module `Crc`): `crc16(data, len, init)` is a loop over a
  caller-owned array. The per-byte update is a parameter.
- **Intel HEX record parser** (`ihex.dfy`, module `IntelHex`): parses `:LLAAAATTDD..CC` lines
  following the Intel Hexadecimal Object File Format. Every character is checked with
  `validate_nibble`. The checksum is the two's complement of the byte sum. Type 00 is data and
  type 01 is end-of-file.
- **Firmware decoding** (`firmware.dfy`, module `Firmware`): `firmware_read_firmware`.
  - With the unknown device, the file is in the binary eq3 format. Each record
    `number (BE16) ++ length (BE16) ++ data` becomes one block.
  - With the ATmega328P, the file is Intel HEX text. The image builder allocates a 0x7000-byte
    image filled with 0xFF, copies each data record in at its address, and cuts the image into
    128-byte blocks.
  - Every block is stored as `number (BE16) ++ length (BE16) ++ payload`.

`bytes.dfy` holds the shared byte type, the 16-bit big-endian encoding and the error type.

The model states the behaviour that the assertions in `test_unit.c` fix for `util.c`,
`firmware.c` and `hm.h`; where they leave behaviour open, the model makes these choices:

- the binary eq3 records carry their own block numbers, and these must not decrease;
- unsupported Intel HEX record types are a strictness choice (`strict`);
- a data record that writes outside the image is fatal;
- the last block is padded with 0xFF when the image size is not a multiple of the block length.

## Model

| member | source | states |
|---|---|---|
| `Bytes.Be16` | test_unit.c:260-263 | the two header bytes of a 16-bit field read back as the value modulo 2^16 |
| `Nibble.AsciiToNibble` | test_unit.c:33-62 | result is below 16; any byte that is not a hex digit gives 0 |
| `Nibble.AsciiToNibbleIsTablePosition` | test_unit.c:33-53 | for a hex digit of either case the result is the digit's position in "0123456789ABCDEF" |
| `Nibble.NibbleToAscii` | test_unit.c:64-78 | result is an upper-case valid hex digit |
| `Nibble.NibbleToAsciiIsTableLookup` | test_unit.c:64-78 | result is `"0123456789ABCDEF"[n & 0xf]` |
| `Nibble.ValidateNibble` | test_unit.c:80-112 | a byte is valid exactly when its upper-case form is 0-9 or A-F, so 0-9, A-F and a-f and nothing else pass |
| `Nibble.NibbleRoundTrip` | test_unit.c:114-121 | `ascii_to_nibble(nibble_to_ascii(i)) == i` for every i in 0..15 |
| `Nibble.AsciiRoundTrip` | test_unit.c:33-53 | for every valid hex digit, converting to a nibble and back gives the digit in upper case |
| `Nibble.ValidateNibbleTable` | test_unit.c:80-112 | the range ends 0, 9, A, F, a, f are valid; the neighbours of each range and 0x00, 0xFF, G, g, @, `, space, z are invalid and convert to 0; masked values 0x10, 0x1A, 0xFF give '0', 'A', 'F' |
| `Packet.FieldAt` | test_unit.c:190-204 | every byte before PAYLOAD belongs to exactly one of LEN, MSGID, CTL, TYPE, SRC, DST |
| `Packet.FieldsPrecedePayload` | test_unit.c:190-204 | no field reaches offset PAYLOAD, and PAYLOAD is 0x0a |
| `Packet.SrcOf` | test_unit.c:134 | SRC reads a 24-bit value |
| `Packet.DstOf` | test_unit.c:135 | DST reads a 24-bit value |
| `Packet.Get24Put24` | test_unit.c:125-157 | a 24-bit big-endian field reads back the written value truncated to 24 bits |
| `Packet.WithSrc` | test_unit.c:125-157 | SET_SRC keeps the buffer's length and changes no byte outside SRC (offsets 4-6) |
| `Packet.WithDst` | test_unit.c:125-157 | SET_DST keeps the buffer's length and changes no byte outside DST (offsets 7-9) |
| `Packet.SrcWriteRead` | test_unit.c:125-157 | after writing SRC, SRC reads the value written and DST is unchanged |
| `Packet.DstWriteRead` | test_unit.c:125-157 | after writing DST, DST reads the value written and SRC is unchanged |
| `Packet.SrcDstIndependent` | test_unit.c:159-171 | writing both addresses in either order leaves each readable exactly as last written |
| `Packet.SetSrc` | test_unit.c:131 | the array becomes the old bytes with SRC written; SRC reads v mod 2^24; DST is unchanged |
| `Packet.SetDst` | test_unit.c:132 | the array becomes the old bytes with DST written; DST reads v mod 2^24; SRC is unchanged |
| `Packet.PayloadLen` | test_unit.c:179 | PAYLOADLEN is the length byte less 9, between -9 and 246 |
| `Packet.WithPayloadLen` | test_unit.c:173-188 | SET_LEN_FROM_PAYLOADLEN changes only the length byte, and PAYLOADLEN then reads n + 9 reduced modulo 256, less 9 |
| `Packet.PayloadLenRoundTrip` | test_unit.c:173-188 | for 0 <= n <= 246, the length byte holds n + 9, PAYLOADLEN reads n, and no other byte changes |
| `Packet.SetLenFromPayloadLen` | test_unit.c:177-187 | the array becomes the old bytes with LEN = (n + 9) mod 256; PAYLOADLEN then reads n whenever n fits |
| `Packet.UnitTestValues` | test_unit.c:125-188 | the tests' values: 0x123456/0xABCDEF, 0/0, 0xFFFFFF/0xFFFFFF read back; lengths 0, 10, 37 store 9, 19, 46 |
| `Crc.Checksum` | test_unit.c:208-240 | the fold of the per-byte update over the data from init; it has no contract of its own, and what crc16 promises about it is stated by `Crc.Crc16`, `Crc.ChecksumAppend`, `Crc.ChecksumInitInjective` and `Crc.SingleByteChangeDetected` |
| `Crc.Crc16` | test_unit.c:208-248 | the result is the per-byte fold over the first len bytes from init; an empty range returns init for every init; no modifies clause, so the buffer is unchanged |
| `Crc.ChecksumAppend` | test_unit.c:212-214 | a generalisation of the tests' use of init: continuing from an intermediate value equals checksumming the concatenation in one call (the empty range returning init is its case of empty data) |
| `Crc.ChecksumInitInjective` | test_unit.c:234-240 | with a CRC-like update, different initial values give different checksums of the same data |
| `Crc.SingleByteChangeDetected` | test_unit.c:225-232 | with a CRC-like update, equal-length data differing in exactly one byte give different checksums |
| `Crc.SpotChecks` | test_unit.c:225-240 | with a CRC-like update, crc16 of 0x00 differs from that of 0x01, and 0x41 from inits 0x0000 and 0xFFFF differ |
| `IntelHex.DecodePairs` | test_unit.c:280-297 | decoding succeeds exactly when the digit count is even and every character passes validate_nibble; it yields half as many bytes |
| `IntelHex.DecodePairsUpperCase` | test_unit.c:280-297 | decoded text is, once upper-cased, exactly the text its bytes encode to, so the bytes are the ones the digits spell |
| `IntelHex.EncodePairs` | test_unit.c:280-297 | describes how the tests' hex file is written (the program only reads hex): two valid hex digits per byte |
| `IntelHex.PairsRoundTrip` | test_unit.c:280-297 | hex text written from bytes decodes back to those bytes |
| `IntelHex.ChecksumByte` | test_unit.c:280-297 | the checksum byte makes the record's byte sum a multiple of 256 |
| `IntelHex.ParseLine` | test_unit.c:280-297 | an accepted line yields a record with a 16-bit address and fewer than 256 data bytes, and is 11 + 2 * data length characters long |
| `IntelHex.ParseLineSound` | test_unit.c:280-297 | an accepted line starts with ':' and its digits spell exactly the record's bytes followed by the correct checksum |
| `IntelHex.LineRoundTrip` | test_unit.c:280-297 | every well-formed record written as a line parses back to itself |
| `IntelHex.Lines` | test_unit.c:280-297 | describes how the tests' hex file is written (the program only reads hex): one encoded line per record, in order |
| `IntelHex.DataRecords` | test_unit.c:280-297 | a decoded file yields only well-formed data records (type 00) |
| `IntelHex.DataRecordsRejects` | test_unit.c:280-297 | a line that fails to parse, or under `strict` holds a type other than 00 and 01, rejects the file when no end-of-file record comes before it |
| `IntelHex.DataRecordsRejectedAt` | test_unit.c:280-297 | conversely, a rejected file has such a line before its first end-of-file record |
| `IntelHex.DataRecordsSkipsOther` | test_unit.c:280-297 | without `strict`, a record of another type is skipped |
| `IntelHex.FileRoundTrip` | test_unit.c:280-297 | data records written as lines and then an end-of-file record read back as exactly those records, whatever follows |
| `Firmware.DeviceGeometry` | test_unit.c:282-286 | the unknown device has no geometry; the ATmega328P has image size 0x7000 and block length 128 |
| `Firmware.Serialize` | test_unit.c:259-275 | a stored block is 4 + payload bytes: the number BE16, the payload length BE16, then the payload |
| `Firmware.Eq3Blocks` | test_unit.c:252-275 | a decoded eq3 file has no blocks exactly when it is empty; ordering, verbatim storage and round trip are stated by the three lemmas below |
| `Firmware.Eq3BlocksOrdered` | test_unit.c:252-275 | decoded eq3 blocks have 16-bit numbers and lengths, and the numbers never decrease |
| `Firmware.Eq3Verbatim` | test_unit.c:252-275 | the stored blocks of a decoded eq3 file, laid end to end, are the file itself |
| `Firmware.Eq3RoundTrip` | test_unit.c:252-275 | every ascending sequence of representable blocks decodes back from its stored form |
| `Firmware.ReadEq3` | test_unit.c:254-257 | the record loop returns exactly the eq3 decoding of the file, errors included |
| `Firmware.Fill` | test_unit.c:298-299 | the fresh image has image_size bytes, all 0xFF |
| `Firmware.Write` | test_unit.c:293-297 | copying a record sets exactly the bytes it covers to its data and keeps every other byte |
| `Firmware.LoadImage` | test_unit.c:280-299 | loading succeeds exactly when every record fits inside the image; otherwise the error is AddressOutOfRange; the image size is kept |
| `Firmware.LoadKeepsUncovered` | test_unit.c:298-299 | a byte no record covers keeps its initial value (0xFF in a fresh image) |
| `Firmware.LoadLastWriteWins` | test_unit.c:293-297 | a byte holds the data of the last record that covers it |
| `Firmware.Chunk` | test_unit.c:285-292 | the image is cut into image_size / block_length blocks, rounded up; their layout and contents are stated by `Firmware.ChunkLayout` and `Firmware.ChunkPosition` |
| `Firmware.BlockCountBounds` | test_unit.c:285-292 | rounding up gives just enough blocks to hold the image, and one fewer would not |
| `Firmware.ChunkLayout` | test_unit.c:285-292 | just enough blocks to hold the image; block i is numbered i and has exactly block_length bytes; bytes past the image are 0xFF |
| `Firmware.ChunkPosition` | test_unit.c:288-297 | image byte k is byte k % block_length of block k / block_length |
| `Firmware.HexBlocks` | test_unit.c:280-299 | the hex path succeeds exactly when the lines up to end-of-file are accepted and every data record fits in the image, and then yields image_size / block_length blocks, rounded up |
| `Firmware.HexBlockContents` | test_unit.c:280-299 | in a decoded hex file, each image byte sits in its block position and is 0xFF if no data record wrote it, otherwise the last writer's byte |
| `Firmware.CopyRecord` | test_unit.c:293-297 | the copy loop leaves the array equal to the old image with the record written |
| `Firmware.NewErasedImage` | test_unit.c:298-299 | a freshly allocated array of image_size bytes, all 0xFF |
| `Firmware.BuildImage` | test_unit.c:280-299 | the fill-and-copy loops succeed exactly when loading succeeds, give the same error, and produce the loaded image |
| `Firmware.ChunkImage` | test_unit.c:285-292 | the slicing loop returns exactly the chunked image |
| `Firmware.ReadHex` | test_unit.c:280-301 | the hex path returns exactly the hex decoding of the lines, errors included |
| `Firmware.SplitLines` | test_unit.c:282 | the lines of a text are non-empty and contain no CR or LF |
| `Firmware.SplitJoin` | test_unit.c:282 | splitting LF-terminated lines gives back those lines |
| `Firmware.FirmwareBlocks` | test_unit.c:252-301 | a known device yields image_size / block_length blocks, rounded up; the unknown device yields no blocks exactly for an empty file |
| `Firmware.ReadFirmware` | test_unit.c:252-301 | the unknown device selects the eq3 path and the ATmega328P the hex path; the result is exactly their decoding |
| `Firmware.Eq3TwoRecordFile` | test_unit.c:252-278 | the two-record eq3 file (block 0: DE AD BE EF, block 1: CA FE) decodes to exactly two blocks stored as 00 00 00 04 DE AD BE EF and 00 01 00 02 CA FE |
| `Firmware.Atmega328PHexFile` | test_unit.c:280-299 | a hex file with DE AD BE EF at address 0 and an end-of-file record gives 224 blocks of 128 bytes; block 0 is stored as 00 00 00 80 DE AD BE EF FF ... |
| `Firmware.Atmega328PHexText` | test_unit.c:280-299 | the same holds for that file as LF-separated text passed with the ATmega328P device |
| `Firmware.Atmega328PImage` | test_unit.c:285-299 | the 0x7000-byte image with that record cuts into 224 blocks, the first stored as 00 00 00 80 DE AD BE EF FF ... |

## Left out

- The test driver itself (the `TEST` macro, the pass counters, `printf`): reporting only.
- Opening and reading files in `firmware_read_firmware`: the model decodes the file's content as
  an in-memory byte sequence. Splitting Intel HEX text into lines (CR and LF both end a line,
  blank lines are skipped) is this model's choice of reader.
- `malloc`, `free`, `firmware_free` and the freeing of a zero-block result: memory management
  has no behaviour to state here. The block list is returned as a value (`seq<Block>`), not as
  an array of heap buffers.
- The `debug` argument of `firmware_read_firmware`: this model assumes that it only controls
  logging, since no assertion depends on it.
- Crc.Crc16: the CRC polynomial and the value of `CRC16_INIT` are not part of this model. The
  per-byte update and the initial value are parameters. Inequality of checksums is proved only
  for updates that are injective in the register and in the byte, as every CRC register
  update is.
- Device profiles other than the ATmega328P and the unknown device are not part of this model.
- Intel HEX record types other than 00 and 01 (such as extended address records) are not
  interpreted: they are errors when `strict` and skipped otherwise.
- Block numbers and lengths above 0xFFFF keep only their low 16 bits when stored, as a
  `uint8_t` header byte does. No device in the table produces more than 65536 blocks.
- Protocol meaning of MSGID, CTL and TYPE values: only their offsets are modelled.
