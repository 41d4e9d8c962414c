/** Byte-level vocabulary shared by the nibble codec, the packet codec, the checksum and the
    firmware decoder: the unsigned 8-bit byte and the 16-bit big-endian encoding used by block
    headers. */
module Bytes {

  /** An `uint8_t`. */
  newtype byte = x: int | 0 <= x < 256

  /** The two bytes `(n >> 8) & 0xff, n & 0xff` that a block header stores for `n`; only the
      low 16 bits of `n` survive, as in the C code that truncates to `uint8_t`. */
  function Be16(n: nat): (r: seq<byte>)
    ensures |r| == 2
    ensures FromBe16(r[0], r[1]) == n % 0x1_0000
  {
    [((n / 256) % 256) as byte, (n % 256) as byte]
  }

  /** The 16-bit value of a big-endian byte pair. */
  function FromBe16(hi: byte, lo: byte): (n: nat)
    ensures n < 0x1_0000
  {
    hi as int * 256 + lo as int
  }

  /** Writing back the value of a big-endian pair reproduces the pair. */
  lemma {:induction false} Be16OfFromBe16(hi: byte, lo: byte)
    ensures Be16(FromBe16(hi, lo)) == [hi, lo]
  {
    DivMod8(FromBe16(hi, lo), hi as int, lo as int);
  }

  /** Quotient and remainder by 0x100 are the only pair that rebuilds the dividend. */
  lemma {:induction false} DivMod8(x: int, q: int, r: int)
    requires 0 <= r < 0x100 && x == q * 0x100 + r
    ensures x / 0x100 == q && x % 0x100 == r
  {
  }

  /** Quotient and remainder by 0x1_0000 are the only pair that rebuilds the dividend. */
  lemma {:induction false} DivMod16(x: int, q: int, r: int)
    requires 0 <= r < 0x1_0000 && x == q * 0x1_0000 + r
    ensures x / 0x1_0000 == q && x % 0x1_0000 == r
  {
  }

  /** A value that fits in 16 bits reads back unchanged from its big-endian pair. */
  lemma {:induction false} Be16Value(n: nat)
    requires n < 0x1_0000
    ensures FromBe16(Be16(n)[0], Be16(n)[1]) == n
  {
    assert n % 0x1_0000 == n;
  }

  /** The bytes of an ASCII string literal (characters above 255 keep their low byte). */
  function Ascii(s: string): (r: seq<byte>)
    ensures |r| == |s|
    ensures forall i :: 0 <= i < |s| && s[i] as int < 256 ==> r[i] as int == s[i] as int
  {
    seq(|s|, i requires 0 <= i < |s| => (s[i] as int % 256) as byte)
  }

  /** The concatenation of a sequence of byte strings. */
  function Concat(parts: seq<seq<byte>>): (r: seq<byte>)
    decreases |parts|
  {
    if |parts| == 0 then [] else parts[0] + Concat(parts[1..])
  }
}

/** The outcomes of a decode: a value, or the reason the whole decode was abandoned. */
module Failures {

  datatype Option<T> = None | Some(value: T)

  /** Why a firmware decode fails; no partial result ever accompanies an error. */
  datatype Error =
    | MissingStartCode        // a hex line does not begin with ':'
    | BadHexDigit             // a hex line has an odd number of digits or a non-hex character
    | ShortRecord             // a hex line decodes to fewer than the five fixed record bytes
    | LengthMismatch          // the record's byte count disagrees with the line's length
    | BadChecksum             // the bytes of a hex record do not sum to zero modulo 256
    | UnsupportedRecordType   // a record type other than data or end-of-file, in strict mode
    | AddressOutOfRange       // a data record writes outside the device's image
    | TruncatedHeader         // a binary record has fewer than four header bytes left
    | TruncatedData           // a binary record declares more data than the file holds
    | BlockOutOfOrder         // a binary record's block number is below its predecessor's

  datatype Result<T> = Ok(value: T) | Err(error: Error)
}
