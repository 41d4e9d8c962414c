/** The nibble codec of util.c: one ASCII hex digit to and from a 4-bit value, and the validity
    test that callers apply before trusting a conversion. */
module Nibble {
  import opened Bytes

  /** The upper-case digit table that `nibble_to_ascii` indexes. */
  const HEX_UPPER: seq<byte> := Ascii("0123456789ABCDEF")

  predicate IsDigit(c: byte) { '0' as int <= c as int <= '9' as int }
  predicate IsUpperHex(c: byte) { 'A' as int <= c as int <= 'F' as int }
  predicate IsLowerHex(c: byte) { 'a' as int <= c as int <= 'f' as int }

  /** `validate_nibble`: exactly the 22 characters 0-9, A-F and a-f are hex digits. Case does not
      matter: a byte is a hex digit exactly when its upper-case form is 0-9 or A-F. */
  predicate ValidateNibble(c: byte): (ok: bool)
    ensures ok <==> IsDigit(UpperCase(c)) || IsUpperHex(UpperCase(c))
  {
    IsDigit(c) || IsUpperHex(c) || IsLowerHex(c)
  }

  /** A lower-case hex letter in upper case; every other byte unchanged. */
  function UpperCase(c: byte): byte
  {
    if IsLowerHex(c) then c - 32 else c
  }

  /** `ascii_to_nibble`: the position of a hex digit in the upper-case table, ignoring case; any
      byte that is not a hex digit folds silently to 0. */
  function AsciiToNibble(c: byte): (n: byte)
    ensures n < 16
    ensures !ValidateNibble(c) ==> n == 0
  {
    if IsDigit(c) then c - '0' as int as byte
    else if IsUpperHex(c) then c - 'A' as int as byte + 10
    else if IsLowerHex(c) then c - 'a' as int as byte + 10
    else 0
  }

  /** `nibble_to_ascii`: the upper-case digit for the low four bits of `n` (`n & 0xf`). */
  function NibbleToAscii(n: byte): (c: byte)
    ensures ValidateNibble(c) && !IsLowerHex(c)
  {
    var k := n % 16;
    if k < 10 then '0' as int as byte + k else 'A' as int as byte + (k - 10)
  }

  /** A hex digit of either case converts to its position in the upper-case table. */
  lemma {:induction false} AsciiToNibbleIsTablePosition(c: byte)
    requires ValidateNibble(c)
    ensures HEX_UPPER[AsciiToNibble(c)] == UpperCase(c)
  {
  }

  /** `nibble_to_ascii` is a lookup of the low four bits in the upper-case table. */
  lemma {:induction false} NibbleToAsciiIsTableLookup(n: byte)
    ensures NibbleToAscii(n) == HEX_UPPER[n % 16]
  {
  }

  /** Nibble to character and back is the identity on 0..15. */
  lemma {:induction false} NibbleRoundTrip(n: byte)
    requires n < 16
    ensures AsciiToNibble(NibbleToAscii(n)) == n
  {
  }

  /** Character to nibble and back gives the character, in upper case, for every hex digit. */
  lemma {:induction false} AsciiRoundTrip(c: byte)
    requires ValidateNibble(c)
    ensures NibbleToAscii(AsciiToNibble(c)) == UpperCase(c)
  {
  }

  /** The unit tests' table: the ends of each digit range are accepted and convert to their
      values; the bytes just outside each range, and the other non-digits the tests name, are
      rejected and convert to 0. */
  lemma {:induction false} ValidateNibbleTable()
    ensures forall c: byte :: c as int in {'0' as int, '9' as int, 'A' as int, 'F' as int, 'a' as int, 'f' as int} ==>
      ValidateNibble(c)
    ensures AsciiToNibble('5' as int as byte) == 5 && AsciiToNibble('B' as int as byte) == 11
    ensures AsciiToNibble('c' as int as byte) == 12 && AsciiToNibble('f' as int as byte) == 15
    ensures forall c: byte :: c as int in {0x00, 0xFF, '/' as int, ':' as int, '@' as int, 'G' as int, '`' as int, 'g' as int, ' ' as int, 'z' as int} ==>
      !ValidateNibble(c) && AsciiToNibble(c) == 0
    ensures NibbleToAscii(0x10) == '0' as int as byte && NibbleToAscii(0x1A) == 'A' as int as byte
    ensures NibbleToAscii(0xFF) == 'F' as int as byte
  {
  }
}
