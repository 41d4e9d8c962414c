/** The packet field codec of hm.h: a protocol packet is a byte buffer with fixed fields. The
    header occupies offsets 0-3 (LEN, MSGID, CTL, TYPE), two 24-bit big-endian addresses follow
    (SRC at 4-6, DST at 7-9) and the payload starts at offset 10. The readers are functions of the
    buffer's bytes; the setters write the caller's array in place. */
module Packet {
  import opened Bytes

  const LEN: nat := 0x00
  const MSGID: nat := 0x01
  const CTL: nat := 0x02
  const TYPE: nat := 0x03
  const SRC_OFFSET: nat := 0x04
  const DST_OFFSET: nat := 0x07
  const PAYLOAD: nat := 0x0a

  /** The header bytes after LEN that the protocol's length byte counts besides the payload. */
  const HEADER_COUNTED: nat := 9

  /** The named fields of a packet and the bytes each occupies. */
  datatype Field = Len | MsgId | Ctl | Type | Src | Dst

  function Offset(f: Field): nat
  {
    match f
    case Len => LEN
    case MsgId => MSGID
    case Ctl => CTL
    case Type => TYPE
    case Src => SRC_OFFSET
    case Dst => DST_OFFSET
  }

  function Width(f: Field): nat
  {
    if f == Src || f == Dst then 3 else 1
  }

  predicate Occupies(f: Field, i: nat) { Offset(f) <= i < Offset(f) + Width(f) }

  /** The field that owns header byte `i`: the fields tile the bytes before PAYLOAD, so every
      header byte belongs to exactly one of them. */
  function FieldAt(i: nat): (f: Field)
    requires i < PAYLOAD
    ensures Occupies(f, i)
    ensures forall g :: Occupies(g, i) ==> g == f
  {
    if i == LEN then Len else if i == MSGID then MsgId else if i == CTL then Ctl
    else if i == TYPE then Type else if i < DST_OFFSET then Src else Dst
  }

  /** No field reaches into the payload, which starts at offset 10. */
  lemma {:induction false} FieldsPrecedePayload()
    ensures forall f :: Offset(f) + Width(f) <= PAYLOAD
    ensures PAYLOAD == 0x0a
  {
  }

  /** The 24-bit big-endian value stored at `off`. */
  function Get24(buf: seq<byte>, off: nat): (v: nat)
    requires off + 3 <= |buf|
    ensures v < 0x100_0000
  {
    buf[off] as int * 0x1_0000 + buf[off + 1] as int * 0x100 + buf[off + 2] as int
  }

  /** `buf` with `(v >> 16) & 0xff, (v >> 8) & 0xff, v & 0xff` stored at `off`. */
  function Put24(buf: seq<byte>, off: nat, v: nat): (r: seq<byte>)
    requires off + 3 <= |buf|
    ensures |r| == |buf|
    ensures forall i :: 0 <= i < |buf| && !(off <= i < off + 3) ==> r[i] == buf[i]
  {
    buf[off := ((v / 0x1_0000) % 0x100) as byte]
       [off + 1 := ((v / 0x100) % 0x100) as byte]
       [off + 2 := (v % 0x100) as byte]
  }

  /** Reading a 24-bit field returns what was written, truncated to 24 bits. */
  lemma {:induction false} Get24Put24(buf: seq<byte>, off: nat, v: nat)
    requires off + 3 <= |buf|
    ensures Get24(Put24(buf, off, v), off) == v % 0x100_0000
  {
    var r := Put24(buf, off, v);
    var a, b, c := (v / 0x1_0000) % 0x100, (v / 0x100) % 0x100, v % 0x100;
    assert r[off] as int == a && r[off + 1] as int == b && r[off + 2] as int == c;
    var w := v % 0x100_0000;
    assert a == w / 0x1_0000 && b == (w / 0x100) % 0x100 && c == w % 0x100 by {
      DigitsOf24(v);
    }
    assert w == (w / 0x1_0000) * 0x1_0000 + ((w / 0x100) % 0x100) * 0x100 + w % 0x100 by {
      Recombine24(w);
    }
  }

  lemma {:induction false} DigitsOf24(v: nat)
    ensures (v / 0x1_0000) % 0x100 == (v % 0x100_0000) / 0x1_0000
    ensures (v / 0x100) % 0x100 == ((v % 0x100_0000) / 0x100) % 0x100
    ensures v % 0x100 == (v % 0x100_0000) % 0x100
  {
    var q, w := v / 0x100_0000, v % 0x100_0000;
    var hi, low16 := w / 0x1_0000, w % 0x1_0000;
    DivMod16(v, q * 0x100 + hi, low16);
    DivMod8(q * 0x100 + hi, q, hi);
    var mid, low8 := w / 0x100, w % 0x100;
    DivMod8(v, q * 0x1_0000 + mid, low8);
    DivMod8(q * 0x1_0000 + mid, q * 0x100 + mid / 0x100, mid % 0x100);
  }

  lemma {:induction false} Recombine24(w: nat)
    requires w < 0x100_0000
    ensures w == (w / 0x1_0000) * 0x1_0000 + ((w / 0x100) % 0x100) * 0x100 + w % 0x100
  {
    var h := w / 0x100;
    DivMod16(w, h / 0x100, (h % 0x100) * 0x100 + w % 0x100);
  }

  /** `SRC(buf)` */
  function SrcOf(buf: seq<byte>): (v: nat)
    requires |buf| >= PAYLOAD
    ensures v < 0x100_0000
  {
    Get24(buf, SRC_OFFSET)
  }

  /** `DST(buf)` */
  function DstOf(buf: seq<byte>): (v: nat)
    requires |buf| >= PAYLOAD
    ensures v < 0x100_0000
  {
    Get24(buf, DST_OFFSET)
  }

  /** The bytes after `SET_SRC(buf, v)`: only the three SRC bytes change. */
  function WithSrc(buf: seq<byte>, v: nat): (r: seq<byte>)
    requires |buf| >= PAYLOAD
    ensures |r| == |buf|
    ensures forall i :: 0 <= i < |buf| && !Occupies(Src, i) ==> r[i] == buf[i]
  {
    Put24(buf, SRC_OFFSET, v)
  }

  /** The bytes after `SET_DST(buf, v)`: only the three DST bytes change. */
  function WithDst(buf: seq<byte>, v: nat): (r: seq<byte>)
    requires |buf| >= PAYLOAD
    ensures |r| == |buf|
    ensures forall i :: 0 <= i < |buf| && !Occupies(Dst, i) ==> r[i] == buf[i]
  {
    Put24(buf, DST_OFFSET, v)
  }

  /** Writing SRC makes SRC read back the written 24-bit value and leaves DST, and every byte
      outside offsets 4-6, as it was. */
  lemma {:induction false} SrcWriteRead(buf: seq<byte>, v: nat)
    requires |buf| >= PAYLOAD
    ensures |WithSrc(buf, v)| == |buf|
    ensures SrcOf(WithSrc(buf, v)) == v % 0x100_0000
    ensures DstOf(WithSrc(buf, v)) == DstOf(buf)
  {
    Get24Put24(buf, SRC_OFFSET, v);
  }

  /** Writing DST makes DST read back the written 24-bit value and leaves SRC as it was. */
  lemma {:induction false} DstWriteRead(buf: seq<byte>, v: nat)
    requires |buf| >= PAYLOAD
    ensures |WithDst(buf, v)| == |buf|
    ensures DstOf(WithDst(buf, v)) == v % 0x100_0000
    ensures SrcOf(WithDst(buf, v)) == SrcOf(buf)
  {
    Get24Put24(buf, DST_OFFSET, v);
  }

  /** Setting both addresses, in either order, leaves each readable exactly as last written. */
  lemma {:induction false} SrcDstIndependent(buf: seq<byte>, s: nat, d: nat)
    requires |buf| >= PAYLOAD
    ensures SrcOf(WithDst(WithSrc(buf, s), d)) == s % 0x100_0000
    ensures DstOf(WithDst(WithSrc(buf, s), d)) == d % 0x100_0000
    ensures SrcOf(WithSrc(WithDst(buf, d), s)) == s % 0x100_0000
    ensures DstOf(WithSrc(WithDst(buf, d), s)) == d % 0x100_0000
  {
    SrcWriteRead(buf, s);
    DstWriteRead(WithSrc(buf, s), d);
    DstWriteRead(buf, d);
    SrcWriteRead(WithDst(buf, d), s);
  }

  /** `SET_SRC(buf, v)` */
  method SetSrc(buf: array<byte>, v: nat)
    requires buf.Length >= PAYLOAD
    modifies buf
    ensures buf[..] == WithSrc(old(buf[..]), v)
    ensures SrcOf(buf[..]) == v % 0x100_0000
    ensures DstOf(buf[..]) == DstOf(old(buf[..]))
  {
    ghost var before := buf[..];
    buf[SRC_OFFSET] := ((v / 0x1_0000) % 0x100) as byte;
    buf[SRC_OFFSET + 1] := ((v / 0x100) % 0x100) as byte;
    buf[SRC_OFFSET + 2] := (v % 0x100) as byte;
    SrcWriteRead(before, v);
  }

  /** `SET_DST(buf, v)` */
  method SetDst(buf: array<byte>, v: nat)
    requires buf.Length >= PAYLOAD
    modifies buf
    ensures buf[..] == WithDst(old(buf[..]), v)
    ensures DstOf(buf[..]) == v % 0x100_0000
    ensures SrcOf(buf[..]) == SrcOf(old(buf[..]))
  {
    ghost var before := buf[..];
    buf[DST_OFFSET] := ((v / 0x1_0000) % 0x100) as byte;
    buf[DST_OFFSET + 1] := ((v / 0x100) % 0x100) as byte;
    buf[DST_OFFSET + 2] := (v % 0x100) as byte;
    DstWriteRead(before, v);
  }

  /** `PAYLOADLEN(buf)`: the length byte less the nine counted header bytes, computed in `int`
      after promotion of the `uint8_t`, so a length byte below 9 gives a negative value. */
  function PayloadLen(buf: seq<byte>): (n: int)
    requires |buf| >= PAYLOAD
    ensures -(HEADER_COUNTED as int) <= n < 256 - HEADER_COUNTED
  {
    buf[LEN] as int - HEADER_COUNTED
  }

  /** The bytes after `SET_LEN_FROM_PAYLOADLEN(buf, n)`: `n + 9` stored into the `uint8_t`
      length byte, hence reduced modulo 256: reading the payload length back gives `n` wrapped
      into the range -9..246, and no other byte changes. */
  function WithPayloadLen(buf: seq<byte>, n: int): (r: seq<byte>)
    requires |buf| >= PAYLOAD
    ensures |r| == |buf|
    ensures PayloadLen(r) == (n + HEADER_COUNTED) % 256 - HEADER_COUNTED
    ensures forall i :: 0 <= i < |buf| && i != LEN ==> r[i] == buf[i]
  {
    buf[LEN := ((n + HEADER_COUNTED) % 256) as byte]
  }

  /** For every payload length that fits the length byte, setting it and reading it back
      agree, the length byte holds `n + 9`, and no other byte changes. */
  lemma {:induction false} PayloadLenRoundTrip(buf: seq<byte>, n: int)
    requires |buf| >= PAYLOAD
    requires 0 <= n <= 255 - HEADER_COUNTED
    ensures WithPayloadLen(buf, n)[LEN] as int == n + HEADER_COUNTED
    ensures PayloadLen(WithPayloadLen(buf, n)) == n
    ensures forall i :: 0 <= i < |buf| && i != LEN ==> WithPayloadLen(buf, n)[i] == buf[i]
  {
  }

  /** `SET_LEN_FROM_PAYLOADLEN(buf, n)` */
  method SetLenFromPayloadLen(buf: array<byte>, n: int)
    requires buf.Length >= PAYLOAD
    modifies buf
    ensures buf[..] == WithPayloadLen(old(buf[..]), n)
    ensures 0 <= n <= 255 - HEADER_COUNTED ==> PayloadLen(buf[..]) == n
  {
    buf[LEN] := ((n + HEADER_COUNTED) % 256) as byte;
  }

  /** The values the unit tests write: SRC/DST 0x123456/0xABCDEF, zero over an all-0xFF buffer,
      0xFFFFFF, and payload lengths 0, 10 and 37 (length bytes 9, 19 and 46). */
  lemma {:induction false} UnitTestValues(buf: seq<byte>)
    requires |buf| >= PAYLOAD
    ensures SrcOf(WithDst(WithSrc(buf, 0x123456), 0xABCDEF)) == 0x123456
    ensures DstOf(WithDst(WithSrc(buf, 0x123456), 0xABCDEF)) == 0xABCDEF
    ensures SrcOf(WithDst(WithSrc(buf, 0), 0)) == 0 && DstOf(WithDst(WithSrc(buf, 0), 0)) == 0
    ensures SrcOf(WithDst(WithSrc(buf, 0xFFFFFF), 0xFFFFFF)) == 0xFFFFFF
    ensures DstOf(WithDst(WithSrc(buf, 0xFFFFFF), 0xFFFFFF)) == 0xFFFFFF
    ensures WithPayloadLen(buf, 0)[LEN] == 9 && WithPayloadLen(buf, 10)[LEN] == 19
    ensures WithPayloadLen(buf, 37)[LEN] == 46
  {
    SrcDstIndependent(buf, 0x123456, 0xABCDEF);
    SrcDstIndependent(buf, 0, 0);
    SrcDstIndependent(buf, 0xFFFFFF, 0xFFFFFF);
  }
}
