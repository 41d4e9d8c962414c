/** The CRC16 accumulator of firmware.c: `crc16(data, length, init)` folds a per-byte update over
    the first `length` bytes of a caller-owned buffer, starting from `init`. The polynomial is not
    part of this model, so the per-byte update is a parameter; the properties below hold for every
    update, or for every update that is injective in the way a CRC register update is. */
module Crc {
  import opened Bytes

  /** A `uint16_t` accumulator. */
  newtype word16 = x: int | 0 <= x < 0x1_0000

  /** The per-byte update of the accumulator. */
  type Step = (word16, byte) -> word16

  /** The accumulator after folding `step` over `data` from left to right, starting at `init`. */
  function Checksum(step: Step, data: seq<byte>, init: word16): word16
    decreases |data|
  {
    if |data| == 0 then init else step(Checksum(step, data[..|data| - 1], init), data[|data| - 1])
  }

  /** For a fixed byte, distinct accumulators stay distinct (a CRC register update is a
      bijection of the register for each input byte). */
  ghost predicate AccInjective(step: Step)
  {
    forall a: word16, b: word16, x: byte :: step(a, x) == step(b, x) ==> a == b
  }

  /** From a fixed accumulator, distinct bytes lead to distinct accumulators. */
  ghost predicate ByteInjective(step: Step)
  {
    forall a: word16, x: byte, y: byte :: step(a, x) == step(a, y) ==> x == y
  }

  /** `crc16(data, len, init)`. It has no `modifies` clause, so the buffer cannot change; the
      result is the fold of the update over the first `len` bytes, and an empty range gives back
      `init` for every `init`. */
  method Crc16(step: Step, data: array<byte>, len: nat, init: word16) returns (crc: word16)
    requires len <= data.Length
    ensures crc == Checksum(step, data[..len], init)
    ensures len == 0 ==> crc == init
  {
    crc := init;
    var i := 0;
    while i < len
      invariant i <= len
      invariant crc == Checksum(step, data[..i], init)
    {
      assert data[..i + 1][..i] == data[..i];
      crc := step(crc, data[i]);
      i := i + 1;
    }
    assert data[..len] == data[..i];
  }

  /** Continuing a checksum across a buffer boundary: checksumming `a` and then `b` from the
      intermediate value equals checksumming `a + b` in one call. */
  lemma {:induction false} ChecksumAppend(step: Step, a: seq<byte>, b: seq<byte>, init: word16)
    ensures Checksum(step, a + b, init) == Checksum(step, b, Checksum(step, a, init))
    decreases |b|
  {
    if |b| == 0 {
      assert a + b == a;
    } else {
      var n := |b| - 1;
      assert (a + b)[..|a + b| - 1] == a + b[..n];
      assert (a + b)[|a + b| - 1] == b[n];
      ChecksumAppend(step, a, b[..n], init);
    }
  }

  /** With an update that is injective in the accumulator, different initial values give
      different checksums over the same data. */
  lemma {:induction false} ChecksumInitInjective(step: Step, data: seq<byte>, i1: word16, i2: word16)
    requires AccInjective(step)
    requires Checksum(step, data, i1) == Checksum(step, data, i2)
    ensures i1 == i2
    decreases |data|
  {
    if |data| > 0 {
      var n := |data| - 1;
      assert step(Checksum(step, data[..n], i1), data[n]) == step(Checksum(step, data[..n], i2), data[n]);
      ChecksumInitInjective(step, data[..n], i1, i2);
    }
  }

  /** With an update that is a CRC-like bijection, two inputs of equal length that differ in
      exactly one byte always give different checksums from the same initial value. */
  lemma {:induction false} SingleByteChangeDetected(step: Step, a: seq<byte>, b: seq<byte>, j: nat, init: word16)
    requires AccInjective(step) && ByteInjective(step)
    requires |a| == |b| && j < |a| && a[j] != b[j]
    requires forall k :: 0 <= k < |a| && k != j ==> a[k] == b[k]
    ensures Checksum(step, a, init) != Checksum(step, b, init)
  {
    var prefix, rest := a[..j], a[j + 1..];
    assert b[..j] == prefix && b[j + 1..] == rest;
    assert a == (prefix + [a[j]]) + rest && b == (prefix + [b[j]]) + rest;
    ChecksumAppend(step, prefix, [a[j]], init);
    ChecksumAppend(step, prefix, [b[j]], init);
    var ca := Checksum(step, prefix + [a[j]], init);
    var cb := Checksum(step, prefix + [b[j]], init);
    assert [a[j]][..0] == [] && [b[j]][..0] == [];
    assert ca != cb;
    ChecksumAppend(step, prefix + [a[j]], rest, init);
    ChecksumAppend(step, prefix + [b[j]], rest, init);
    if Checksum(step, a, init) == Checksum(step, b, init) {
      ChecksumInitInjective(step, rest, ca, cb);
    }
  }

  /** The unit tests' spot checks hold for every CRC-like update: the single bytes 0x00 and 0x01
      give different checksums, and so do initial values 0x0000 and 0xFFFF over the byte 0x41. */
  lemma {:induction false} SpotChecks(step: Step, init: word16)
    requires AccInjective(step) && ByteInjective(step)
    ensures Checksum(step, [0x00], init) != Checksum(step, [0x01], init)
    ensures Checksum(step, [0x41], 0x0000) != Checksum(step, [0x41], 0xFFFF)
  {
    SingleByteChangeDetected(step, [0x00], [0x01], 0, init);
  }
}
