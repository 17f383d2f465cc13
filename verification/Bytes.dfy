/** Bytes, little-endian words and the bits of a byte. */
module Bytes {
  import opened Words

  type byte = n: nat | n < 256

  /** The 32 bit word at an offset. */
  function U32At(b: seq<byte>, off: nat): (v: nat)
    requires off + 4 <= |b|
    ensures v < WORD32
  {
    b[off] as nat + 0x100 * b[off + 1] as nat + 0x1_0000 * b[off + 2] as nat + 0x100_0000 * b[off + 3] as nat
  }

  /** The 16 bit word at an offset, as the boot loader reads it. */
  function U16At(b: seq<byte>, off: nat): (v: nat)
    requires off + 2 <= |b|
    ensures v < 0x1_0000
  {
    b[off] as nat + 0x100 * b[off + 1] as nat
  }

  function PutU32(b: seq<byte>, off: nat, v: nat): (r: seq<byte>)
    requires off + 4 <= |b|
    ensures |r| == |b|
    ensures forall i :: 0 <= i < |b| && !(off <= i < off + 4) ==> r[i] == b[i]
  {
    var v1 := v / 0x100;
    var v2 := v1 / 0x100;
    b[off := v % 0x100][off + 1 := v1 % 0x100][off + 2 := v2 % 0x100][off + 3 := v2 / 0x100 % 0x100]
  }

  lemma PutGet(b: seq<byte>, off: nat, v: nat)
    requires off + 4 <= |b| && v < WORD32
    ensures U32At(PutU32(b, off, v), off) == v
  {
  }

  lemma PutOther(b: seq<byte>, off: nat, v: nat, off2: nat)
    requires off + 4 <= |b| && off2 + 4 <= |b| && (off2 + 4 <= off || off + 4 <= off2)
    ensures U32At(PutU32(b, off, v), off2) == U32At(b, off2)
  {
  }

  /** The boot loader sees the low half of every word. */
  lemma LowHalf(b: seq<byte>, off: nat)
    requires off + 4 <= |b|
    ensures U16At(b, off) == U32At(b, off) % 0x1_0000
  {
  }

  // ---------------------------------------------------------------- bits

  /** 1<<k */
  function Mask(k: nat): (m: nat)
    ensures m > 0
  {
    if k == 0 then 1 else 2 * Mask(k - 1)
  }

  /** (x & 1<<k) != 0 */
  predicate Bit(x: nat, k: nat)
  {
    if k == 0 then x % 2 == 1 else Bit(x / 2, k - 1)
  }

  /** x | 1<<k */
  function SetBit(x: nat, k: nat): nat { if Bit(x, k) then x else x + Mask(k) }

  /** Setting a bit sets that bit and no other, and stays within as many bits. */
  lemma {:induction false} SetBitBits(x: nat, k: nat, j: nat)
    ensures Bit(SetBit(x, k), j) <==> j == k || Bit(x, j)
    decreases k + j
  {
    if !Bit(x, k) {
      if k == 0 {
        assert (x + 1) / 2 == x / 2;
      } else {
        assert (x + Mask(k)) / 2 == x / 2 + Mask(k - 1) && (x + Mask(k)) % 2 == x % 2;
        if j > 0 { SetBitBits(x / 2, k - 1, j - 1); }
      }
    }
  }

  lemma {:induction false} SetBitFits(x: nat, k: nat, n: nat)
    requires k < n && x < Mask(n)
    ensures SetBit(x, k) < Mask(n)
    decreases n
  {
    assert Mask(n) == 2 * Mask(n - 1);
    if !Bit(x, k) {
      if k == 0 {
        assert x % 2 == 0;
      } else {
        assert x / 2 < Mask(n - 1) && Mask(k) == 2 * Mask(k - 1);
        SetBitFits(x / 2, k - 1, n - 1);
        assert SetBit(x / 2, k - 1) == x / 2 + Mask(k - 1);
      }
    }
  }

  function Zeros(n: nat): (r: seq<byte>)
    ensures |r| == n && forall i :: 0 <= i < n ==> r[i] == 0
  {
    seq(n, i => 0)
  }
}
