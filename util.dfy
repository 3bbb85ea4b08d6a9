/**
 * The buffer helpers of lib/tpm2_util.c and lib/tpm2_util.h: appending to
 * a TPM2B_MAX_BUFFER, the unique field of an imported object (the digest
 * of seed and key), and the PCR select-bit test.
 */
module Util {
  import opened Wrappers
  import opened Bytes
  import opened Endian

  /** TPM2_MAX_DIGEST_BUFFER, the capacity of a TPM2B_MAX_BUFFER. */
  const TPM2_MAX_DIGEST_BUFFER: nat := 1024

  /** A TPM2B_MAX_BUFFER: a size and a fixed buffer whose first size bytes are the value. */
  class MaxBuffer {
    var size: nat
    const buffer: array<u8>

    ghost predicate Valid()
      reads this
    {
      buffer.Length == TPM2_MAX_DIGEST_BUFFER && size <= buffer.Length
    }

    /** The value held. */
    function Contents(): (r: seq<u8>)
      reads this, buffer
      requires Valid()
      ensures |r| == size
    {
      buffer[..size]
    }

    /** An empty buffer. */
    constructor ()
      ensures Valid() && Contents() == []
    {
      size := 0;
      buffer := new u8[TPM2_MAX_DIGEST_BUFFER];
    }
  }

  /**
   * tpm2_util_concat_buffer.  A NULL argument is None (for append) or null
   * (for result).  The append succeeds exactly when both are present and
   * the sum of the sizes fits TPM2_MAX_DIGEST_BUFFER; then result holds its
   * old value followed by append's, and otherwise it is left as it was.
   * The sum is of two UINT16 promoted to int, so the wrap-around guard of
   * the source never fires and is not modelled.
   */
  method ConcatBuffer(result: MaxBuffer?, append: Option<seq<u8>>) returns (ok: bool)
    requires result != null ==> result.Valid()
    modifies if result == null then {} else {result, result.buffer}
    ensures result != null ==> result.Valid()
    ensures ok <==> result != null && append.Some? && old(result.size) + |append.value| <= TPM2_MAX_DIGEST_BUFFER
    ensures ok ==> result.Contents() == old(result.Contents()) + append.value
    ensures !ok && result != null ==> result.size == old(result.size) && result.buffer[..] == old(result.buffer[..])
  {
    if result == null || append.None? {
      return false;
    }
    var a := append.value;
    if result.size + |a| > TPM2_MAX_DIGEST_BUFFER {
      return false;
    }
    var at := result.size;
    forall k | 0 <= k < |a| {
      result.buffer[at + k] := a[k];
    }
    result.size := result.size + |a|;
    assert result.Contents() == old(result.Contents()) + a by {
      assert result.buffer[..at] == old(result.buffer[..at]);
    }
    return true;
  }

  /**
   * tpm2_util_calc_unique: the unique field of an object is the digest,
   * under its name algorithm, of the seed followed by the key.  The
   * digester is looked up by algorithm (None: no digester), and the
   * digest size by algorithm; the old unique buffer is overwritten at its
   * start.  None is the false return, with unique untouched.
   */
  function CalcUnique(
    nameAlg: u16, key: seq<u8>, seed: seq<u8>,
    digesterOf: u16 -> Option<seq<u8> -> seq<u8>>, hashSize: u16 -> nat,
    unique: Tpm2b): (r: Option<Tpm2b>)
    requires |key| + |seed| <= UINT16_MAX
    ensures r.Some? <==> |key| + |seed| <= TPM2_MAX_DIGEST_BUFFER && digesterOf(nameAlg).Some?
    ensures r.Some? ==>
      && r.value.size == hashSize(nameAlg)
      && r.value.buffer == Overlay(unique.buffer, digesterOf(nameAlg).value(seed + key))
  {
    var size := |key| + |seed|;
    if size > TPM2_MAX_DIGEST_BUFFER then None
    else
      var buf := OverlayAt(Overlay(Zeros(TPM2_MAX_DIGEST_BUFFER), seed), |seed|, key);
      assert buf[..size] == seed + key by {
        assert buf[..|seed|] == seed;
      }
      match digesterOf(nameAlg)
      case None => None
      case Some(d) => Some(Tpm2b(hashSize(nameAlg), Overlay(unique.buffer, d(buf[..size]))))
  }

  /**
   * tpm2_util_is_pcr_select_bit_set: the bit pcr % 8 of byte pcr / 8 of the
   * selection bitmap, tested with a mask.
   */
  function IsPcrSelectBitSet(pcrSelect: seq<u8>, pcr: nat): (r: bool)
    requires pcr / 8 < |pcrSelect|
    ensures r <==> (pcrSelect[pcr / 8] / Pow2(pcr % 8)) % 2 == 1
  {
    MaskBit(pcrSelect[pcr / 8], pcr % 8);
    (pcrSelect[pcr / 8] as bv8) & ((1 as bv8) << (pcr % 8)) != 0
  }

  /** The mask test reads bit k of the byte. */
  lemma MaskBit(b: u8, k: nat)
    requires k < 8
    ensures ((b as bv8) & ((1 as bv8) << k) != 0) <==> (b / Pow2(k)) % 2 == 1
  {
    if k < 4 {
      LowMaskBit(b, k);
    } else {
      HighMaskBit(b, k);
    }
  }

  /** The masks of the low nibble. */
  lemma LowMaskBit(b: u8, k: nat)
    requires 0 <= k <= 3
    ensures ((b as bv8) & ((1 as bv8) << k) != 0) <==> (b / Pow2(k)) % 2 == 1
  {
    assert Pow2(3) == 8;
    if k == 0 {
      assert (1 as bv8) << k == 0x1;
    } else if k == 1 {
      assert (1 as bv8) << k == 0x2;
    } else if k == 2 {
      assert (1 as bv8) << k == 0x4;
    } else {
      assert (1 as bv8) << k == 0x8;
    }
  }

  /** The masks of the high nibble. */
  lemma HighMaskBit(b: u8, k: nat)
    requires 4 <= k <= 7
    ensures ((b as bv8) & ((1 as bv8) << k) != 0) <==> (b / Pow2(k)) % 2 == 1
  {
    assert Pow2(7) == 128;
    if k == 4 {
      assert (1 as bv8) << k == 0x10;
    } else if k == 5 {
      assert (1 as bv8) << k == 0x20;
    } else if k == 6 {
      assert (1 as bv8) << k == 0x40;
    } else {
      assert (1 as bv8) << k == 0x80;
    }
  }

  /**
   * A reference encoding of a set of PCR indices as a selection bitmap of
   * n bytes: bit k of byte i stands for PCR 8 * i + k.
   */
  function PcrBitmap(pcrs: set<nat>, n: nat): (r: seq<u8>)
    ensures |r| == n
  {
    seq(n, i requires 0 <= i < n => SelectByte(pcrs, 8 * i, 8))
  }

  /** The byte whose bit j stands for PCR base + j, for j < k. */
  function SelectByte(pcrs: set<nat>, base: nat, k: nat): (r: nat)
    ensures r < Pow2(k)
    decreases k
  {
    if k == 0 then 0 else (if base in pcrs then 1 else 0) + 2 * SelectByte(pcrs, base + 1, k - 1)
  }

  /** Dropping a low bit: (a + 2r) / 2p == r / p. */
  lemma DivTwice(a: nat, r: nat, p: nat)
    requires a < 2 && p > 0
    ensures (a + 2 * r) / (2 * p) == r / p
  {
    var q := r / p;
    var m := r % p;
    assert r == p * q + m;
    assert a + 2 * r == (2 * p) * q + (2 * m + a);
    DivUnique(a + 2 * r, 2 * p, q, 2 * m + a);
  }

  /** The quotient is the only q with x == d * q + rem and 0 <= rem < d. */
  lemma DivUnique(x: int, d: int, q: int, rem: int)
    requires d > 0 && x == d * q + rem && 0 <= rem < d
    ensures x / d == q
  {
    var t := x / d - q;
    assert d * (x / d) + x % d == x;
    assert d * t == rem - x % d by {
      assert d * t == d * (x / d) - d * q;
    }
  }

  lemma {:induction false} SelectByteBit(pcrs: set<nat>, base: nat, k: nat, j: nat)
    requires j < k
    ensures (SelectByte(pcrs, base, k) / Pow2(j)) % 2 == 1 <==> base + j in pcrs
    decreases j
  {
    var bit := if base in pcrs then 1 else 0;
    var rest := SelectByte(pcrs, base + 1, k - 1);
    assert SelectByte(pcrs, base, k) == bit + 2 * rest;
    if j == 0 {
      assert Pow2(0) == 1;
      assert (bit + 2 * rest) % 2 == bit;
    } else {
      SelectByteBit(pcrs, base + 1, k - 1, j - 1);
      assert Pow2(j) == 2 * Pow2(j - 1);
      DivTwice(bit, rest, Pow2(j - 1));
      assert (bit + 2 * rest) / Pow2(j) == rest / Pow2(j - 1);
    }
  }

  /** The bit test finds exactly the PCRs the reference encoding selects. */
  lemma PcrBitmapSelects(pcrs: set<nat>, n: nat, pcr: nat)
    requires pcr / 8 < n
    ensures IsPcrSelectBitSet(PcrBitmap(pcrs, n), pcr) <==> pcr in pcrs
  {
    var i, k := pcr / 8, pcr % 8;
    assert 8 * i + k == pcr;
    var bitmap := PcrBitmap(pcrs, n);
    assert bitmap[i] == SelectByte(pcrs, 8 * i, 8);
    SelectByteBit(pcrs, 8 * i, 8, k);
  }
}
