/**
 * Fixed-width unsigned integers, their big-endian wire encoding and the
 * layout of a value in host memory.  The TPM marshals every multi-byte
 * integer big-endian; the host stores it in its own byte order, which the
 * model takes as a parameter instead of probing memory.
 */
module Bytes {

  type u8 = x: int | 0 <= x < 0x100
  type u16 = x: int | 0 <= x < 0x1_0000
  type u32 = x: int | 0 <= x < 0x1_0000_0000
  type u64 = x: int | 0 <= x < 0x1_0000_0000_0000_0000

  const UINT8_MAX: int := 0xFF
  const UINT16_MAX: int := 0xFFFF
  const UINT32_MAX: int := 0xFFFF_FFFF

  /** The byte order of the host the tools run on. */
  datatype ByteOrder = BigEndian | LittleEndian

  function Pow256(n: nat): (r: nat)
    ensures r > 0
  {
    if n == 0 then 1 else 256 * Pow256(n - 1)
  }

  /** The n-byte big-endian (network order) encoding of x. */
  function ToBE(x: nat, n: nat): (r: seq<u8>)
    requires x < Pow256(n)
    ensures |r| == n
  {
    if n == 0 then [] else ToBE(x / 256, n - 1) + [x % 256]
  }

  /** The value of a big-endian byte string. */
  function FromBE(s: seq<u8>): nat
  {
    if s == [] then 0 else FromBE(s[..|s| - 1]) * 256 + s[|s| - 1]
  }

  lemma {:induction false} FromBEBound(s: seq<u8>)
    ensures FromBE(s) < Pow256(|s|)
  {
    if s != [] {
      var p := s[..|s| - 1];
      FromBEBound(p);
      assert FromBE(p) <= Pow256(|p|) - 1;
      assert FromBE(p) * 256 <= Pow256(|p|) * 256 - 256;
    }
  }

  /** Decoding an encoding gives the value back. */
  lemma {:induction false} FromToBE(x: nat, n: nat)
    requires x < Pow256(n)
    ensures FromBE(ToBE(x, n)) == x
  {
    if n > 0 {
      var s := ToBE(x, n);
      assert s[..|s| - 1] == ToBE(x / 256, n - 1);
      FromToBE(x / 256, n - 1);
    }
  }

  /** Encoding a decoded string gives the string back. */
  lemma {:induction false} ToFromBE(s: seq<u8>)
    ensures FromBE(s) < Pow256(|s|)
    ensures ToBE(FromBE(s), |s|) == s
  {
    FromBEBound(s);
    if s != [] {
      var p := s[..|s| - 1];
      ToFromBE(p);
      var x := FromBE(s);
      assert x / 256 == FromBE(p);
      assert x % 256 == s[|s| - 1];
      assert ToBE(x, |s|) == ToBE(FromBE(p), |p|) + [s[|s| - 1]];
      assert p + [s[|s| - 1]] == s;
    }
  }

  /** Two equal-width encodings are equal exactly when the values are. */
  lemma ToBEInjective(x: nat, y: nat, n: nat)
    requires x < Pow256(n) && y < Pow256(n)
    ensures ToBE(x, n) == ToBE(y, n) <==> x == y
  {
    if ToBE(x, n) == ToBE(y, n) {
      FromToBE(x, n);
      FromToBE(y, n);
    }
  }

  function Reverse<T>(s: seq<T>): (r: seq<T>)
    ensures |r| == |s|
    ensures forall i :: 0 <= i < |s| ==> r[i] == s[|s| - 1 - i]
  {
    if s == [] then [] else Reverse(s[1..]) + [s[0]]
  }

  lemma ReverseReverse<T>(s: seq<T>)
    ensures Reverse(Reverse(s)) == s
  {
    assert forall i :: 0 <= i < |s| ==> Reverse(Reverse(s))[i] == s[i];
  }

  /** The n bytes of x as they lie in memory on a host of the given order. */
  function ToBytes(order: ByteOrder, x: nat, n: nat): (r: seq<u8>)
    requires x < Pow256(n)
    ensures |r| == n
  {
    match order
    case BigEndian => ToBE(x, n)
    case LittleEndian => Reverse(ToBE(x, n))
  }

  /** The value a host of the given order reads from the bytes in memory. */
  function FromBytes(order: ByteOrder, s: seq<u8>): nat
  {
    match order
    case BigEndian => FromBE(s)
    case LittleEndian => FromBE(Reverse(s))
  }

  lemma FromToBytes(order: ByteOrder, x: nat, n: nat)
    requires x < Pow256(n)
    ensures FromBytes(order, ToBytes(order, x, n)) == x
  {
    FromToBE(x, n);
    ReverseReverse(ToBE(x, n));
  }

  lemma FromBytesBound(order: ByteOrder, s: seq<u8>)
    ensures FromBytes(order, s) < Pow256(|s|)
  {
    FromBEBound(s);
    FromBEBound(Reverse(s));
  }

  /** Reinterpreting chars of a C string as the bytes they occupy. */
  function CharsToBytes(s: string): (r: seq<u8>)
    ensures |r| == |s|
    ensures forall i :: 0 <= i < |s| ==> r[i] == (s[i] as int) % 256
  {
    seq(|s|, i requires 0 <= i < |s| => (s[i] as int) % 256)
  }

  /**
   * A TPM2B sized buffer as the C structures hold it: the size field and
   * the bytes of the buffer, of which the first size are the value.
   */
  datatype Tpm2b = Tpm2b(size: nat, buffer: seq<u8>)

  /** The value of a TPM2B whose size fits its buffer. */
  function Value(b: Tpm2b): (r: seq<u8>)
    requires b.size <= |b.buffer|
    ensures |r| == b.size
  {
    b.buffer[..b.size]
  }

  /** The buffer after a memcpy of src to its start. */
  function Overlay(dst: seq<u8>, src: seq<u8>): (r: seq<u8>)
    ensures |r| == if |dst| > |src| then |dst| else |src|
    ensures r[..|src|] == src
    ensures forall k :: |src| <= k < |dst| ==> r[k] == dst[k]
  {
    if |dst| > |src| then src + dst[|src|..] else src
  }

  /** The buffer after a memcpy of src to offset off. */
  function OverlayAt(dst: seq<u8>, off: nat, src: seq<u8>): (r: seq<u8>)
    requires off + |src| <= |dst|
    ensures |r| == |dst|
    ensures r[..off] == dst[..off]
    ensures r[off..off + |src|] == src
    ensures r[off + |src|..] == dst[off + |src|..]
  {
    dst[..off] + src + dst[off + |src|..]
  }

  /** n zero bytes, as a zero-initialised C buffer holds. */
  function Zeros(n: nat): (r: seq<u8>)
    ensures |r| == n
  {
    seq(n, _ => 0)
  }

  /** The TPM2B after its size is set to |src| and src is copied in. */
  function Fill(b: Tpm2b, src: seq<u8>): (r: Tpm2b)
    ensures r.size <= |r.buffer| && Value(r) == src
  {
    Tpm2b(|src|, Overlay(b.buffer, src))
  }

  /** Slicing the middle part back out of a concatenation. */
  lemma SliceOfConcat<T>(a: seq<T>, b: seq<T>, c: seq<T>)
    ensures (a + b + c)[|a|..|a| + |b|] == b
  {
    assert (a + b + c)[|a|..|a| + |b|] == (a + b)[|a|..];
  }

  /** A slice of a slice is a slice. */
  lemma SubSlice(d: seq<u8>, p: nat, n: nat, i: nat, j: nat)
    requires p + n <= |d| && i <= j <= n
    ensures d[p..p + n][i..j] == d[p + i..p + j]
  {
    var a, b := d[p..p + n][i..j], d[p + i..p + j];
    assert forall k :: 0 <= k < |a| ==> a[k] == b[k];
  }

  /** Adjacent slices join. */
  lemma JoinSlices(d: seq<u8>, i: nat, j: nat, k: nat)
    requires i <= j <= k <= |d|
    ensures d[i..j] + d[j..k] == d[i..k]
  {
  }

  /** The big-endian 16-bit field at offset i. */
  function BE16(q: seq<u8>, i: nat): (r: nat)
    requires i + 2 <= |q|
    ensures r < 0x1_0000
  {
    q[i] as int * 0x100 + q[i + 1] as int
  }

  /** The big-endian 32-bit field at offset i. */
  function BE32(q: seq<u8>, i: nat): (r: nat)
    requires i + 4 <= |q|
    ensures r < 0x1_0000_0000
  {
    ((q[i] as int * 0x100 + q[i + 1] as int) * 0x100 + q[i + 2] as int) * 0x100 + q[i + 3] as int
  }

  lemma FromBE16(q: seq<u8>, i: nat)
    requires i + 2 <= |q|
    ensures FromBE(q[i..i + 2]) == BE16(q, i)
  {
    var s := q[i..i + 2];
    assert s[..1][..0] == [];
    assert FromBE(s[..1]) == s[0];
  }

  lemma FromBE32(q: seq<u8>, i: nat)
    requires i + 4 <= |q|
    ensures FromBE(q[i..i + 4]) == BE32(q, i)
  {
    var s := q[i..i + 4];
    assert s[..3][..2][..1][..0] == [];
    assert s[..3][..2] == s[..2] && s[..3][..2][..1] == s[..1];
    assert FromBE(s[..1]) == s[0];
    assert FromBE(s[..2]) == s[0] as int * 0x100 + s[1] as int;
    assert FromBE(s[..3]) == (s[0] as int * 0x100 + s[1] as int) * 0x100 + s[2] as int;
  }
}
