/**
 * Byte-order conversion and population count of lib/tpm2_util.c.  Each
 * routine works on the bytes of its argument as they lie in host memory,
 * so each takes the host byte order as a parameter and is proved to give
 * the same value on either kind of host.
 */
module Endian {
  import opened Bytes

  /** The value whose big-endian bytes are those of x in reverse order. */
  function Swapped(x: nat, n: nat): (r: nat)
    requires x < Pow256(n)
    ensures r < Pow256(n)
  {
    FromBEBound(Reverse(ToBE(x, n)));
    FromBE(Reverse(ToBE(x, n)))
  }

  /** Swapping reverses the byte string of the value. */
  lemma SwappedBytes(x: nat, n: nat)
    requires x < Pow256(n)
    ensures ToBE(Swapped(x, n), n) == Reverse(ToBE(x, n))
  {
    ToFromBE(Reverse(ToBE(x, n)));
  }

  /** Swapping is its own inverse. */
  lemma SwappedInvolution(x: nat, n: nat)
    requires x < Pow256(n)
    ensures Swapped(Swapped(x, n), n) == x
  {
    SwappedBytes(x, n);
    ReverseReverse(ToBE(x, n));
    FromToBE(x, n);
  }

  /**
   * The loop of tpm2_util_endian_swap_<size>: byte i of the result in
   * memory is byte size-1-i of the argument in memory.
   */
  method EndianSwap(host: ByteOrder, data: nat, size: nat) returns (converted: nat)
    requires data < Pow256(size)
    ensures converted < Pow256(size)
    ensures ToBE(converted, size) == Reverse(ToBE(data, size))
    ensures converted == Swapped(data, size)
  {
    var bytes := ToBytes(host, data, size);
    var tmp: seq<u8> := [];
    var i := 0;
    while i < size
      invariant 0 <= i <= size
      invariant |tmp| == i
      invariant forall k :: 0 <= k < i ==> tmp[k] == bytes[size - k - 1]
    {
      tmp := tmp + [bytes[size - i - 1]];
      i := i + 1;
    }
    assert tmp == Reverse(bytes);
    converted := FromBytes(host, tmp);
    ReverseReverse(ToBE(data, size));
    assert converted == Swapped(data, size);
    SwappedBytes(data, size);
  }

  method EndianSwap16(host: ByteOrder, data: u16) returns (r: u16)
    ensures ToBE(r, 2) == Reverse(ToBE(data, 2))
  {
    var c := EndianSwap(host, data, 2);
    r := c;
  }

  method EndianSwap32(host: ByteOrder, data: u32) returns (r: u32)
    ensures ToBE(r, 4) == Reverse(ToBE(data, 4))
  {
    var c := EndianSwap(host, data, 4);
    r := c;
  }

  method EndianSwap64(host: ByteOrder, data: u64) returns (r: u64)
    ensures ToBE(r, 8) == Reverse(ToBE(data, 8))
  {
    var c := EndianSwap(host, data, 8);
    r := c;
  }

  /**
   * tpm2_util_hton_<size>: identity on a big-endian host, a swap
   * otherwise; either way the result lies in host memory in network order.
   */
  method Hton(host: ByteOrder, data: nat, size: nat) returns (r: nat)
    requires data < Pow256(size)
    ensures r < Pow256(size)
    ensures ToBytes(host, r, size) == ToBE(data, size)
    ensures r == if host == BigEndian then data else Swapped(data, size)
  {
    if host == BigEndian {
      return data;
    }
    r := EndianSwap(host, data, size);
    ReverseReverse(ToBE(data, size));
  }

  /**
   * tpm2_util_ntoh_<size> calls the hton routine: a value whose memory
   * bytes are in network order is turned into the value they denote.
   */
  method Ntoh(host: ByteOrder, data: nat, size: nat) returns (r: nat)
    requires data < Pow256(size)
    ensures r < Pow256(size)
    ensures r == FromBE(ToBytes(host, data, size))
    ensures r == if host == BigEndian then data else Swapped(data, size)
  {
    r := Hton(host, data, size);
    FromToBE(data, size);
  }

  /**
   * A memcpy of wire bytes into a host variable followed by the
   * "swap unless big-endian" step used by the quote parser and by
   * files_read_<size>: the value is the big-endian reading of the bytes.
   */
  method LoadNetworkOrder(host: ByteOrder, wire: seq<u8>) returns (v: nat)
    ensures v == FromBE(wire)
  {
    v := FromBytes(host, wire);
    FromBytesBound(host, wire);
    if host != BigEndian {
      v := EndianSwap(host, v, |wire|);
      assert v == FromBE(Reverse(ToBE(FromBE(Reverse(wire)), |wire|)));
      ToFromBE(Reverse(wire));
      ReverseReverse(wire);
    }
  }

  /**
   * The BE_CONVERT of files_write_<size> followed by taking the bytes of
   * the variable: the bytes written are the big-endian encoding.
   */
  method StoreNetworkOrder(host: ByteOrder, data: nat, size: nat) returns (wire: seq<u8>)
    requires data < Pow256(size)
    ensures wire == ToBE(data, size)
  {
    var v := Hton(host, data, size);
    wire := ToBytes(host, v, size);
  }

  function Pow2(k: nat): (r: nat)
    ensures r > 0
  {
    if k == 0 then 1 else 2 * Pow2(k - 1)
  }

  /** The number of one bits of x. */
  function BitCount(x: nat): nat
  {
    if x == 0 then 0 else x % 2 + BitCount(x / 2)
  }

  /** Appending one low bit adds that bit to the count. */
  lemma BitCountShift(y: nat, c: nat)
    requires c < 2
    ensures BitCount(2 * y + c) == c + BitCount(y)
  {
    var x := 2 * y + c;
    if x != 0 {
      assert x / 2 == y && x % 2 == c;
    }
  }

  /** h followed by the k low bits of l, built one bit at a time. */
  function Join(h: nat, l: nat, k: nat): nat
  {
    if k == 0 then h else 2 * Join(h, l / 2, k - 1) + l % 2
  }

  /** Joining is shifting h left by k bits and adding l. */
  lemma {:induction false} JoinValue(h: nat, l: nat, k: nat)
    requires l < Pow2(k)
    ensures Join(h, l, k) == h * Pow2(k) + l
  {
    if k > 0 {
      var p := Pow2(k - 1);
      JoinValue(h, l / 2, k - 1);
      assert Join(h, l, k) == 2 * (h * p + l / 2) + l % 2;
      assert h * Pow2(k) == 2 * (h * p) by {
        assert Pow2(k) == 2 * p;
        assert h * (2 * p) == 2 * (h * p);
      }
    }
  }

  /** The bits of h and of the k low bits of l count separately. */
  lemma {:induction false} BitCountJoin(h: nat, l: nat, k: nat)
    requires l < Pow2(k)
    ensures BitCount(Join(h, l, k)) == BitCount(h) + BitCount(l)
  {
    if k > 0 {
      assert l / 2 < Pow2(k - 1);
      BitCountJoin(h, l / 2, k - 1);
      BitCountShift(Join(h, l / 2, k - 1), l % 2);
      BitCountShift(l / 2, l % 2);
      assert 2 * (l / 2) + l % 2 == l;
    } else {
      assert l == 0;
    }
  }

  /** The bits of a high part shifted over k low bits count separately. */
  lemma BitCountSplit(h: nat, l: nat, k: nat)
    requires l < Pow2(k)
    ensures BitCount(h * Pow2(k) + l) == BitCount(h) + BitCount(l)
  {
    JoinValue(h, l, k);
    BitCountJoin(h, l, k);
  }

  /** bits_per_nibble of tpm2_util_pop_count. */
  const BITS_PER_NIBBLE: seq<nat> := [0, 1, 1, 2, 1, 2, 2, 3, 1, 2, 2, 3, 2, 3, 3, 4]

  lemma NibbleTable(n: nat)
    requires n < 16
    ensures BITS_PER_NIBBLE[n] == BitCount(n)
  {
    assert BitCount(0) == 0;
    assert BitCount(1) == 1;
    assert BitCount(2) == BitCount(1);
    assert BitCount(3) == 1 + BitCount(1);
    assert BitCount(4) == BitCount(2);
    assert BitCount(5) == 1 + BitCount(2);
    assert BitCount(6) == BitCount(3);
    assert BitCount(7) == 1 + BitCount(3);
    assert BitCount(8) == BitCount(4);
    assert BitCount(9) == 1 + BitCount(4);
    assert BitCount(10) == BitCount(5);
    assert BitCount(11) == 1 + BitCount(5);
    assert BitCount(12) == BitCount(6);
    assert BitCount(13) == 1 + BitCount(6);
    assert BitCount(14) == BitCount(7);
    assert BitCount(15) == 1 + BitCount(7);
  }

  /** One byte of the value: its two nibbles looked up in the table. */
  lemma ByteCount(f: nat, b: nat)
    requires b < 256
    ensures BitCount(f * 256 + b) == BitCount(f) + BITS_PER_NIBBLE[b % 16] + BITS_PER_NIBBLE[b / 16]
    ensures BITS_PER_NIBBLE[b % 16] + BITS_PER_NIBBLE[b / 16] <= 8
  {
    NibbleSplit(b);
    assert Pow2(8) == 256;
    BitCountSplit(f, b, 8);
    BitCountBound(b, 8);
  }

  /** The count of a byte is the sum of the table entries of its nibbles. */
  lemma NibbleSplit(b: nat)
    requires b < 256
    ensures BitCount(b) == BITS_PER_NIBBLE[b % 16] + BITS_PER_NIBBLE[b / 16]
  {
    NibbleTable(b % 16);
    NibbleTable(b / 16);
    assert Pow2(4) == 16;
    BitCountSplit(b / 16, b % 16, 4);
    assert b == b / 16 * 16 + b % 16;
  }

  /**
   * tpm2_util_pop_count: two nibble-table lookups per byte of the value.
   * The model visits the bytes most significant first; the sum does not
   * depend on the order in memory.
   */
  method PopCount(data: u32) returns (count: nat)
    ensures count == BitCount(data)
    ensures count <= 32
  {
    var d := ToBE(data, 4);
    count := 0;
    var i := 0;
    while i < 4
      invariant 0 <= i <= 4
      invariant count == BitCount(FromBE(d[..i]))
      invariant count <= 8 * i
    {
      assert d[..i + 1][..i] == d[..i];
      var f := FromBE(d[..i]);
      assert FromBE(d[..i + 1]) == f * 256 + d[i];
      ByteCount(f, d[i]);
      count := count + BITS_PER_NIBBLE[d[i] % 16];
      count := count + BITS_PER_NIBBLE[d[i] / 16];
      i := i + 1;
    }
    assert d[..4] == d;
    FromToBE(data, 4);
  }

  lemma {:induction false} BitCountBound(x: nat, k: nat)
    requires x < Pow2(k)
    ensures BitCount(x) <= k
  {
    if x > 0 {
      BitCountBound(x / 2, k - 1);
    }
  }
}
