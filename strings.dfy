/**
 * The text helpers of lib/tpm2_util.c: checked conversion of an option
 * argument to a UINT8/16/32, decoding a hex string into bytes, printing
 * bytes as hex, and copying a label string into a TPM2B_DATA.
 *
 * A C string is modelled by its characters before the terminating NUL; a
 * NULL pointer by None.
 */
module Strings {
  import opened Wrappers
  import opened Bytes

  // ---------------------------------------------------------------------
  // Digits.

  /** isxdigit. */
  predicate IsXDigit(c: char)
  {
    ('0' <= c <= '9') || ('a' <= c <= 'f') || ('A' <= c <= 'F')
  }

  predicate IsDecDigit(c: char)
  {
    '0' <= c <= '9'
  }

  predicate IsOctDigit(c: char)
  {
    '0' <= c <= '7'
  }

  /** The value of a hex digit, either case. */
  function DigitValue(c: char): (r: nat)
    requires IsXDigit(c)
    ensures r < 16
    ensures IsDecDigit(c) ==> r < 10
    ensures IsOctDigit(c) ==> r < 8
  {
    if '0' <= c <= '9' then c as int - '0' as int
    else if 'a' <= c <= 'f' then c as int - 'a' as int + 10
    else c as int - 'A' as int + 10
  }

  /** The lower-case hex digit of n, as printf's %x writes it. */
  function HexChar(n: nat): (c: char)
    requires n < 16
    ensures IsXDigit(c) && DigitValue(c) == n
  {
    if n < 10 then (n + '0' as int) as char else (n - 10 + 'a' as int) as char
  }

  /** The decimal digit of n. */
  function DecChar(n: nat): (c: char)
    requires n < 10
    ensures IsDecDigit(c) && IsXDigit(c) && DigitValue(c) == n
  {
    (n + '0' as int) as char
  }

  predicate AllXDigits(s: string)
  {
    forall i :: 0 <= i < |s| ==> IsXDigit(s[i])
  }

  /** Every character of s is a digit of the given base (8, 10 or 16). */
  predicate AllDigits(s: string, base: nat)
  {
    forall i :: 0 <= i < |s| ==>
      if base == 8 then IsOctDigit(s[i]) else if base == 10 then IsDecDigit(s[i]) else IsXDigit(s[i])
  }

  /** The value of a digit string in the given base, most significant first. */
  function DigitsValue(s: string, base: nat): nat
    requires AllXDigits(s)
  {
    if s == [] then 0 else DigitsValue(s[..|s| - 1], base) * base + DigitValue(s[|s| - 1])
  }

  // ---------------------------------------------------------------------
  // tpm2_util_string_to_uint32/16/8.

  /**
   * strtoul with base 0 when it consumes the whole string: "0x"/"0X" then
   * hex digits, a leading "0" then octal digits, otherwise decimal digits.
   * None when some character is left over (endptr not at the NUL).
   */
  function WholeNumber(s: string): (r: Option<nat>)
    ensures s == [] ==> r.None?
    ensures r.Some? ==> forall i :: 0 <= i < |s| ==>
      IsXDigit(s[i]) || (i == 1 && s[0] == '0' && (s[i] == 'x' || s[i] == 'X'))
    ensures r.Some? && s[0] != '0' ==> forall i :: 0 <= i < |s| ==> IsDecDigit(s[i])
  {
    if |s| >= 2 && s[0] == '0' && (s[1] == 'x' || s[1] == 'X') then
      if |s| > 2 && AllDigits(s[2..], 16) then Some(DigitsValue(s[2..], 16)) else None
    else if |s| >= 1 && s[0] == '0' then
      if AllDigits(s, 8) then Some(DigitsValue(s, 8)) else None
    else if |s| >= 1 && AllDigits(s, 10) then Some(DigitsValue(s, 10))
    else None
  }

  /** tpm2_util_string_to_uint32: NULL, empty, trailing junk and values over UINT32_MAX fail. */
  function StringToUint32(str: Option<string>): (r: Option<u32>)
    ensures r.Some? ==> str.Some? && str.value != [] && WholeNumber(str.value) == Some(r.value)
    ensures r.None? ==>
      str.None? || str.value == [] || WholeNumber(str.value).None? || WholeNumber(str.value).value > UINT32_MAX
  {
    if str.None? || str.value == [] then None
    else
      match WholeNumber(str.value)
      case None => None
      case Some(v) => if v > UINT32_MAX then None else Some(v)
  }

  /** tpm2_util_string_to_uint16: the UINT32 conversion, then a range check. */
  function StringToUint16(str: Option<string>): (r: Option<u16>)
    ensures r.Some? <==> StringToUint32(str).Some? && StringToUint32(str).value <= UINT16_MAX
    ensures r.Some? ==> r.value == StringToUint32(str).value
  {
    match StringToUint32(str)
    case None => None
    case Some(v) => if v > UINT16_MAX then None else Some(v)
  }

  /** tpm2_util_string_to_uint8: the UINT32 conversion, then a range check. */
  function StringToUint8(str: Option<string>): (r: Option<u8>)
    ensures r.Some? <==> StringToUint32(str).Some? && StringToUint32(str).value <= UINT8_MAX
    ensures r.Some? ==> r.value == StringToUint32(str).value
  {
    match StringToUint32(str)
    case None => None
    case Some(v) => if v > UINT8_MAX then None else Some(v)
  }

  /** The decimal numeral of n, without leading zeros. */
  function Decimal(n: nat): (s: string)
    ensures |s| >= 1
  {
    if n < 10 then [DecChar(n)] else Decimal(n / 10) + [DecChar(n % 10)]
  }

  /** The hex numeral of n, lower case, without leading zeros. */
  function Hex(n: nat): (s: string)
    ensures |s| >= 1
  {
    if n < 16 then [HexChar(n)] else Hex(n / 16) + [HexChar(n % 16)]
  }

  lemma {:induction false} DecimalDigits(n: nat)
    ensures AllDigits(Decimal(n), 10) && AllXDigits(Decimal(n))
    ensures n > 0 ==> Decimal(n)[0] != '0'
    ensures DigitsValue(Decimal(n), 10) == n
  {
    if n >= 10 {
      DecimalDigits(n / 10);
      var s := Decimal(n);
      assert s[..|s| - 1] == Decimal(n / 10);
    }
  }

  lemma {:induction false} HexDigits(n: nat)
    ensures AllDigits(Hex(n), 16) && AllXDigits(Hex(n))
    ensures DigitsValue(Hex(n), 16) == n
  {
    if n >= 16 {
      HexDigits(n / 16);
      var s := Hex(n);
      assert s[..|s| - 1] == Hex(n / 16);
    }
  }

  /**
   * A decimal numeral is read back as its value, and so is a "0x" hex
   * numeral: exactly the values up to UINT32_MAX are accepted.
   */
  lemma StringToUint32Numerals(n: nat)
    ensures StringToUint32(Some(Decimal(n))) == if n <= UINT32_MAX then Some(n) else None
    ensures StringToUint32(Some("0x" + Hex(n))) == if n <= UINT32_MAX then Some(n) else None
  {
    DecimalDigits(n);
    var d := Decimal(n);
    if n == 0 {
      assert d == "0" && AllDigits(d, 8);
      assert DigitsValue(d, 8) == DigitsValue([], 8) * 8 + 0;
    } else {
      assert d[0] != '0';
      assert WholeNumber(d) == Some(n);
    }
    HexDigits(n);
    var h := "0x" + Hex(n);
    assert h[2..] == Hex(n);
    assert WholeNumber(h) == Some(n);
  }

  /** The same numerals through the 16-bit conversion: the range is UINT16's. */
  lemma StringToUint16Numerals(n: nat)
    ensures StringToUint16(Some(Decimal(n))) == if n <= UINT16_MAX then Some(n) else None
  {
    StringToUint32Numerals(n);
  }

  /** The same numerals through the 8-bit conversion: the range is UINT8's. */
  lemma StringToUint8Numerals(n: nat)
    ensures StringToUint8(Some(Decimal(n))) == if n <= UINT8_MAX then Some(n) else None
  {
    StringToUint32Numerals(n);
  }

  /** Text after a number is never accepted, whatever the number. */
  lemma TrailingJunk(n: nat, c: char)
    requires !IsXDigit(c)
    ensures StringToUint32(Some(Decimal(n) + [c])) == None
  {
    var s := Decimal(n) + [c];
    assert s[|s| - 1] == c;
    assert !AllDigits(s, 8) && !AllDigits(s, 10);
    if |s| > 2 {
      assert s[2..][|s| - 3] == c;
      assert !AllDigits(s[2..], 16);
    }
    assert WholeNumber(s) == None;
  }

  // ---------------------------------------------------------------------
  // tpm2_util_hex_to_byte_structure and tpm2_util_hexdump2.

  /** The bytes an even-length hex string stands for, two digits each. */
  function HexDecode(s: string): (r: seq<u8>)
    requires |s| % 2 == 0 && AllXDigits(s)
    ensures |r| == |s| / 2
  {
    seq(|s| / 2, i requires 0 <= i < |s| / 2 => DigitValue(s[2 * i]) * 16 + DigitValue(s[2 * i + 1]))
  }

  /** One byte as printf's "%02x" writes it. */
  function ByteHex(b: u8): (r: string)
    ensures |r| == 2
  {
    [HexChar(b / 16), HexChar(b % 16)]
  }

  /** What tpm2_util_hexdump2 prints for data. */
  function HexString(data: seq<u8>): (r: string)
  {
    if data == [] then [] else HexString(data[..|data| - 1]) + ByteHex(data[|data| - 1])
  }

  /** The printed form has two hex digits per byte, the high nibble first. */
  lemma {:induction false} HexStringDigits(data: seq<u8>)
    ensures |HexString(data)| == 2 * |data|
    ensures forall i :: 0 <= i < |data| ==>
      HexString(data)[2 * i] == HexChar(data[i] / 16) && HexString(data)[2 * i + 1] == HexChar(data[i] % 16)
  {
    if data != [] {
      var p := data[..|data| - 1];
      HexStringDigits(p);
      forall i | 0 <= i < |data|
        ensures HexString(data)[2 * i] == HexChar(data[i] / 16)
        ensures HexString(data)[2 * i + 1] == HexChar(data[i] % 16)
      {
        if i < |p| {
          assert data[i] == p[i];
        }
      }
    }
  }

  /** Decoding what hexdump2 prints gives the bytes back. */
  lemma HexRoundTrip(data: seq<u8>)
    ensures |HexString(data)| % 2 == 0 && AllXDigits(HexString(data))
    ensures HexDecode(HexString(data)) == data
  {
    HexStringDigits(data);
    var s := HexString(data);
    forall k | 0 <= k < |s|
      ensures IsXDigit(s[k])
    {
      var i := k / 2;
      assert k == 2 * i || k == 2 * i + 1;
    }
    forall i | 0 <= i < |data|
      ensures HexDecode(s)[i] == data[i]
    {
      assert data[i] == data[i] / 16 * 16 + data[i] % 16;
    }
  }

  /**
   * tpm2_util_hexdump2: two lower-case hex digits per byte, in order.  The
   * model returns the text instead of writing it to a FILE.
   */
  method Hexdump2(data: seq<u8>) returns (out: string)
    ensures out == HexString(data)
    ensures |out| % 2 == 0 && AllXDigits(out) && HexDecode(out) == data
  {
    out := [];
    var i := 0;
    while i < |data|
      invariant i <= |data|
      invariant out == HexString(data[..i])
    {
      assert data[..i + 1][..i] == data[..i];
      out := out + ByteHex(data[i]);
      i := i + 1;
    }
    assert data[..i] == data;
    HexRoundTrip(data);
  }

  /** The status tpm2_util_hex_to_byte_structure returns, checked in this order. */
  function HexStatus(inStr: Option<string>, byteLength: Option<nat>, hasBuffer: bool): (rc: int)
    ensures rc == 0 ==> inStr.Some? && |inStr.value| % 2 == 0 && AllXDigits(inStr.value)
    ensures rc == 0 ==> byteLength.Some? && |inStr.value| / 2 <= byteLength.value
    ensures -4 <= rc <= 0
  {
    if inStr.None? || byteLength.None? || !hasBuffer then -1
    else if |inStr.value| % 2 != 0 then -2
    else if !AllXDigits(inStr.value) then -3
    else if byteLength.value < |inStr.value| / 2 then -4
    else 0
  }

  /**
   * tpm2_util_hex_to_byte_structure.  byteLength holds the capacity of
   * byteBuffer on entry and the number of bytes decoded on success; on
   * any error neither is touched.
   */
  method HexToByteStructure(inStr: Option<string>, byteLength: Option<u16>, byteBuffer: array?<u8>)
    returns (rc: int, byteLengthOut: Option<u16>)
    requires byteLength.Some? && byteBuffer != null ==> byteLength.value <= byteBuffer.Length
    modifies byteBuffer
    ensures rc == HexStatus(inStr, if byteLength.Some? then Some(byteLength.value as nat) else None, byteBuffer != null)
    ensures rc == 0 ==> byteBuffer != null && byteLengthOut == Some(|inStr.value| / 2)
    ensures rc == 0 ==> byteBuffer[..|inStr.value| / 2] == HexDecode(inStr.value)
    ensures rc == 0 ==> byteBuffer[|inStr.value| / 2..] == old(byteBuffer[|inStr.value| / 2..])
    ensures rc != 0 ==> byteLengthOut == byteLength && (byteBuffer != null ==> byteBuffer[..] == old(byteBuffer[..]))
  {
    byteLengthOut := byteLength;
    if inStr.None? || byteLength.None? || byteBuffer == null {
      return -1, byteLengthOut;
    }
    var s := inStr.value;
    var strLength := |s|;
    if strLength % 2 != 0 {
      return -2, byteLengthOut;
    }
    var i := 0;
    while i < strLength
      invariant i <= strLength
      invariant forall k :: 0 <= k < i ==> IsXDigit(s[k])
    {
      if !IsXDigit(s[i]) {
        return -3, byteLengthOut;
      }
      i := i + 1;
    }

    if byteLength.value < strLength / 2 {
      return -4, byteLengthOut;
    }
    var n: u16 := strLength / 2;
    byteLengthOut := Some(n);

    i := 0;
    while i < n
      invariant i <= n
      invariant forall k :: 0 <= k < i ==> byteBuffer[k] == HexDecode(s)[k]
      invariant forall k :: n <= k < byteBuffer.Length ==> byteBuffer[k] == old(byteBuffer[k])
    {
      byteBuffer[i] := DigitValue(s[i * 2]) * 16 + DigitValue(s[i * 2 + 1]);
      i := i + 1;
    }
    return 0, byteLengthOut;
  }

  // ---------------------------------------------------------------------
  // tpm2_util_get_label, string branch.

  /** sizeof the buffer of a TPM2B_DATA: a TPMT_HA (a UINT16 and 64 digest bytes). */
  const TPM2B_DATA_CAPACITY: nat := 66

  /**
   * tpm2_util_get_label when value does not name a readable file: the
   * string and a NUL are copied into the target TPM2B_DATA if they fit.
   * None is the false return, with the target untouched.
   */
  function GetLabel(value: Option<seq<u8>>, target: Tpm2b): (r: Option<Tpm2b>)
    requires |target.buffer| == TPM2B_DATA_CAPACITY
    ensures value.None? ==> r == Some(target.(size := 0))
    ensures value.Some? ==> (r.Some? <==> |value.value| <= TPM2B_DATA_CAPACITY - 1)
    ensures value.Some? && r.Some? ==>
      && r.value.size <= |r.value.buffer| == TPM2B_DATA_CAPACITY
      && Value(r.value) == value.value + [0]
  {
    if value.None? then Some(target.(size := 0))
    else
      var v := value.value;
      if |v| > TPM2B_DATA_CAPACITY - 1 then None
      else Some(Tpm2b(|v| + 1, Overlay(target.buffer, v + [0])))
  }
}
