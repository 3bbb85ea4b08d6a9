/**
 * The TPMS_ATTEST quote reader of lib/tpm2_util.c.  The quote is a byte
 * string of big-endian fields; the reader walks a cursor over it, skips
 * every field but two, and hands back the caller-supplied nonce
 * (extraData) and the PCR composite digest.  Every read is guarded, and
 * the guards are deliberately uneven:
 *   - a length or count prefix needs strictly more bytes than it reads
 *     (cursor + width >= size rejects);
 *   - a fixed or declared skip must leave the cursor strictly inside the
 *     buffer (cursor >= size rejects);
 *   - a variable payload may end exactly at the end of the buffer
 *     (length + cursor > size rejects).
 */
module Quote {
  import opened Wrappers
  import opened Bytes
  import opened Endian

  /** TPM_GENERATED_VALUE, the magic that opens every TPM-made structure. */
  const TPM2_GENERATED_VALUE: nat := 0xff544347
  /** TPM_ST_ATTEST_QUOTE, the structure tag of a quote. */
  const TPM2_ST_ATTEST_QUOTE: nat := 0x8018
  /** Bytes of TPMS_CLOCK_INFO: clock (8), resetCount (4), restartCount (4), safe (1). */
  const CLOCK_INFO_SIZE: nat := 17
  /** Bytes of the firmwareVersion field. */
  const FIRMWARE_VERSION_SIZE: nat := 8

  /** The guard that rejected a quote. */
  datatype Stage =
    | Header           // fewer than 6 bytes
    | Magic            // magic other than TPM2_GENERATED_VALUE
    | AttestType       // type other than TPM2_ST_ATTEST_QUOTE
    | SignerName       // no room for the qualified signer's length
    | ExtraDataSize    // no room for the extraData length
    | ExtraDataBytes   // extraData runs past the end
    | ClockInfo        // clock info reaches the end
    | FirmwareVersion  // firmware version reaches the end
    | SelectionCount   // no room for the selection count
    | SelectionHash    // no room for a selection's hash algorithm
    | SelectionSize    // no room for a selection's bitmap size
    | SelectionBitmap  // a selection's bitmap reaches the end
    | DigestSize       // no room for the digest length
    | DigestBytes      // the digest runs past the end
    | ExtraDataTooLong // extraData longer than its out-parameter's buffer (ParseWithin only)
    | DigestTooLong    // the digest longer than its out-parameter's buffer (ParseWithin only)

  /**
   * A rejected quote, with what the reader had already stored in its
   * out-parameters when it gave up: the extraData size and bytes and the
   * digest size are written as soon as they are read.
   */
  datatype Rejection = Rejection(
    stage: Stage,
    extraSize: Option<nat>,
    extraData: Option<seq<u8>>,
    digestSize: Option<nat>)

  /** An accepted quote: where the two payloads start and what they hold. */
  datatype Layout = Layout(extraAt: nat, extraData: seq<u8>, digestAt: nat, digest: seq<u8>)

  /** The two payloads sit behind their big-endian 2-byte lengths, in order, inside q. */
  ghost predicate Locates(q: seq<u8>, l: Layout)
  {
    && 2 <= l.extraAt
    && l.extraAt + |l.extraData| + 2 <= l.digestAt
    && l.digestAt + |l.digest| <= |q|
    && BE16(q, l.extraAt - 2) == |l.extraData|
    && q[l.extraAt..l.extraAt + |l.extraData|] == l.extraData
    && BE16(q, l.digestAt - 2) == |l.digest|
    && q[l.digestAt..l.digestAt + |l.digest|] == l.digest
  }

  /** The offset just past the digest: the last byte the reader looks at. */
  function End(l: Layout): nat
  {
    l.digestAt + |l.digest|
  }

  function Reject(stage: Stage): Result<Layout, Rejection>
  {
    Failure(Rejection(stage, None, None, None))
  }

  /**
   * What the reader decides about q: the header checks and the signer name
   * skip, then the rest from the extraData length onwards.
   */
  function Parse(q: seq<u8>): (r: Result<Layout, Rejection>)
    ensures r.Failure? && r.error.stage in {Header, Magic, AttestType, SignerName, ExtraDataSize} ==>
      r.error == Rejection(r.error.stage, None, None, None)
    ensures r.Failure? && r.error.extraData.Some? ==> r.error.extraSize == Some(|r.error.extraData.value|)
    ensures r.Failure? && r.error.digestSize.Some? ==> r.error.stage == DigestBytes && r.error.extraData.Some?
  {
    match SkipHeader(q)
    case Failure(stage) => Reject(stage)
    case Success(e) => ParseExtraData(q, e)
  }

  /**
   * The magic, the structure tag and the qualified signer name: gives the
   * offset of the extraData length.
   */
  function SkipHeader(q: seq<u8>): (r: Result<nat, Stage>)
  {
    if |q| < 6 then Failure(Header)
    else if BE32(q, 0) != TPM2_GENERATED_VALUE then Failure(Magic)
    else if BE16(q, 4) != TPM2_ST_ATTEST_QUOTE then Failure(AttestType)
    else if 6 + 2 >= |q| then Failure(SignerName)
    else Success(8 + BE16(q, 6))
  }

  /** From the extraData length at offset e onwards. */
  function ParseExtraData(q: seq<u8>, e: nat): (r: Result<Layout, Rejection>)
  {
    if e + 2 >= |q| then Reject(ExtraDataSize)
    else
      var n := BE16(q, e);
      if n + e + 2 > |q| then Failure(Rejection(ExtraDataBytes, Some(n), None, None))
      else ParseTail(q, e + 2, q[e + 2..e + 2 + n])
  }

  /** From the end of extraData (offset c) onwards, extraData having been stored. */
  function ParseTail(q: seq<u8>, extraAt: nat, extra: seq<u8>): (r: Result<Layout, Rejection>)
  {
    match SkipToDigest(q, extraAt + |extra|)
    case Failure(stage) => Failure(Rejection(stage, Some(|extra|), Some(extra), None))
    case Success(d) => ParseDigest(q, extraAt, extra, d)
  }

  /**
   * Skips the clock info, the firmware version and the PCR selections from
   * offset c and gives the offset of the digest length.
   */
  function SkipToDigest(q: seq<u8>, c: nat): (r: Result<nat, Stage>)
  {
    var clockEnd := c + CLOCK_INFO_SIZE;
    if clockEnd >= |q| then Failure(ClockInfo)
    else
      var s := clockEnd + FIRMWARE_VERSION_SIZE;
      if s >= |q| then Failure(FirmwareVersion)
      else if s + 4 >= |q| then Failure(SelectionCount)
      else SkipSelections(q, s + 4, BE32(q, s))
  }

  /**
   * Skips count TPMS_PCR_SELECTION entries (hash algorithm, bitmap size,
   * bitmap) from offset i and gives the offset after the last one.
   */
  function SkipSelections(q: seq<u8>, i: nat, count: nat): (r: Result<nat, Stage>)
    ensures r.Success? ==> r.value >= i && (count > 0 ==> r.value < |q|)
    ensures r.Failure? ==> r.error in {SelectionHash, SelectionSize, SelectionBitmap}
    decreases count
  {
    if count == 0 then Success(i)
    else if i + 2 >= |q| then Failure(SelectionHash)
    else if i + 1 + 2 >= |q| then Failure(SelectionSize)
    else
      var j := i + 3 + q[i + 2];
      if j >= |q| then Failure(SelectionBitmap)
      else SkipSelections(q, j, count - 1)
  }

  /** From the digest length at offset d onwards. */
  function ParseDigest(q: seq<u8>, extraAt: nat, extra: seq<u8>, d: nat): (r: Result<Layout, Rejection>)
  {
    var written := Rejection(DigestSize, Some(|extra|), Some(extra), None);
    if d + 2 >= |q| then Failure(written)
    else
      var m := BE16(q, d);
      if m + d + 2 > |q| then Failure(written.(stage := DigestBytes, digestSize := Some(m)))
      else Success(Layout(extraAt, extra, d + 2, q[d + 2..d + 2 + m]))
  }

  /**
   * The reader with the capacity checks the code leaves out: a payload
   * longer than the buffer of its out-parameter (extraCap bytes for
   * extraData, digestCap for the digest) is refused once its length is
   * stored and before any byte is copied.  Each check sits after the
   * payload's bounds guard, so a payload running past the quote is still
   * refused at ExtraDataBytes or DigestBytes.
   */
  function ParseWithin(q: seq<u8>, extraCap: nat, digestCap: nat): (r: Result<Layout, Rejection>)
  {
    DigestWithin(ExtraWithin(Parse(q), extraCap), digestCap)
  }

  /** The extraData bytes the reader copied on its way to the verdict r, if any. */
  function CopiedExtra(r: Result<Layout, Rejection>): Option<seq<u8>>
  {
    if r.Success? then Some(r.value.extraData) else r.error.extraData
  }

  /** The extraData capacity check applied to a verdict of the reader. */
  function ExtraWithin(r: Result<Layout, Rejection>, cap: nat): Result<Layout, Rejection>
  {
    var extra := CopiedExtra(r);
    if extra.Some? && |extra.value| > cap then
      Failure(Rejection(ExtraDataTooLong, Some(|extra.value|), None, None))
    else r
  }

  /** The digest capacity check applied to a verdict of the reader. */
  function DigestWithin(r: Result<Layout, Rejection>, cap: nat): Result<Layout, Rejection>
  {
    if r.Success? && |r.value.digest| > cap then
      var l := r.value;
      Failure(Rejection(DigestTooLong, Some(|l.extraData|), Some(l.extraData), Some(|l.digest|)))
    else r
  }

  /**
   * The out-parameter after the reader stored a size and possibly bytes
   * into it (absent: left untouched).
   */
  function Written(b: Tpm2b, size: Option<nat>, bytes: Option<seq<u8>>): Tpm2b
  {
    Tpm2b(
      if size.Some? then size.value else b.size,
      if bytes.Some? then Overlay(b.buffer, bytes.value) else b.buffer)
  }

  /** A memcpy of the 2 bytes at offset i into a UINT16, then to host order. */
  method Load16(host: ByteOrder, q: seq<u8>, i: nat) returns (v: nat)
    requires i + 2 <= |q|
    ensures v == BE16(q, i)
  {
    v := LoadNetworkOrder(host, q[i..i + 2]);
    FromBE16(q, i);
  }

  /** A memcpy of the 4 bytes at offset i into a UINT32, then to host order. */
  method Load32(host: ByteOrder, q: seq<u8>, i: nat) returns (v: nat)
    requires i + 4 <= |q|
    ensures v == BE32(q, i)
  {
    v := LoadNetworkOrder(host, q[i..i + 4]);
    FromBE32(q, i);
  }

  /**
   * The extraData out-parameter after the reader's verdict r: the value
   * found, or what had been stored into it before the rejection.
   */
  function ExtraOut(extraData: Tpm2b, r: Result<Layout, Rejection>): Tpm2b
  {
    match r
    case Success(l) => Fill(extraData, l.extraData)
    case Failure(e) => Written(extraData, e.extraSize, e.extraData)
  }

  /** The digest out-parameter after the reader's verdict r. */
  function DigestOut(digest: Tpm2b, r: Result<Layout, Rejection>): Tpm2b
  {
    match r
    case Success(l) => Fill(digest, l.digest)
    case Failure(e) => Written(digest, e.digestSize, None)
  }

  /**
   * tpm2_util_get_digest_from_quote, with a payload longer than its
   * out-parameter's buffer refused before the copy.  The quote's size
   * field is a UINT16.  The result says whether ParseWithin accepts the
   * quote with the two buffers' sizes as capacities; the out-parameters
   * end as it describes, including the partial writes of a rejected
   * quote.
   */
  method GetDigestFromQuote(host: ByteOrder, quoted: seq<u8>, digest: Tpm2b, extraData: Tpm2b)
    returns (ok: bool, digestOut: Tpm2b, extraDataOut: Tpm2b)
    requires |quoted| <= UINT16_MAX
    ensures ok == ParseWithin(quoted, |extraData.buffer|, |digest.buffer|).Success?
    ensures extraDataOut == ExtraOut(extraData, ParseWithin(quoted, |extraData.buffer|, |digest.buffer|))
    ensures digestOut == DigestOut(digest, ParseWithin(quoted, |extraData.buffer|, |digest.buffer|))
  {
    var q := quoted;
    digestOut, extraDataOut := digest, extraData;
    var i, readHeader;
    readHeader, i := SkipToExtraData(host, q);
    if !readHeader {
      assert Parse(q) == Reject(SkipHeader(q).error);
      return false, digestOut, extraDataOut;
    }
    assert Parse(q) == ParseExtraData(q, i);
    ghost var e := i;

    // Extra data.
    var readExtra;
    readExtra, i, extraDataOut := ReadExtraData(host, q, i, extraDataOut);
    if !readExtra {
      return false, digestOut, extraDataOut;
    }
    ghost var extra := q[e + 2..i];
    TailCarriesExtra(q, e + 2, extra);
    assert ParseWithin(q, |extraData.buffer|, |digest.buffer|)
      == DigestWithin(ParseTail(q, e + 2, extra), |digest.buffer|);
    TailKeepsExtra(q, e + 2, extra, extraData, |digest.buffer|);
    ok, digestOut := ReadTail(host, q, e + 2, extra, i, digestOut);
  }

  /** Every verdict from the end of extraData onwards records the extraData copied. */
  lemma TailCarriesExtra(q: seq<u8>, extraAt: nat, extra: seq<u8>)
    ensures CopiedExtra(ParseTail(q, extraAt, extra)) == Some(extra)
  {
  }

  /**
   * Whatever the rest of the quote holds, and whether or not the digest
   * fits its buffer, extraData was stored in full.
   */
  lemma TailKeepsExtra(q: seq<u8>, extraAt: nat, extra: seq<u8>, extraData: Tpm2b, digestCap: nat)
    ensures ExtraOut(extraData, ParseTail(q, extraAt, extra)) == Fill(extraData, extra)
    ensures ExtraOut(extraData, DigestWithin(ParseTail(q, extraAt, extra), digestCap)) == Fill(extraData, extra)
  {
  }

  /**
   * From the end of extraData: the skipped fields, then the digest, whose
   * out-parameter ends as ParseTail describes.
   */
  method ReadTail(host: ByteOrder, q: seq<u8>, ghost extraAt: nat, ghost extra: seq<u8>, c: nat, digest: Tpm2b)
    returns (ok: bool, digestOut: Tpm2b)
    requires c == extraAt + |extra|
    ensures ok == DigestWithin(ParseTail(q, extraAt, extra), |digest.buffer|).Success?
    ensures digestOut == DigestOut(digest, DigestWithin(ParseTail(q, extraAt, extra), |digest.buffer|))
  {
    var skipped, i := SkipToPcrDigest(host, q, c);
    if !skipped {
      return false, digest;
    }
    TailStep(q, extraAt, extra, c, i);
    ok, digestOut := ReadDigest(host, q, extraAt, extra, i, digest);
  }

  /**
   * The digest part of tpm2_util_get_digest_from_quote: its size is stored
   * as soon as it is read, its bytes once they are known to lie inside the
   * quote and to fit the out-parameter's buffer.
   */
  method ReadDigest(host: ByteOrder, q: seq<u8>, ghost extraAt: nat, ghost extra: seq<u8>, d: nat, digest: Tpm2b)
    returns (ok: bool, digestOut: Tpm2b)
    ensures ok == DigestWithin(ParseDigest(q, extraAt, extra, d), |digest.buffer|).Success?
    ensures digestOut == DigestOut(digest, DigestWithin(ParseDigest(q, extraAt, extra, d), |digest.buffer|))
  {
    digestOut := digest;
    var i := d;
    if i + 2 >= |q| {
      return false, digestOut;
    }
    var digestSize := Load16(host, q, i);
    i := i + 2;
    digestOut := digestOut.(size := digestSize);
    if digestSize + i > |q| {
      return false, digestOut;
    }
    if digestSize > |digestOut.buffer| {
      return false, digestOut;
    }
    digestOut := digestOut.(buffer := Overlay(digestOut.buffer, q[i..i + digestSize]));
    return true, digestOut;
  }

  /**
   * The header part of tpm2_util_get_digest_from_quote: the cursor moves
   * from the start past the qualified signer name, or the quote is
   * rejected.
   */
  method SkipToExtraData(host: ByteOrder, q: seq<u8>) returns (ok: bool, i: nat)
    ensures ok == SkipHeader(q).Success?
    ensures ok ==> i == SkipHeader(q).value
  {
    i := 0;
    if |q| < 6 {
      return false, i;
    }
    var magic := Load32(host, q, i);
    i := i + 4;
    var attestType := Load16(host, q, i);
    i := i + 2;
    if magic != TPM2_GENERATED_VALUE {
      return false, i;
    }
    if attestType != TPM2_ST_ATTEST_QUOTE {
      return false, i;
    }

    // Qualified signer name (skipped).
    if i + 2 >= |q| {
      return false, i;
    }
    var nameSize := Load16(host, q, i);
    i := i + 2;
    i := i + nameSize;
    ok := true;
  }

  /**
   * The extraData part of tpm2_util_get_digest_from_quote: its size is
   * stored as soon as it is read, its bytes once they are known to lie
   * inside the quote and to fit the out-parameter's buffer.
   */
  method ReadExtraData(host: ByteOrder, q: seq<u8>, e: nat, extraData: Tpm2b)
    returns (ok: bool, i: nat, extraDataOut: Tpm2b)
    ensures ok ==> e + 2 <= i <= |q| && i - (e + 2) <= |extraData.buffer|
    ensures ok ==> extraDataOut == Fill(extraData, q[e + 2..i])
    ensures ok ==> ParseExtraData(q, e) == ParseTail(q, e + 2, q[e + 2..i])
    ensures !ok ==>
      && ExtraWithin(ParseExtraData(q, e), |extraData.buffer|).Failure?
      && ExtraWithin(ParseExtraData(q, e), |extraData.buffer|).error.digestSize.None?
      && extraDataOut == ExtraOut(extraData, ExtraWithin(ParseExtraData(q, e), |extraData.buffer|))
  {
    extraDataOut := extraData;
    i := e;
    if i + 2 >= |q| {
      return false, i, extraDataOut;
    }
    var extraSize := Load16(host, q, i);
    i := i + 2;
    extraDataOut := extraDataOut.(size := extraSize);
    if extraSize + i > |q| {
      return false, i, extraDataOut;
    }
    if extraSize > |extraDataOut.buffer| {
      TailCarriesExtra(q, i, q[i..i + extraSize]);
      return false, i, extraDataOut;
    }
    extraDataOut := extraDataOut.(buffer := Overlay(extraDataOut.buffer, q[i..i + extraSize]));
    i := i + extraSize;
    ok := true;
  }

  /**
   * The clock info, firmware version and PCR selection part of
   * tpm2_util_get_digest_from_quote: the cursor moves from the end of
   * extraData to the digest length, or the quote is rejected.
   */
  method SkipToPcrDigest(host: ByteOrder, q: seq<u8>, c: nat) returns (ok: bool, i: nat)
    ensures ok == SkipToDigest(q, c).Success?
    ensures ok ==> i == SkipToDigest(q, c).value
  {
    // Clock info and firmware version (skipped).
    i := c + CLOCK_INFO_SIZE;
    if i >= |q| {
      return false, i;
    }
    i := i + FIRMWARE_VERSION_SIZE;
    if i >= |q| {
      return false, i;
    }

    // PCR selections (skipped).
    if i + 4 >= |q| {
      return false, i;
    }
    var pcrSelCount := Load32(host, q, i);
    i := i + 4;
    ghost var start := i;
    var j := 0;
    while j < pcrSelCount
      invariant j <= pcrSelCount
      invariant SkipSelections(q, start, pcrSelCount) == SkipSelections(q, i, pcrSelCount - j)
    {
      if i + 2 >= |q| {
        return false, i;
      }
      var hashAlg := Load16(host, q, i);
      i := i + 2;
      if i + 1 >= |q| {
        return false, i;
      }
      var sizeOfSelect := q[i];
      i := i + 1;
      i := i + sizeOfSelect;
      if i >= |q| {
        return false, i;
      }
      j := j + 1;
    }
    return true, i;
  }

  /**
   * tpm2_util_verify_digests: equal sizes, then byte by byte over the
   * size of the first.
   */
  method VerifyDigests(quoteDigest: Tpm2b, pcrDigest: Tpm2b) returns (r: bool)
    requires quoteDigest.size <= |quoteDigest.buffer| && pcrDigest.size <= |pcrDigest.buffer|
    ensures r <==> Value(quoteDigest) == Value(pcrDigest)
  {
    if quoteDigest.size != pcrDigest.size {
      return false;
    }
    var k := 0;
    while k < quoteDigest.size
      invariant k <= quoteDigest.size
      invariant Value(quoteDigest)[..k] == Value(pcrDigest)[..k]
    {
      if quoteDigest.buffer[k] != pcrDigest.buffer[k] {
        assert Value(quoteDigest)[k] != Value(pcrDigest)[k];
        return false;
      }
      assert Value(quoteDigest)[..k + 1] == Value(quoteDigest)[..k] + [quoteDigest.buffer[k]];
      assert Value(pcrDigest)[..k + 1] == Value(pcrDigest)[..k] + [pcrDigest.buffer[k]];
      k := k + 1;
    }
    assert Value(quoteDigest)[..k] == Value(quoteDigest);
    assert Value(pcrDigest)[..k] == Value(pcrDigest);
    return true;
  }

  // ---------------------------------------------------------------------
  // Properties of the reader.

  /** What an accepted quote looks like: header, then the two payloads in place. */
  lemma {:induction false} ParseLocates(q: seq<u8>)
    ensures Parse(q).Success? ==>
      && |q| >= 8
      && BE32(q, 0) == TPM2_GENERATED_VALUE
      && BE16(q, 4) == TPM2_ST_ATTEST_QUOTE
      && Parse(q).value.extraAt == 10 + BE16(q, 6)
      && Locates(q, Parse(q).value)
  {
    if Parse(q).Success? {
      var e := SkipHeader(q).value;
      var n := BE16(q, e);
      var extra := q[e + 2..e + 2 + n];
      var d := SkipToDigest(q, e + 2 + n).value;
      assert Parse(q) == ParseDigest(q, e + 2, extra, d);
    }
  }

  /**
   * The header guards come first: a short buffer, a wrong magic and a
   * wrong structure tag are each rejected with nothing written.
   */
  lemma HeaderGuards(q: seq<u8>)
    ensures |q| < 6 ==> Parse(q) == Reject(Header)
    ensures |q| >= 6 && BE32(q, 0) != TPM2_GENERATED_VALUE ==> Parse(q) == Reject(Magic)
    ensures |q| >= 6 && BE32(q, 0) == TPM2_GENERATED_VALUE && BE16(q, 4) != TPM2_ST_ATTEST_QUOTE ==>
      Parse(q) == Reject(AttestType)
  {
  }

  // ---------------------------------------------------------------------
  // Truncated quotes.  Every guard compares an offset with the size, and
  // every byte read lies below the offset compared, so the first k bytes of
  // a quote are read exactly as the whole quote up to the first guard that
  // k fails.

  /** Selections skipped within the first k bytes are skipped alike in the whole quote. */
  lemma {:induction false} SelectionsExtend(q: seq<u8>, k: nat, i: nat, count: nat)
    requires k <= |q|
    requires SkipSelections(q[..k], i, count).Success?
    ensures SkipSelections(q, i, count) == SkipSelections(q[..k], i, count)
    decreases count
  {
    if count > 0 {
      var p := q[..k];
      assert p[i + 2] == q[i + 2];
      SelectionsExtend(q, k, i + 3 + q[i + 2], count - 1);
    }
  }

  /** Selections of the whole quote that end below k are skipped alike in its first k bytes. */
  lemma {:induction false} SelectionsShrink(q: seq<u8>, k: nat, i: nat, count: nat)
    requires k <= |q|
    requires SkipSelections(q, i, count).Success? && SkipSelections(q, i, count).value < k
    ensures SkipSelections(q[..k], i, count) == SkipSelections(q, i, count)
    decreases count
  {
    if count > 0 {
      var p := q[..k];
      var j := i + 3 + q[i + 2];
      assert SkipSelections(q, i, count) == SkipSelections(q, j, count - 1);
      assert p[i + 2] == q[i + 2];
      SelectionsShrink(q, k, j, count - 1);
    }
  }

  lemma ToDigestExtend(q: seq<u8>, k: nat, c: nat)
    requires k <= |q|
    requires SkipToDigest(q[..k], c).Success?
    ensures SkipToDigest(q, c) == SkipToDigest(q[..k], c)
  {
    var s := c + CLOCK_INFO_SIZE + FIRMWARE_VERSION_SIZE;
    assert BE32(q[..k], s) == BE32(q, s);
    SelectionsExtend(q, k, s + 4, BE32(q, s));
  }

  lemma ToDigestShrink(q: seq<u8>, k: nat, c: nat)
    requires k <= |q|
    requires SkipToDigest(q, c).Success? && SkipToDigest(q, c).value < k
    ensures SkipToDigest(q[..k], c) == SkipToDigest(q, c)
  {
    var s := c + CLOCK_INFO_SIZE + FIRMWARE_VERSION_SIZE;
    assert BE32(q[..k], s) == BE32(q, s);
    SelectionsShrink(q, k, s + 4, BE32(q, s));
  }

  /** The first k bytes hold the same fields as the whole quote, up to k. */
  lemma PrefixFields(q: seq<u8>, k: nat, i: nat)
    requires k <= |q|
    ensures i + 2 <= k ==> BE16(q[..k], i) == BE16(q, i)
    ensures i + 4 <= k ==> BE32(q[..k], i) == BE32(q, i)
  {
  }

  lemma PrefixHeader(q: seq<u8>, k: nat)
    requires 8 < k <= |q|
    ensures SkipHeader(q[..k]) == SkipHeader(q)
  {
    PrefixFields(q, k, 0);
    PrefixFields(q, k, 4);
    PrefixFields(q, k, 6);
  }

  lemma PrefixDigest(q: seq<u8>, k: nat, extraAt: nat, extra: seq<u8>, d: nat)
    requires d + 2 < k <= |q|
    ensures ParseDigest(q[..k], extraAt, extra, d) ==
      if BE16(q, d) + d + 2 > k then
        Failure(Rejection(DigestBytes, Some(|extra|), Some(extra), Some(BE16(q, d))))
      else ParseDigest(q, extraAt, extra, d)
  {
    PrefixFields(q, k, d);
    var m := BE16(q, d);
    if m + d + 2 <= k {
      assert q[..k][d + 2..d + 2 + m] == q[d + 2..d + 2 + m];
    }
  }

  lemma PrefixExtraData(q: seq<u8>, k: nat, e: nat)
    requires e + 2 < k <= |q|
    ensures ParseExtraData(q[..k], e) ==
      if BE16(q, e) + e + 2 > k then Failure(Rejection(ExtraDataBytes, Some(BE16(q, e)), None, None))
      else ParseTail(q[..k], e + 2, q[e + 2..e + 2 + BE16(q, e)])
  {
    PrefixFields(q, k, e);
    var n := BE16(q, e);
    if n + e + 2 <= k {
      assert q[..k][e + 2..e + 2 + n] == q[e + 2..e + 2 + n];
    }
  }

  lemma TailExtends(q: seq<u8>, k: nat, extraAt: nat, extra: seq<u8>)
    requires k <= |q|
    ensures ParseTail(q[..k], extraAt, extra).Success? ==> ParseTail(q, extraAt, extra) == ParseTail(q[..k], extraAt, extra)
  {
    var c := extraAt + |extra|;
    if ParseTail(q[..k], extraAt, extra).Success? {
      ToDigestExtend(q, k, c);
      var d := SkipToDigest(q, c).value;
      PrefixDigest(q, k, extraAt, extra, d);
    }
  }

  lemma ExtraDataExtends(q: seq<u8>, k: nat, e: nat)
    requires k <= |q|
    ensures ParseExtraData(q[..k], e).Success? ==> ParseExtraData(q, e) == ParseExtraData(q[..k], e)
  {
    if ParseExtraData(q[..k], e).Success? {
      PrefixExtraData(q, k, e);
      var extra := q[e + 2..e + 2 + BE16(q, e)];
      TailExtends(q, k, e + 2, extra);
    }
  }

  /** A quote accepted in its first k bytes is accepted, with the same layout, in full. */
  lemma ParseExtends(q: seq<u8>, k: nat)
    requires k <= |q|
    ensures Parse(q[..k]).Success? ==> Parse(q) == Parse(q[..k])
  {
    var p := q[..k];
    if Parse(p).Success? {
      var e := SkipHeader(p).value;
      PrefixHeader(q, k);
      ExtraDataExtends(q, k, e);
    }
  }

  /**
   * A declared length that runs past the buffer is refused at its own guard:
   * the signer name's, then the extraData's (its size stored), then the
   * digest's (both sizes and extraData stored).
   */
  lemma OverlongLengths(q: seq<u8>)
    requires |q| > 8 && BE32(q, 0) == TPM2_GENERATED_VALUE && BE16(q, 4) == TPM2_ST_ATTEST_QUOTE
    ensures 10 + BE16(q, 6) >= |q| ==> Parse(q) == Reject(ExtraDataSize)
    ensures var e := 8 + BE16(q, 6); e + 2 < |q| && e + 2 + BE16(q, e) > |q| ==>
      Parse(q) == Failure(Rejection(ExtraDataBytes, Some(BE16(q, e)), None, None))
  {
  }

  /** The digest's declared length runs past the buffer: the reader stops at DigestBytes. */
  lemma OverlongDigest(q: seq<u8>, d: nat)
    requires SkipHeader(q).Success?
    requires var e := SkipHeader(q).value; e + 2 < |q| && e + 2 + BE16(q, e) <= |q|
    requires var e := SkipHeader(q).value; SkipToDigest(q, e + 2 + BE16(q, e)) == Success(d)
    requires d + 2 < |q| && d + 2 + BE16(q, d) > |q|
    ensures var e := SkipHeader(q).value; var n := BE16(q, e);
      Parse(q) == Failure(Rejection(DigestBytes, Some(n), Some(q[e + 2..e + 2 + n]), Some(BE16(q, d))))
  {
  }

  /** An accepted quote ends within the buffer. */
  lemma AcceptedEnds(q: seq<u8>)
    ensures Parse(q).Success? ==> End(Parse(q).value) <= |q|
  {
    ParseLocates(q);
  }

  /**
   * A truncated quote is refused: cut an accepted quote anywhere before the
   * end of its digest and the reader rejects it.  Cut inside a payload, the
   * declared length runs past the end and the reader stops at that
   * payload's guard, having stored the size it read; cut at or before the
   * extraData length, it stops at that length's guard.
   */
  lemma TruncationRejected(q: seq<u8>, k: nat)
    requires Parse(q).Success? && k < End(Parse(q).value) && k <= |q|
    ensures Parse(q[..k]).Failure?
    ensures k < 6 ==> Parse(q[..k]) == Reject(Header)
    ensures 6 <= k <= 8 ==> Parse(q[..k]) == Reject(SignerName)
    ensures 8 < k <= Parse(q).value.extraAt ==> Parse(q[..k]) == Reject(ExtraDataSize)
    ensures var l := Parse(q).value; l.extraAt < k < l.extraAt + |l.extraData| ==>
      Parse(q[..k]) == Failure(Rejection(ExtraDataBytes, Some(|l.extraData|), None, None))
    ensures var l := Parse(q).value; l.digestAt < k ==>
      Parse(q[..k]) == Failure(Rejection(DigestBytes, Some(|l.extraData|), Some(l.extraData), Some(|l.digest|)))
  {
    ParseExtends(q, k);
    AcceptedEnds(q[..k]);
    if k <= 8 {
      TruncatedHeader(q, k);
    } else {
      TruncatedBody(q, k);
    }
  }

  /** Cut within the first 8 bytes: the magic and tag pass, the signer name's length does not. */
  lemma TruncatedHeader(q: seq<u8>, k: nat)
    requires Parse(q).Success? && k <= 8 && k <= |q|
    ensures k < 6 ==> Parse(q[..k]) == Reject(Header)
    ensures 6 <= k ==> Parse(q[..k]) == Reject(SignerName)
  {
    if 6 <= k {
      assert SkipHeader(q).Success?;
      PrefixFields(q, k, 0);
      PrefixFields(q, k, 4);
    }
  }

  /** Cut after the signer name's length: the guard of the field the cut falls in. */
  lemma TruncatedBody(q: seq<u8>, k: nat)
    requires Parse(q).Success? && 8 < k < End(Parse(q).value) && k <= |q|
    ensures k <= Parse(q).value.extraAt ==> Parse(q[..k]) == Reject(ExtraDataSize)
    ensures var l := Parse(q).value; l.extraAt < k < l.extraAt + |l.extraData| ==>
      Parse(q[..k]) == Failure(Rejection(ExtraDataBytes, Some(|l.extraData|), None, None))
    ensures var l := Parse(q).value; l.digestAt < k ==>
      Parse(q[..k]) == Failure(Rejection(DigestBytes, Some(|l.extraData|), Some(l.extraData), Some(|l.digest|)))
  {
    var l := Parse(q).value;
    var e := AcceptedExtra(q);
    PrefixHeader(q, k);
    assert Parse(q[..k]) == ParseExtraData(q[..k], e);
    if l.extraAt < k {
      PrefixExtraData(q, k, e);
      if l.digestAt < k {
        TruncatedDigest(q, k);
      }
    }
  }

  /** Where an accepted quote's extraData length lies: e, reached from the header. */
  lemma AcceptedExtra(q: seq<u8>) returns (e: nat)
    requires Parse(q).Success?
    ensures var l := Parse(q).value;
      && SkipHeader(q) == Success(e)
      && l.extraAt == e + 2 && BE16(q, e) == |l.extraData|
      && l.extraData == q[e + 2..e + 2 + BE16(q, e)]
  {
    var l := Parse(q).value;
    e := SkipHeader(q).value;
    assert Parse(q) == ParseExtraData(q, e);
    assert Parse(q) == ParseTail(q, e + 2, q[e + 2..e + 2 + BE16(q, e)]);
  }

  /** Cut inside the digest: the digest length was stored, the bytes were not. */
  lemma TruncatedDigest(q: seq<u8>, k: nat)
    requires Parse(q).Success? && Parse(q).value.digestAt < k < End(Parse(q).value) && k <= |q|
    ensures var l := Parse(q).value;
      ParseTail(q[..k], l.extraAt, l.extraData) ==
      Failure(Rejection(DigestBytes, Some(|l.extraData|), Some(l.extraData), Some(|l.digest|)))
  {
    var l := Parse(q).value;
    var d := AcceptedDigest(q);
    var c := l.extraAt + |l.extraData|;
    assert BE16(q, d) + d + 2 > k;
    ToDigestShrink(q, k, c);
    TailStep(q[..k], l.extraAt, l.extraData, c, d);
    PrefixDigest(q, k, l.extraAt, l.extraData, d);
  }

  /** Where an accepted quote's digest length lies: d, reached from the end of extraData. */
  lemma AcceptedDigest(q: seq<u8>) returns (d: nat)
    requires Parse(q).Success?
    ensures var l := Parse(q).value;
      && SkipToDigest(q, l.extraAt + |l.extraData|) == Success(d)
      && l.digestAt == d + 2 && |l.digest| == BE16(q, d)
  {
    var l := Parse(q).value;
    var e := SkipHeader(q).value;
    assert Parse(q) == ParseExtraData(q, e);
    assert Parse(q) == ParseTail(q, l.extraAt, l.extraData);
    d := SkipToDigest(q, l.extraAt + |l.extraData|).value;
    assert Parse(q) == ParseDigest(q, l.extraAt, l.extraData, d);
  }

  // ---------------------------------------------------------------------
  // The quote a TPM produces (TPMS_ATTEST with a TPMS_QUOTE_INFO).

  /** One TPMS_PCR_SELECTION: a hash algorithm and its PCR bitmap. */
  datatype PcrSelection = PcrSelection(hash: u16, pcrSelect: seq<u8>)

  /** The fields of a quote; the magic and the tag are implied. */
  datatype QuoteInfo = QuoteInfo(
    qualifiedSigner: seq<u8>,
    extraData: seq<u8>,
    clockInfo: seq<u8>,
    firmwareVersion: seq<u8>,
    pcrSelections: seq<PcrSelection>,
    pcrDigest: seq<u8>)

  /** The bitmap sizes fit their one-byte length. */
  predicate SelectionsFit(sels: seq<PcrSelection>)
  {
    forall k :: 0 <= k < |sels| ==> |sels[k].pcrSelect| <= UINT8_MAX
  }

  /** Every length fits its prefix and the fixed-size fields have their sizes. */
  predicate WellFormed(a: QuoteInfo)
  {
    && |a.qualifiedSigner| <= UINT16_MAX
    && |a.extraData| <= UINT16_MAX
    && |a.clockInfo| == CLOCK_INFO_SIZE
    && |a.firmwareVersion| == FIRMWARE_VERSION_SIZE
    && |a.pcrSelections| <= UINT32_MAX
    && SelectionsFit(a.pcrSelections)
    && |a.pcrDigest| <= UINT16_MAX
  }

  /** A UINT16 on the wire. */
  function U16Bytes(x: nat): (r: seq<u8>)
    requires x <= UINT16_MAX
    ensures |r| == 2 && BE16(r, 0) == x
  {
    [x / 0x100, x % 0x100]
  }

  /** A UINT32 on the wire. */
  function U32Bytes(x: nat): (r: seq<u8>)
    requires x <= UINT32_MAX
    ensures |r| == 4 && BE32(r, 0) == x
  {
    var hi := x / 0x1_0000;
    var lo := x % 0x1_0000;
    assert x == hi * 0x1_0000 + lo;
    assert BE32([hi / 0x100, hi % 0x100, lo / 0x100, lo % 0x100], 0) == hi * 0x1_0000 + lo;
    [hi / 0x100, hi % 0x100, lo / 0x100, lo % 0x100]
  }

  /** A TPM2B on the wire: its length as a UINT16, then its bytes. */
  function Sized(b: seq<u8>): (r: seq<u8>)
    requires |b| <= UINT16_MAX
    ensures |r| == 2 + |b|
  {
    U16Bytes(|b|) + b
  }

  function EncodeSelections(sels: seq<PcrSelection>): (r: seq<u8>)
    requires SelectionsFit(sels)
  {
    if sels == [] then []
    else
      U16Bytes(sels[0].hash) + [|sels[0].pcrSelect|] + sels[0].pcrSelect
      + EncodeSelections(sels[1..])
  }

  /** The magic, the tag, the qualified signer name and extraData, marshalled. */
  function Head(a: QuoteInfo): (r: seq<u8>)
    requires WellFormed(a)
    ensures |r| == ExtraOffset(a) + 2 + |a.extraData|
  {
    U32Bytes(TPM2_GENERATED_VALUE) + U16Bytes(TPM2_ST_ATTEST_QUOTE) + Sized(a.qualifiedSigner)
    + Sized(a.extraData)
  }

  /** The clock info, the firmware version and the PCR selections, marshalled. */
  function Body(a: QuoteInfo): (r: seq<u8>)
    requires WellFormed(a)
    ensures |r| == CLOCK_INFO_SIZE + FIRMWARE_VERSION_SIZE + 4 + |EncodeSelections(a.pcrSelections)|
  {
    a.clockInfo + a.firmwareVersion + U32Bytes(|a.pcrSelections|) + EncodeSelections(a.pcrSelections)
  }

  /** The marshalled quote. */
  function Encode(a: QuoteInfo): (r: seq<u8>)
    requires WellFormed(a)
  {
    Head(a) + Body(a) + Sized(a.pcrDigest)
  }

  /** One selection skipped: the bitmap size at i + 2 says how far. */
  lemma SelectionStep(q: seq<u8>, i: nat, count: nat)
    requires count > 0 && i + 2 < |q| && i + 3 + q[i + 2] < |q|
    ensures SkipSelections(q, i, count) == SkipSelections(q, i + 3 + q[i + 2], count - 1)
  {
  }

  /** Bytes found at offset i: a byte of the first part, and the second part after it. */
  lemma PartsAt(q: seq<u8>, i: nat, head: seq<u8>, rest: seq<u8>)
    requires |head| >= 3 && i + |head| + |rest| <= |q| && q[i..i + |head| + |rest|] == head + rest
    ensures q[i + 2] == head[2]
    ensures q[i + |head|..i + |head| + |rest|] == rest
  {
    assert q[i..i + |head| + |rest|][2] == q[i + 2];
    SubSlice(q, i, |head| + |rest|, |head|, |head| + |rest|);
    assert (head + rest)[|head|..] == rest;
  }

  /** Skipping marshalled selections lands just past them. */
  lemma {:induction false} SkipEncoded(q: seq<u8>, i: nat, sels: seq<PcrSelection>)
    requires SelectionsFit(sels)
    requires i + |EncodeSelections(sels)| < |q|
    requires q[i..i + |EncodeSelections(sels)|] == EncodeSelections(sels)
    ensures SkipSelections(q, i, |sels|) == Success(i + |EncodeSelections(sels)|)
    decreases |sels|
  {
    if sels != [] {
      var sel := sels[0];
      var rest := EncodeSelections(sels[1..]);
      var head := U16Bytes(sel.hash) + [|sel.pcrSelect|] + sel.pcrSelect;
      assert EncodeSelections(sels) == head + rest;
      assert head[2] == |sel.pcrSelect|;
      PartsAt(q, i, head, rest);
      var j := i + |head|;
      assert j == i + 3 + q[i + 2];
      SkipEncoded(q, j, sels[1..]);
      SelectionStep(q, i, |sels|);
      assert SkipSelections(q, j, |sels[1..]|) == Success(j + |rest|);
    }
  }

  /** The bytes of a TPM2B behind its length at offset i. */
  lemma SizedAt(q: seq<u8>, i: nat, b: seq<u8>)
    requires |b| <= UINT16_MAX && i + 2 + |b| <= |q| && q[i..i + 2 + |b|] == Sized(b)
    ensures BE16(q, i) == |b| && q[i + 2..i + 2 + |b|] == b
  {
    assert q[i] == Sized(b)[0] && q[i + 1] == Sized(b)[1];
    assert q[i + 2..i + 2 + |b|] == Sized(b)[2..];
  }

  lemma U32At(q: seq<u8>, i: nat, x: nat)
    requires x <= UINT32_MAX && i + 4 <= |q| && q[i..i + 4] == U32Bytes(x)
    ensures BE32(q, i) == x
  {
    var w := U32Bytes(x);
    assert q[i] == w[0] && q[i + 1] == w[1] && q[i + 2] == w[2] && q[i + 3] == w[3];
  }

  /** Where the extraData length of a marshalled quote lies. */
  function ExtraOffset(a: QuoteInfo): nat
  {
    8 + |a.qualifiedSigner|
  }

  /** Where the selection count of a marshalled quote lies. */
  function CountOffset(a: QuoteInfo): nat
  {
    ExtraOffset(a) + 2 + |a.extraData| + CLOCK_INFO_SIZE + FIRMWARE_VERSION_SIZE
  }

  /** Where the digest length of a marshalled quote lies. */
  function DigestOffset(a: QuoteInfo): nat
    requires WellFormed(a)
  {
    CountOffset(a) + 4 + |EncodeSelections(a.pcrSelections)|
  }

  /** A marshalled quote has its fields where the reader looks for them. */
  lemma EncodeFields(a: QuoteInfo)
    requires WellFormed(a)
    ensures HasFields(Encode(a), a)
  {
    var q := Encode(a);
    var h := Head(a);
    var b := Body(a);
    Thirds(q, h, b, Sized(a.pcrDigest));
    HeadAt(q, a);
    BodyAt(q, |h|, a);
    assert |h| + |b| == DigestOffset(a);
    SizedAt(q, DigestOffset(a), a.pcrDigest);
  }

  /** The three parts of h + b + t, sliced back out. */
  lemma Thirds(q: seq<u8>, h: seq<u8>, b: seq<u8>, t: seq<u8>)
    requires q == h + b + t
    ensures q[..|h|] == h && q[|h|..|h| + |b|] == b && q[|h| + |b|..|h| + |b| + |t|] == t
  {
    assert q[..|h|] == h;
    assert q[|h|..|h| + |b|] == b;
    assert q[|h| + |b|..] == t;
  }

  /** The fields of a marshalled head at the start of q. */
  lemma HeadAt(q: seq<u8>, a: QuoteInfo)
    requires WellFormed(a)
    requires |Head(a)| <= |q| && q[..|Head(a)|] == Head(a)
    ensures BE32(q, 0) == TPM2_GENERATED_VALUE
    ensures BE16(q, 4) == TPM2_ST_ATTEST_QUOTE
    ensures BE16(q, 6) == |a.qualifiedSigner|
    ensures BE16(q, ExtraOffset(a)) == |a.extraData|
    ensures q[ExtraOffset(a) + 2..ExtraOffset(a) + 2 + |a.extraData|] == a.extraData
  {
    var p0 := U32Bytes(TPM2_GENERATED_VALUE);
    var p1 := p0 + U16Bytes(TPM2_ST_ATTEST_QUOTE);
    var p2 := p1 + Sized(a.qualifiedSigner);
    assert Head(a) == p2 + Sized(a.extraData);
    assert q[..|p2|] == p2 && p2[..|p1|] == p1 && p1[..|p0|] == p0;
    U32At(q, 0, TPM2_GENERATED_VALUE);
    assert q[4] == p1[4] && q[5] == p1[5];
    SizedAt(q, 6, a.qualifiedSigner);
    SizedAt(q, ExtraOffset(a), a.extraData);
  }

  /** The fields of a marshalled body at offset x of q. */
  lemma BodyAt(q: seq<u8>, x: nat, a: QuoteInfo)
    requires WellFormed(a)
    requires x + |Body(a)| <= |q| && q[x..x + |Body(a)|] == Body(a)
    ensures
      var s := x + CLOCK_INFO_SIZE + FIRMWARE_VERSION_SIZE;
      && BE32(q, s) == |a.pcrSelections|
      && q[s + 4..x + |Body(a)|] == EncodeSelections(a.pcrSelections)
  {
    var s := x + CLOCK_INFO_SIZE + FIRMWARE_VERSION_SIZE;
    var p := a.clockInfo + a.firmwareVersion + U32Bytes(|a.pcrSelections|);
    assert Body(a) == p + EncodeSelections(a.pcrSelections);
    var w := q[x..x + |Body(a)|];
    SubSlice(q, x, |Body(a)|, 25, 29);
    assert w[..|p|] == p;
    assert p[25..29] == U32Bytes(|a.pcrSelections|);
    U32At(q, s, |a.pcrSelections|);
    assert q[s + 4..x + |Body(a)|] == Body(a)[|p|..];
  }

  /** The reader's step over a well-placed extraData. */
  lemma ExtraDataStep(q: seq<u8>, e: nat, extra: seq<u8>)
    requires e + 2 + |extra| <= |q| && e + 2 < |q|
    requires BE16(q, e) == |extra| && q[e + 2..e + 2 + |extra|] == extra
    ensures ParseExtraData(q, e) == ParseTail(q, e + 2, extra)
  {
  }

  /** The reader's step from the end of extraData to the digest length. */
  lemma TailStep(q: seq<u8>, x: nat, extra: seq<u8>, c: nat, d: nat)
    requires c == x + |extra| && SkipToDigest(q, c) == Success(d)
    ensures ParseTail(q, x, extra) == ParseDigest(q, x, extra, d)
  {
  }

  /** The fields of a quote at the offsets a marshalled quote has them. */
  ghost predicate HasFields(q: seq<u8>, a: QuoteInfo)
    requires WellFormed(a)
  {
    && |q| == DigestOffset(a) + 2 + |a.pcrDigest|
    && BE32(q, 0) == TPM2_GENERATED_VALUE
    && BE16(q, 4) == TPM2_ST_ATTEST_QUOTE
    && BE16(q, 6) == |a.qualifiedSigner|
    && BE16(q, ExtraOffset(a)) == |a.extraData|
    && q[ExtraOffset(a) + 2..ExtraOffset(a) + 2 + |a.extraData|] == a.extraData
    && BE32(q, CountOffset(a)) == |a.pcrSelections|
    && q[CountOffset(a) + 4..DigestOffset(a)] == EncodeSelections(a.pcrSelections)
    && BE16(q, DigestOffset(a)) == |a.pcrDigest|
    && q[DigestOffset(a) + 2..] == a.pcrDigest
  }

  /** The reader finds the fields where HasFields puts them. */
  lemma ParseFields(q: seq<u8>, a: QuoteInfo)
    requires WellFormed(a) && HasFields(q, a)
    ensures |a.pcrDigest| > 0 ==>
      && Parse(q).Success?
      && Parse(q).value.extraData == a.extraData
      && Parse(q).value.digest == a.pcrDigest
    ensures |a.pcrDigest| == 0 ==>
      Parse(q) == Failure(Rejection(DigestSize, Some(|a.extraData|), Some(a.extraData), None))
  {
    var e := ExtraOffset(a);
    var d := DigestOffset(a);
    var x := e + 2 + |a.extraData|;
    HeaderStep(q, |a.qualifiedSigner|);
    ExtraDataStep(q, e, a.extraData);
    SkipToDigestAt(q, x, CountOffset(a), d, a.pcrSelections);
    TailStep(q, e + 2, a.extraData, x, d);
    ParseChain(q, e, a.extraData, d);
    DigestStep(q, e + 2, a.extraData, d, a.pcrDigest);
  }

  /** The reader's steps put together. */
  lemma ParseChain(q: seq<u8>, e: nat, extra: seq<u8>, d: nat)
    requires SkipHeader(q) == Success(e)
    requires ParseExtraData(q, e) == ParseTail(q, e + 2, extra)
    requires ParseTail(q, e + 2, extra) == ParseDigest(q, e + 2, extra, d)
    ensures Parse(q) == ParseDigest(q, e + 2, extra, d)
  {
  }

  /** The reader's step over a well-formed header. */
  lemma HeaderStep(q: seq<u8>, n: nat)
    requires |q| > 8 && BE32(q, 0) == TPM2_GENERATED_VALUE && BE16(q, 4) == TPM2_ST_ATTEST_QUOTE
    requires BE16(q, 6) == n
    ensures SkipHeader(q) == Success(8 + n)
  {
  }

  /** The reader's step over a digest that ends the quote. */
  lemma DigestStep(q: seq<u8>, x: nat, extra: seq<u8>, d: nat, digest: seq<u8>)
    requires d + 2 + |digest| == |q| && BE16(q, d) == |digest| && q[d + 2..] == digest
    ensures |digest| > 0 ==> ParseDigest(q, x, extra, d) == Success(Layout(x, extra, d + 2, digest))
    ensures |digest| == 0 ==>
      ParseDigest(q, x, extra, d) == Failure(Rejection(DigestSize, Some(|extra|), Some(extra), None))
  {
    assert q[d + 2..d + 2 + |digest|] == digest;
  }

  /**
   * Reading a marshalled quote gives back its extraData and its PCR
   * digest.  An empty digest is the one field the reader cannot take back:
   * with no byte after its length, the length guard rejects the quote.
   */
  lemma ParseEncode(a: QuoteInfo)
    requires WellFormed(a)
    ensures |a.pcrDigest| > 0 ==>
      && Parse(Encode(a)).Success?
      && Parse(Encode(a)).value.extraData == a.extraData
      && Parse(Encode(a)).value.digest == a.pcrDigest
    ensures |a.pcrDigest| == 0 ==>
      Parse(Encode(a)) == Failure(Rejection(DigestSize, Some(|a.extraData|), Some(a.extraData), None))
  {
    EncodeFields(a);
    ParseFields(Encode(a), a);
  }

  /** Past the clock info and firmware version, over marshalled selections. */
  lemma SkipToDigestAt(q: seq<u8>, x: nat, c: nat, d: nat, sels: seq<PcrSelection>)
    requires SelectionsFit(sels)
    requires c == x + CLOCK_INFO_SIZE + FIRMWARE_VERSION_SIZE
    requires d == c + 4 + |EncodeSelections(sels)| && d < |q|
    requires BE32(q, c) == |sels|
    requires q[c + 4..d] == EncodeSelections(sels)
    ensures SkipToDigest(q, x) == Success(d)
  {
    SkipEncoded(q, c + 4, sels);
  }

  // ---------------------------------------------------------------------
  // The out-parameters' capacities.

  /**
   * The reader as written copies extraData whatever its length: a
   * well-formed quote whose extraData is longer than the out-parameter's
   * buffer is accepted, and the copy leaves a buffer longer than the one
   * the caller supplied, so it ran past its end.
   */
  lemma ExtraDataOverrunsAsWritten(a: QuoteInfo, extraData: Tpm2b)
    requires WellFormed(a) && |a.pcrDigest| > 0
    requires |a.extraData| > |extraData.buffer|
    ensures Parse(Encode(a)).Success?
    ensures |ExtraOut(extraData, Parse(Encode(a))).buffer| > |extraData.buffer|
  {
    ParseEncode(a);
  }

  /**
   * The same for the digest: a well-formed quote whose PCR digest is
   * longer than the out-parameter's buffer is accepted, and the copy runs
   * past the buffer's end.
   */
  lemma DigestOverrunsAsWritten(a: QuoteInfo, digest: Tpm2b)
    requires WellFormed(a)
    requires |a.pcrDigest| > |digest.buffer|
    ensures Parse(Encode(a)).Success?
    ensures |DigestOut(digest, Parse(Encode(a))).buffer| > |digest.buffer|
  {
    ParseEncode(a);
  }

  /**
   * The reader with capacity checks never writes past its out-parameters:
   * both buffers keep their sizes, every stored payload fits, and so does
   * every stored size of an accepted quote.
   */
  lemma WithinFits(q: seq<u8>, extraData: Tpm2b, digest: Tpm2b)
    ensures var r := ParseWithin(q, |extraData.buffer|, |digest.buffer|);
      && |ExtraOut(extraData, r).buffer| == |extraData.buffer|
      && |DigestOut(digest, r).buffer| == |digest.buffer|
      && (r.Success? ==>
            && ExtraOut(extraData, r).size <= |extraData.buffer|
            && DigestOut(digest, r).size <= |digest.buffer|)
  {
  }

  /**
   * The capacity checks refuse exactly the quotes whose payloads do not
   * fit: an accepted quote is one the code accepts with both payloads
   * within their buffers, and its layout is unchanged; an extraData too
   * long is refused before the digest is looked at.
   */
  lemma WithinAgrees(q: seq<u8>, extraCap: nat, digestCap: nat)
    ensures ParseWithin(q, extraCap, digestCap).Success? <==>
      Parse(q).Success? && |Parse(q).value.extraData| <= extraCap && |Parse(q).value.digest| <= digestCap
    ensures ParseWithin(q, extraCap, digestCap).Success? ==> ParseWithin(q, extraCap, digestCap) == Parse(q)
    ensures CopiedExtra(Parse(q)).Some? && |CopiedExtra(Parse(q)).value| > extraCap ==>
      ParseWithin(q, extraCap, digestCap) ==
      Failure(Rejection(ExtraDataTooLong, Some(|CopiedExtra(Parse(q)).value|), None, None))
    ensures Parse(q).Success? && |Parse(q).value.extraData| <= extraCap && |Parse(q).value.digest| > digestCap ==>
      var l := Parse(q).value;
      ParseWithin(q, extraCap, digestCap) ==
      Failure(Rejection(DigestTooLong, Some(|l.extraData|), Some(l.extraData), Some(|l.digest|)))
    ensures Parse(q).Failure? && (CopiedExtra(Parse(q)).None? || |CopiedExtra(Parse(q)).value| <= extraCap) ==>
      ParseWithin(q, extraCap, digestCap) == Parse(q)
  {
  }

  /**
   * With the capacity checks the reader still takes back every marshalled
   * quote whose payloads fit: a non-empty digest of at most digestCap
   * bytes and an extraData of at most extraCap bytes.
   */
  lemma ParseEncodeWithin(a: QuoteInfo, extraCap: nat, digestCap: nat)
    requires WellFormed(a) && 0 < |a.pcrDigest| <= digestCap && |a.extraData| <= extraCap
    ensures ParseWithin(Encode(a), extraCap, digestCap).Success?
    ensures ParseWithin(Encode(a), extraCap, digestCap).value.extraData == a.extraData
    ensures ParseWithin(Encode(a), extraCap, digestCap).value.digest == a.pcrDigest
  {
    ParseEncode(a);
  }

}
