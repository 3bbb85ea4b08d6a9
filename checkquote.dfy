/**
 * tpm2_checkquote: checks a quote produced by a TPM against the
 * attestation key, an optional qualifying nonce and optional PCR values.
 * The tool keeps its options and intermediate digests in one static
 * context; the key, signature and PCR file loaders, RSA verification and
 * hashing are OpenSSL or tpm2-tools code outside the model and are given
 * as functions.
 */
module CheckQuote {
  import opened Wrappers
  import opened Bytes
  import opened Strings
  import opened Quote

  const TPM2_ALG_ERROR: u16 := 0x0000
  const TPM2_ALG_SHA1: u16 := 0x0004
  const TPM2_ALG_RSASSA: u16 := 0x0014
  /** sizeof(TPMU_HA): the buffer of a TPM2B_DIGEST. */
  const DIGEST_CAPACITY: nat := 64
  /**
   * The quote reader's verdict on msg with the buffers init hands it:
   * ctx.quoteExtraData, a TPM2B_DATA, and ctx.quoteHash, a TPM2B_DIGEST.
   */
  function QuoteVerdict(msg: seq<u8>): Result<Layout, Rejection>
  {
    ParseWithin(msg, TPM2B_DATA_CAPACITY, DIGEST_CAPACITY)
  }

  /** ARRAY_LEN(tpm2_pcrs.pcr_values) == TPM2_MAX_PCRS. */
  const TPM2_MAX_PCRS: nat := 32

  /** The parts of a TPMT_SIGNATURE the tool looks at. */
  datatype Signature = Signature(sigAlg: u16, hash: u16, sig: seq<u8>)

  /** A PCR file: the raw TPML_PCR_SELECTION and the raw TPML_DIGEST of each entry. */
  datatype PcrFile = PcrFile(selection: seq<u8>, values: seq<seq<u8>>)

  /** Code outside the model, as functions of their inputs. */
  datatype Foreign = Foreign(
    /** fopen and the PEM reader: the RSA key in the named file. */
    loadPublicKey: string -> Option<seq<u8>>,
    /** RSA_verify(hash of the scheme, digest, signature, key). */
    rsaVerify: (u16, seq<u8>, seq<u8>, seq<u8>) -> bool,
    /** tpm2_openssl_hash_compute_data. */
    hashData: (u16, seq<u8>) -> Option<seq<u8>>,
    /** tpm2_openssl_hash_pcr_banks. */
    hashPcrBanks: (u16, PcrFile) -> Option<seq<u8>>,
    /** pcr_print_pcr_struct. */
    printPcrs: PcrFile -> bool,
    /** tpm2_convert_sig_load(path, plain format?, format, halg). */
    loadSignature: (string, bool, u16, u16) -> Option<Signature>,
    /** tpm2_alg_util_from_optarg with the hash flags, and with the signature-scheme flags. */
    hashAlgFromOptarg: string -> u16,
    sigSchemeFromOptarg: string -> u16)

  /** Why verify_signature said no, in the order it checks. */
  datatype Verdict = Verified | KeyUnavailable | NotRsassa | BadSignature | NonceMismatch | PcrMismatch

  /** tool_rc. */
  datatype ToolRc = RcSuccess | RcGeneralError | RcOptionError

  /**
   * message_from_file: the file must exist and be non-empty.  Its size is
   * stored in the 16-bit size field of the TPM2B_ATTEST and that field is
   * the buffer size the file is then read against, so a file of 64 KiB or
   * more is refused.
   */
  function MessageFromFile(fs: map<string, seq<u8>>, path: Option<string>): (r: Option<seq<u8>>)
    ensures r.Some? <==> path.Some? && path.value in fs && 0 < |fs[path.value]| <= UINT16_MAX
    ensures r.Some? ==> r.value == fs[path.value]
  {
    if path.None? || path.value !in fs then None
    else
      var content := fs[path.value];
      if |content| == 0 then None
      else
        var size16 := |content| % 0x1_0000;
        if |content| > size16 then None else Some(content)
  }

  /** count * size, built by addition. */
  function Span(count: nat, size: nat): nat
  {
    if count == 0 then 0 else Span(count - 1, size) + size
  }

  lemma {:induction false} SpanIsProduct(count: nat, size: nat)
    ensures Span(count, size) == count * size
  {
    if count > 0 {
      SpanIsProduct(count - 1, size);
    }
  }

  lemma {:induction false} SpanMonotonic(a: nat, b: nat, size: nat)
    requires a <= b
    ensures Span(a, size) <= Span(b, size)
    decreases b
  {
    if a < b {
      SpanMonotonic(a, b - 1, size);
    }
  }

  /** The digests pcrs_from_file reads: count raw TPML_DIGEST images from offset off. */
  function DigestImages(content: seq<u8>, off: nat, count: nat, size: nat): (r: seq<seq<u8>>)
    requires off + Span(count, size) <= |content|
    ensures |r| == count
    ensures forall j :: 0 <= j < count ==> |r[j]| == size
  {
    if count == 0 then []
    else DigestImages(content, off, count - 1, size) + [content[off + Span(count - 1, size)..off + Span(count, size)]]
  }

  /**
   * What pcrs_from_file reads once the count is known: a count above
   * TPM2_MAX_PCRS is refused before any digest is read; then count digests
   * of digestSize bytes each follow the selection and the 4 count bytes.
   */
  function PcrFileWith(file: seq<u8>, selSize: nat, digestSize: nat, count: nat): (r: Option<PcrFile>)
    requires selSize + 4 <= |file|
    ensures r.Some? ==> |r.value.values| == count <= TPM2_MAX_PCRS && r.value.selection == file[..selSize]
    ensures count > TPM2_MAX_PCRS ==> r.None?
  {
    if count > TPM2_MAX_PCRS || selSize + 4 + Span(count, digestSize) > |file| then None
    else Some(PcrFile(file[..selSize], DigestImages(file, selSize + 4, count, digestSize)))
  }

  /**
   * pcrs_from_file with the count read as the 4 bytes' UINT32 value in host
   * byte order.  The file must be non-empty and hold the selection (selSize
   * bytes) and the count.
   */
  function PcrFileOf(host: ByteOrder, content: Option<seq<u8>>, selSize: nat, digestSize: nat): (r: Option<PcrFile>)
    ensures r.Some? ==> |r.value.values| <= TPM2_MAX_PCRS
    ensures (content.Some? && selSize + 4 <= |content.value|
      && FromBytes(host, content.value[selSize..selSize + 4]) > TPM2_MAX_PCRS) ==> r.None?
  {
    if content.None? || |content.value| == 0 || selSize + 4 > |content.value| then None
    else PcrFileWith(content.value, selSize, digestSize, FromBytes(host, content.value[selSize..selSize + 4]))
  }

  /** The bytes of a PCR file: selection, 4-byte count in host order, digests. */
  function PcrFileBytes(host: ByteOrder, selection: seq<u8>, values: seq<seq<u8>>): seq<u8>
    requires |values| <= TPM2_MAX_PCRS
  {
    selection + ToBytes(host, |values|, 4) + Concat(values)
  }

  /** The digests laid end to end. */
  function Concat(values: seq<seq<u8>>): seq<u8>
  {
    if values == [] then [] else Concat(values[..|values| - 1]) + values[|values| - 1]
  }

  /** Two parts found together at offset off are found one after the other. */
  lemma PartsAt(file: seq<u8>, off: nat, a: seq<u8>, b: seq<u8>)
    requires off + |a| + |b| <= |file| && file[off..off + |a| + |b|] == a + b
    ensures file[off..off + |a|] == a
    ensures file[off + |a|..off + |a| + |b|] == b
  {
    SubSlice(file, off, |a| + |b|, 0, |a|);
    SubSlice(file, off, |a| + |b|, |a|, |a| + |b|);
    assert (a + b)[..|a|] == a;
    assert (a + b)[|a|..] == b;
  }

  /** Equal-sized digests laid end to end are read back one by one. */
  lemma {:induction false} DigestImagesOfConcat(file: seq<u8>, off: nat, values: seq<seq<u8>>, size: nat)
    requires forall j :: 0 <= j < |values| ==> |values[j]| == size
    requires off + |Concat(values)| <= |file| && file[off..off + |Concat(values)|] == Concat(values)
    ensures |Concat(values)| == Span(|values|, size)
    ensures DigestImages(file, off, |values|, size) == values
  {
    if values != [] {
      var n := |values| - 1;
      var front := values[..n];
      assert Concat(values) == Concat(front) + values[n];
      PartsAt(file, off, Concat(front), values[n]);
      DigestImagesOfConcat(file, off, front, size);
      assert |Concat(front)| == Span(n, size);
      assert file[off + Span(n, size)..off + Span(n + 1, size)] == values[n];
      assert DigestImages(file, off, n + 1, size) == front + [values[n]];
      assert values == front + [values[n]];
    }
  }

  /**
   * Every PCR file of at most TPM2_MAX_PCRS equal-sized digests, written
   * with its count in host order, reads back as its selection and digests.
   */
  lemma PcrFileRoundTrip(host: ByteOrder, selection: seq<u8>, values: seq<seq<u8>>, digestSize: nat)
    requires |values| <= TPM2_MAX_PCRS
    requires forall j :: 0 <= j < |values| ==> |values[j]| == digestSize
    ensures PcrFileOf(host, Some(PcrFileBytes(host, selection, values)), |selection|, digestSize)
      == Some(PcrFile(selection, values))
  {
    var file := PcrFileBytes(host, selection, values);
    PcrFileBytesParts(host, selection, values);
    FromToBytes(host, |values|, 4);
    DigestImagesOfConcat(file, |selection| + 4, values, digestSize);
  }

  /** Where the selection, the count and the digests lie in a PCR file. */
  lemma PcrFileBytesParts(host: ByteOrder, selection: seq<u8>, values: seq<seq<u8>>)
    requires |values| <= TPM2_MAX_PCRS
    ensures var file := PcrFileBytes(host, selection, values);
      && |file| == |selection| + 4 + |Concat(values)|
      && file[..|selection|] == selection
      && file[|selection|..|selection| + 4] == ToBytes(host, |values|, 4)
      && file[|selection| + 4..|selection| + 4 + |Concat(values)|] == Concat(values)
  {
    var count := ToBytes(host, |values|, 4);
    var file := PcrFileBytes(host, selection, values);
    assert file == selection + count + Concat(values);
    assert file[..|selection|] == selection;
    assert file[|selection|..|selection| + 4] == count;
    assert file[|selection| + 4..] == Concat(values);
  }

  /** FromBE of a concatenation: the first part shifted past the second. */
  lemma {:induction false} FromBEConcat(a: seq<u8>, b: seq<u8>)
    ensures FromBE(a + b) == FromBE(a) * Pow256(|b|) + FromBE(b)
  {
    if b == [] {
      assert a + b == a;
    } else {
      var front := b[..|b| - 1];
      assert (a + b)[..|a + b| - 1] == a + front;
      FromBEConcat(a, front);
      calc {
        FromBE(a + b);
        FromBE(a + front) * 256 + b[|b| - 1];
        (FromBE(a) * Pow256(|front|) + FromBE(front)) * 256 + b[|b| - 1];
        FromBE(a) * (Pow256(|front|) * 256) + (FromBE(front) * 256 + b[|b| - 1]);
        FromBE(a) * Pow256(|b|) + FromBE(b);
      }
    }
  }

  lemma ReverseConcat(a: seq<u8>, b: seq<u8>)
    ensures Reverse(a + b) == Reverse(b) + Reverse(a)
  {
    assert forall i :: 0 <= i < |a + b| ==> Reverse(a + b)[i] == (Reverse(b) + Reverse(a))[i];
  }

  /**
   * The count as pcrs_from_file really reads it: fread puts the 4 bytes at
   * the start of tpm2_pcrs.count, a size_t, and the struct is an
   * uninitialised local, so its other 4 bytes keep whatever the stack held
   * (stale).  The host reads all 8 bytes in its own order.
   */
  function PcrCountAsWritten(host: ByteOrder, read: seq<u8>, stale: seq<u8>): nat
    requires |read| == 4 && |stale| == 4
  {
    FromBytes(host, read + stale)
  }

  /**
   * The 8-byte count: on a big-endian host the 4 bytes read are its high
   * half, on a little-endian host its low half, and the stale bytes the other.
   */
  lemma PcrCountHalves(host: ByteOrder, read: seq<u8>, stale: seq<u8>)
    requires |read| == 4 && |stale| == 4
    ensures host == BigEndian ==>
      PcrCountAsWritten(host, read, stale) == FromBE(read) * Pow256(4) + FromBE(stale)
    ensures host == LittleEndian ==>
      PcrCountAsWritten(host, read, stale) == FromBytes(host, read) + FromBytes(host, stale) * Pow256(4)
  {
    if host == BigEndian {
      FromBEConcat(read, stale);
    } else {
      ReverseConcat(read, stale);
      FromBEConcat(Reverse(stale), Reverse(read));
    }
  }

  /** pcrs_from_file as written: the count is the 8-byte value above. */
  function PcrFileAsWritten(host: ByteOrder, content: Option<seq<u8>>, stale: seq<u8>, selSize: nat, digestSize: nat): (r: Option<PcrFile>)
    requires |stale| == 4
    ensures r.Some? ==> |r.value.values| <= TPM2_MAX_PCRS
  {
    if content.None? || |content.value| == 0 || selSize + 4 > |content.value| then None
    else PcrFileWith(content.value, selSize, digestSize, PcrCountAsWritten(host, content.value[selSize..selSize + 4], stale))
  }

  /**
   * On a big-endian host the count's 4 bytes land in the high half of the
   * size_t, so every file with a non-zero count is refused whatever the
   * stale half holds, while the UINT32 reading accepts a well-formed one.
   */
  lemma BigEndianCountRejected(selection: seq<u8>, values: seq<seq<u8>>, digestSize: nat, stale: seq<u8>)
    requires 0 < |values| <= TPM2_MAX_PCRS && |stale| == 4
    requires forall j :: 0 <= j < |values| ==> |values[j]| == digestSize
    ensures PcrFileOf(BigEndian, Some(PcrFileBytes(BigEndian, selection, values)), |selection|, digestSize)
      == Some(PcrFile(selection, values))
    ensures PcrFileAsWritten(BigEndian, Some(PcrFileBytes(BigEndian, selection, values)), stale, |selection|, digestSize)
      == None
  {
    PcrFileRoundTrip(BigEndian, selection, values, digestSize);
    var file := PcrFileBytes(BigEndian, selection, values);
    var read := file[|selection|..|selection| + 4];
    assert read == ToBytes(BigEndian, |values|, 4);
    FromToBytes(BigEndian, |values|, 4);
    PcrCountHalves(BigEndian, read, stale);
  }

  /** On a little-endian host with a zeroed stale half, as written agrees with the UINT32 reading. */
  lemma LittleEndianZeroedAgrees(content: Option<seq<u8>>, selSize: nat, digestSize: nat)
    ensures PcrFileAsWritten(LittleEndian, content, [0, 0, 0, 0], selSize, digestSize)
      == PcrFileOf(LittleEndian, content, selSize, digestSize)
  {
    if content.Some? && selSize + 4 <= |content.value| {
      ZeroedStaleCount(content.value[selSize..selSize + 4]);
    }
  }

  /** A zeroed stale half adds nothing to the little-endian count. */
  lemma ZeroedStaleCount(read: seq<u8>)
    requires |read| == 4
    ensures PcrCountAsWritten(LittleEndian, read, [0, 0, 0, 0]) == FromBytes(LittleEndian, read)
  {
    var zeros: seq<u8> := [0, 0, 0, 0];
    PcrCountHalves(LittleEndian, read, zeros);
    assert Reverse(zeros) == zeros;
    assert zeros == ToBE(0, 4);
    FromToBE(0, 4);
  }

  /** pcrs_from_file, reading the digests one by one. */
  method PcrsFromFile(host: ByteOrder, content: Option<seq<u8>>, selSize: nat, digestSize: nat)
    returns (r: Option<PcrFile>)
    ensures r == PcrFileOf(host, content, selSize, digestSize)
  {
    if content.None? || |content.value| == 0 {
      return None;
    }
    var file := content.value;
    if selSize + 4 > |file| {
      return None;
    }
    var selection := file[..selSize];
    var count := FromBytes(host, file[selSize..selSize + 4]);
    if count > TPM2_MAX_PCRS {
      return None;
    }
    var values: seq<seq<u8>> := [];
    var at := selSize + 4;
    var j := 0;
    while j < count
      invariant 0 <= j <= count
      invariant at == selSize + 4 + Span(j, digestSize) <= |file|
      invariant values == DigestImages(file, selSize + 4, j, digestSize)
    {
      if at + digestSize > |file| {
        SpanMonotonic(j + 1, count, digestSize);
        return None;
      }
      values := values + [file[at..at + digestSize]];
      at := at + digestSize;
      j := j + 1;
    }
    r := Some(PcrFile(selection, values));
  }

  /** The static tpm2_verifysig_ctx of the tool. */
  class VerifySigCtx {
    var flagHalg: bool
    var flagMsg: bool
    var flagSig: bool
    var flagPcr: bool
    var flagExtra: bool
    var flagFmt: bool
    var format: u16
    var halg: u16
    var msgHash: Tpm2b
    var pcrHash: Tpm2b
    var quoteHash: Tpm2b
    var quoteExtraData: Tpm2b
    /** ctx.extraData: its size field, and its buffer filled in place by -q. */
    var extraDataSize: nat
    const extraDataBuffer: array<u8>
    var signature: Signature
    var msgPath: Option<string>
    var sigPath: Option<string>
    var pcrPath: Option<string>
    var pubkeyPath: Option<string>

    /**
     * Every size within its buffer, as init leaves them for
     * verify_signature, and the quote's two out-parameters at their
     * declared sizes.
     */
    ghost predicate Ready()
      reads this
    {
      && msgHash.size <= |msgHash.buffer|
      && pcrHash.size <= |pcrHash.buffer|
      && quoteHash.size <= |quoteHash.buffer| == DIGEST_CAPACITY
      && quoteExtraData.size <= |quoteExtraData.buffer| == TPM2B_DATA_CAPACITY
      && extraDataSize <= extraDataBuffer.Length == TPM2B_DATA_CAPACITY
    }

    /** The static initialiser: no flags, TPM2_ALG_ERROR, SHA1 and full-size buffers. */
    constructor ()
      ensures Ready() && fresh(extraDataBuffer)
      ensures !flagHalg && !flagMsg && !flagSig && !flagPcr && !flagExtra && !flagFmt
      ensures format == TPM2_ALG_ERROR && halg == TPM2_ALG_SHA1
      ensures msgHash == pcrHash == quoteHash == Tpm2b(DIGEST_CAPACITY, Zeros(DIGEST_CAPACITY))
      ensures quoteExtraData == Tpm2b(TPM2B_DATA_CAPACITY, Zeros(TPM2B_DATA_CAPACITY))
      ensures extraDataSize == extraDataBuffer.Length == TPM2B_DATA_CAPACITY
      ensures msgPath.None? && sigPath.None? && pcrPath.None? && pubkeyPath.None?
    {
      flagHalg, flagMsg, flagSig, flagPcr, flagExtra, flagFmt := false, false, false, false, false, false;
      format, halg := TPM2_ALG_ERROR, TPM2_ALG_SHA1;
      msgHash := Tpm2b(DIGEST_CAPACITY, Zeros(DIGEST_CAPACITY));
      pcrHash := msgHash;
      quoteHash := msgHash;
      quoteExtraData := Tpm2b(TPM2B_DATA_CAPACITY, Zeros(TPM2B_DATA_CAPACITY));
      extraDataSize := TPM2B_DATA_CAPACITY;
      extraDataBuffer := new u8[TPM2B_DATA_CAPACITY](_ => 0);
      signature := Signature(TPM2_ALG_ERROR, TPM2_ALG_ERROR, []);
      msgPath, sigPath, pcrPath, pubkeyPath := None, None, None, None;
    }

    /** The nonce check: equal sizes, then equal bytes over that size. */
    predicate NonceMatches()
      reads this, extraDataBuffer
      requires Ready()
    {
      quoteExtraData.size == extraDataSize
      && quoteExtraData.buffer[..extraDataSize] == extraDataBuffer[..extraDataSize]
    }

    /** verify_signature's checks in its order; the first that fails decides. */
    function Check(x: Foreign): (v: Verdict)
      reads this, extraDataBuffer
      requires Ready()
      ensures v == Verified ==>
        && pubkeyPath.Some? && x.loadPublicKey(pubkeyPath.value).Some?
        && signature.sigAlg == TPM2_ALG_RSASSA
        && (flagExtra ==> NonceMatches())
        && (flagPcr ==> Value(quoteHash) == Value(pcrHash))
      ensures pubkeyPath.None? ==> v == KeyUnavailable
    {
      if pubkeyPath.None? || x.loadPublicKey(pubkeyPath.value).None? then KeyUnavailable
      else if signature.sigAlg != TPM2_ALG_RSASSA then NotRsassa
      else if !x.rsaVerify(signature.hash, Value(msgHash), signature.sig, x.loadPublicKey(pubkeyPath.value).value) then
        BadSignature
      else if flagExtra && !NonceMatches() then NonceMismatch
      else if flagPcr && Value(quoteHash) != Value(pcrHash) then PcrMismatch
      else Verified
    }

    /**
     * A scheme other than RSASSA is refused whatever the signature, nonce
     * and PCRs, and a failed check is never excused by a later one.
     */
    lemma CheckOrder(x: Foreign)
      requires Ready()
      ensures pubkeyPath.Some? && x.loadPublicKey(pubkeyPath.value).Some? && signature.sigAlg != TPM2_ALG_RSASSA ==>
        Check(x) == NotRsassa
      ensures Check(x) in {NonceMismatch, PcrMismatch} ==>
        && signature.sigAlg == TPM2_ALG_RSASSA
        && x.rsaVerify(signature.hash, Value(msgHash), signature.sig, x.loadPublicKey(pubkeyPath.value).value)
      ensures Check(x) == PcrMismatch ==> !flagExtra || NonceMatches()
    {
    }

    /**
     * verify_signature: true exactly when the key loads, the scheme is
     * RSASSA, RSA_verify accepts the message digest, the nonce matches
     * when -q was given and the PCR digest matches when -f was given.
     */
    method VerifySignature(x: Foreign) returns (result: bool)
      requires Ready()
      ensures result == (Check(x) == Verified)
      ensures result <==>
        && pubkeyPath.Some? && x.loadPublicKey(pubkeyPath.value).Some?
        && signature.sigAlg == TPM2_ALG_RSASSA
        && x.rsaVerify(signature.hash, Value(msgHash), signature.sig, x.loadPublicKey(pubkeyPath.value).value)
        && (flagExtra ==>
              quoteExtraData.size == extraDataSize
              && quoteExtraData.buffer[..extraDataSize] == extraDataBuffer[..extraDataSize])
        && (flagPcr ==> Value(quoteHash) == Value(pcrHash))
    {
      if pubkeyPath.None? {
        return false;
      }
      var pubKey := x.loadPublicKey(pubkeyPath.value);
      if pubKey.None? {
        return false;
      }
      if signature.sigAlg != TPM2_ALG_RSASSA {
        return false;
      }
      if !x.rsaVerify(signature.hash, msgHash.buffer[..msgHash.size], signature.sig, pubKey.value) {
        return false;
      }
      if flagExtra {
        if quoteExtraData.size != extraDataSize
          || quoteExtraData.buffer[..extraDataSize] != extraDataBuffer[..extraDataSize] {
          return false;
        }
      }
      if flagPcr {
        var same := VerifyDigests(quoteHash, pcrHash);
        if !same {
          return false;
        }
      }
      result := true;
    }

    /**
     * on_option.  -g and -F store what the algorithm parser returned even
     * when it is TPM2_ALG_ERROR, and fail; -q sets the nonce size to the
     * capacity of the buffer and decodes the hex text into it.
     */
    method OnOption(x: Foreign, key: char, value: string) returns (ok: bool)
      requires Ready()
      modifies this`pubkeyPath, this`halg, this`flagHalg, this`msgPath, this`flagMsg, this`format, this`flagFmt
      modifies this`extraDataSize, this`flagExtra, extraDataBuffer, this`sigPath, this`flagSig, this`pcrPath, this`flagPcr
      ensures Ready()
      ensures key == 'u' ==> ok && pubkeyPath == Some(value)
      ensures key == 'g' ==> halg == x.hashAlgFromOptarg(value) && (ok <==> halg != TPM2_ALG_ERROR) && flagHalg == (ok || old(flagHalg))
      ensures key == 'm' ==> ok && msgPath == Some(value) && flagMsg
      ensures key == 'F' ==> format == x.sigSchemeFromOptarg(value) && (ok <==> format != TPM2_ALG_ERROR) && flagFmt == (ok || old(flagFmt))
      ensures key == 'q' ==> (ok <==> HexStatus(Some(value), Some(TPM2B_DATA_CAPACITY), true) == 0)
      ensures key == 'q' && ok ==> flagExtra && extraDataSize == |value| / 2
      ensures key == 'q' && ok ==> extraDataBuffer[..extraDataSize] == HexDecode(value)
      ensures key == 'q' && !ok ==> extraDataSize == TPM2B_DATA_CAPACITY && flagExtra == old(flagExtra)
      ensures key == 's' ==> ok && sigPath == Some(value) && flagSig
      ensures key == 'f' ==> ok && pcrPath == Some(value) && flagPcr
      ensures key != 'g' && key != 'F' && key != 'q' ==> ok
      ensures key != 'q' ==> unchanged(extraDataBuffer) && extraDataSize == old(extraDataSize) && flagExtra == old(flagExtra)
      ensures key != 'u' ==> pubkeyPath == old(pubkeyPath)
      ensures key != 'g' ==> halg == old(halg) && flagHalg == old(flagHalg)
      ensures key != 'm' ==> msgPath == old(msgPath) && flagMsg == old(flagMsg)
      ensures key != 'F' ==> format == old(format) && flagFmt == old(flagFmt)
      ensures key != 's' ==> sigPath == old(sigPath) && flagSig == old(flagSig)
      ensures key != 'f' ==> pcrPath == old(pcrPath) && flagPcr == old(flagPcr)
      ensures unchanged(this`signature, this`msgHash, this`pcrHash, this`quoteHash, this`quoteExtraData)
    {
      ok := true;
      match key
      case 'u' =>
        pubkeyPath := Some(value);
      case 'g' =>
        halg := x.hashAlgFromOptarg(value);
        if halg == TPM2_ALG_ERROR {
          return false;
        }
        flagHalg := true;
      case 'm' =>
        msgPath := Some(value);
        flagMsg := true;
      case 'F' =>
        format := x.sigSchemeFromOptarg(value);
        if format == TPM2_ALG_ERROR {
          return false;
        }
        flagFmt := true;
      case 'q' =>
        ok := SetNonce(value);
      case 's' =>
        sigPath := Some(value);
        flagSig := true;
      case 'f' =>
        pcrPath := Some(value);
        flagPcr := true;
      case _ =>
    }

    /** The -q branch of on_option: the nonce hex-decoded into the extraData buffer. */
    method SetNonce(value: string) returns (ok: bool)
      requires Ready()
      modifies this`extraDataSize, this`flagExtra, extraDataBuffer
      ensures Ready()
      ensures ok <==> HexStatus(Some(value), Some(TPM2B_DATA_CAPACITY), true) == 0
      ensures ok ==> flagExtra && extraDataSize == |value| / 2 && extraDataBuffer[..extraDataSize] == HexDecode(value)
      ensures !ok ==> extraDataSize == TPM2B_DATA_CAPACITY && flagExtra == old(flagExtra)
    {
      extraDataSize := TPM2B_DATA_CAPACITY;
      var rc, size := HexToByteStructure(Some(value), Some(TPM2B_DATA_CAPACITY), extraDataBuffer);
      if rc != 0 {
        return false;
      }
      extraDataSize := size.value;
      flagExtra := true;
      ok := true;
    }

    /** The loaded signature, or None when there is none to load. */
    function SignatureOf(x: Foreign): Option<Signature>
      reads this
    {
      if sigPath.None? then None else x.loadSignature(sigPath.value, flagFmt, format, halg)
    }

    /** The PCR file, when -f was given. */
    function PcrsOf(host: ByteOrder, x: Foreign, fs: map<string, seq<u8>>, selSize: nat, digestSize: nat): Option<PcrFile>
      reads this
    {
      var content := if pcrPath.Some? && pcrPath.value in fs then Some(fs[pcrPath.value]) else None;
      PcrFileOf(host, content, selSize, digestSize)
    }

    /**
     * When init succeeds: the key, signature, message and hash algorithm
     * were all given, the message and the signature load, the PCR file
     * (under -f) reads, hashes and prints, the message parses as a quote
     * and hashes with the chosen algorithm.
     */
    predicate InitSucceeds(host: ByteOrder, x: Foreign, fs: map<string, seq<u8>>, selSize: nat, digestSize: nat)
      reads this
    {
      && pubkeyPath.Some? && flagSig && flagMsg && flagHalg
      && MessageFromFile(fs, msgPath).Some?
      && SignatureOf(x).Some?
      && (flagPcr ==>
            PcrsOf(host, x, fs, selSize, digestSize).Some?
            && x.hashPcrBanks(halg, PcrsOf(host, x, fs, selSize, digestSize).value).Some?
            && x.printPcrs(PcrsOf(host, x, fs, selSize, digestSize).value))
      && QuoteVerdict(MessageFromFile(fs, msgPath).value).Success?
      && x.hashData(halg, MessageFromFile(fs, msgPath).value).Some?
    }

    /**
     * init.  Fails with an option error unless the key, signature, message
     * and hash algorithm were all given; otherwise loads the message and
     * the signature, hashes the PCR file when -f was given, parses the
     * quote for its PCR digest and nonce and hashes the whole message with
     * the chosen algorithm.  Success leaves every digest within its buffer.
     */
    method Init(host: ByteOrder, x: Foreign, fs: map<string, seq<u8>>, selSize: nat, digestSize: nat)
      returns (rc: ToolRc)
      requires Ready()
      modifies this`signature, this`pcrHash, this`quoteHash, this`quoteExtraData, this`msgHash
      ensures unchanged(this`flagHalg, this`flagMsg, this`flagSig, this`flagPcr, this`flagExtra, this`flagFmt)
      ensures unchanged(this`format, this`halg, this`extraDataSize, this`msgPath, this`sigPath, this`pcrPath, this`pubkeyPath)
      ensures rc == RcOptionError <==> !(pubkeyPath.Some? && flagSig && flagMsg && flagHalg)
      ensures rc == RcSuccess <==> InitSucceeds(host, x, fs, selSize, digestSize)
      ensures rc == RcSuccess ==>
        var msg := MessageFromFile(fs, msgPath).value;
        && Ready()
        && signature == SignatureOf(x).value
        && quoteHash == DigestOut(old(quoteHash), QuoteVerdict(msg))
        && quoteExtraData == ExtraOut(old(quoteExtraData), QuoteVerdict(msg))
        && msgHash == Fill(old(msgHash), x.hashData(halg, msg).value)
        && (flagPcr ==> pcrHash == Fill(old(pcrHash), x.hashPcrBanks(halg, PcrsOf(host, x, fs, selSize, digestSize).value).value))
        && (!flagPcr ==> pcrHash == old(pcrHash))
    {
      if !(pubkeyPath.Some? && flagSig && flagMsg && flagHalg) {
        return RcOptionError;
      }
      var msg := MessageFromFile(fs, msgPath);
      if msg.None? {
        return RcGeneralError;
      }
      var sig := SignatureOf(x);
      if sig.None? {
        return RcGeneralError;
      }
      signature := sig.value;
      // The source checks flags.msg once more here; the first check has
      // already established it.
      var processed := Process(host, x, fs, selSize, digestSize, msg.value);
      if !processed {
        return RcGeneralError;
      }
      rc := RcSuccess;
    }

    /** init after the message and signature are loaded. */
    method Process(host: ByteOrder, x: Foreign, fs: map<string, seq<u8>>, selSize: nat, digestSize: nat, msg: seq<u8>)
      returns (ok: bool)
      requires |msg| <= UINT16_MAX
      requires |quoteHash.buffer| == DIGEST_CAPACITY && |quoteExtraData.buffer| == TPM2B_DATA_CAPACITY
      modifies this`pcrHash, this`quoteHash, this`quoteExtraData, this`msgHash
      ensures ok <==>
        && (flagPcr ==>
              PcrsOf(host, x, fs, selSize, digestSize).Some?
              && x.hashPcrBanks(halg, PcrsOf(host, x, fs, selSize, digestSize).value).Some?
              && x.printPcrs(PcrsOf(host, x, fs, selSize, digestSize).value))
        && QuoteVerdict(msg).Success?
        && x.hashData(halg, msg).Some?
      ensures ok ==>
        && quoteHash == DigestOut(old(quoteHash), QuoteVerdict(msg))
        && quoteExtraData == ExtraOut(old(quoteExtraData), QuoteVerdict(msg))
        && msgHash == Fill(old(msgHash), x.hashData(halg, msg).value)
        && (flagPcr ==> pcrHash == Fill(old(pcrHash), x.hashPcrBanks(halg, PcrsOf(host, x, fs, selSize, digestSize).value).value))
        && (!flagPcr ==> pcrHash == old(pcrHash))
    {
      if flagPcr {
        var loaded := LoadPcrs(host, x, fs, selSize, digestSize);
        if !loaded {
          return false;
        }
      }
      ok := ParseAndHash(host, x, msg);
    }

    /** The -f part of init: read the PCR file, hash its banks and print it. */
    method LoadPcrs(host: ByteOrder, x: Foreign, fs: map<string, seq<u8>>, selSize: nat, digestSize: nat)
      returns (ok: bool)
      modifies this`pcrHash
      ensures
        var pcrs := PcrsOf(host, x, fs, selSize, digestSize);
        && (ok <==> pcrs.Some? && x.hashPcrBanks(halg, pcrs.value).Some? && x.printPcrs(pcrs.value))
        && (pcrs.Some? && x.hashPcrBanks(halg, pcrs.value).Some? ==>
              pcrHash == Fill(old(pcrHash), x.hashPcrBanks(halg, pcrs.value).value))
    {
      var content := if pcrPath.Some? && pcrPath.value in fs then Some(fs[pcrPath.value]) else None;
      var pcrs := PcrsFromFile(host, content, selSize, digestSize);
      if pcrs.None? {
        return false;
      }
      var digest := x.hashPcrBanks(halg, pcrs.value);
      if digest.None? {
        return false;
      }
      pcrHash := Fill(pcrHash, digest.value);
      ok := x.printPcrs(pcrs.value);
    }

    /** The end of init: the quote's PCR digest and nonce, then the message digest. */
    method ParseAndHash(host: ByteOrder, x: Foreign, msg: seq<u8>) returns (ok: bool)
      requires |msg| <= UINT16_MAX
      requires |quoteHash.buffer| == DIGEST_CAPACITY && |quoteExtraData.buffer| == TPM2B_DATA_CAPACITY
      modifies this`quoteHash, this`quoteExtraData, this`msgHash
      ensures ok <==> QuoteVerdict(msg).Success? && x.hashData(halg, msg).Some?
      ensures quoteHash == DigestOut(old(quoteHash), QuoteVerdict(msg))
      ensures quoteExtraData == ExtraOut(old(quoteExtraData), QuoteVerdict(msg))
      ensures ok ==> msgHash == Fill(old(msgHash), x.hashData(halg, msg).value)
    {
      var parsed, digestOut, extraOut := GetDigestFromQuote(host, msg, quoteHash, quoteExtraData);
      quoteHash, quoteExtraData := digestOut, extraOut;
      if !parsed {
        return false;
      }
      var hash := x.hashData(halg, msg);
      if hash.None? {
        return false;
      }
      msgHash := Fill(msgHash, hash.value);
      ok := true;
    }

    /**
     * tpm2_tool_onrun: init, then verify_signature; success only when both
     * pass, and a missing mandatory option is reported as an option error.
     */
    method OnRun(host: ByteOrder, x: Foreign, fs: map<string, seq<u8>>, selSize: nat, digestSize: nat)
      returns (rc: ToolRc)
      requires Ready()
      modifies this`signature, this`pcrHash, this`quoteHash, this`quoteExtraData, this`msgHash
      ensures unchanged(this`flagHalg, this`flagMsg, this`flagSig, this`flagPcr, this`flagExtra, this`flagFmt)
      ensures unchanged(this`format, this`halg, this`extraDataSize, this`msgPath, this`sigPath, this`pcrPath, this`pubkeyPath)
      ensures rc == RcOptionError <==> !(pubkeyPath.Some? && flagSig && flagMsg && flagHalg)
      ensures rc == RcSuccess ==> Ready() && Check(x) == Verified
      ensures rc == RcSuccess <==> InitSucceeds(host, x, fs, selSize, digestSize) && Ready() && Check(x) == Verified
      ensures rc == RcSuccess ==> MessageFromFile(fs, msgPath).Some? && QuoteVerdict(MessageFromFile(fs, msgPath).value).Success?
    {
      rc := Init(host, x, fs, selSize, digestSize);
      if rc != RcSuccess {
        return;
      }
      var verified := VerifySignature(x);
      if !verified {
        return RcGeneralError;
      }
    }
  }
}
