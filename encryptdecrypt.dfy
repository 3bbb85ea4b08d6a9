/**
 * tpm2_encryptdecrypt: runs a file through the TPM's symmetric
 * EncryptDecrypt command in chunks of at most one TPM2B_MAX_BUFFER,
 * optionally adding PKCS#7 padding (section 6.3 of RFC 5652) to the last
 * chunk before encryption and removing it from the last chunk after
 * decryption, and chaining the IV from chunk to chunk.  The TPM command is
 * a function of the IV and the chunk; the file system is a map from path
 * to contents.
 */
module EncryptDecrypt {
  import opened Wrappers
  import opened Bytes
  import opened Util

  const TPM2_ALG_NULL: u16 := 0x0010
  const TPM2_ALG_CBC: u16 := 0x0042
  const TPM2_ALG_CFB: u16 := 0x0043
  const TPM2_ALG_ECB: u16 := 0x0044
  /** TPM2_MAX_SYM_BLOCK_SIZE, the value of ctx.padded_block_len. */
  const BLOCK: nat := 16
  /** sizeof(TPM2B_IV.buffer), the initial size of the IV. */
  const IV_SIZE: nat := 16
  /**
   * Room for the largest accepted input and one block of padding; the
   * tool's own buffer holds UINT16_MAX bytes only (see AppendOverrunsAsWritten).
   */
  const INPUT_CAPACITY: nat := 0xFFFF + 16

  /** What the TPM returns for one chunk: the output data and the next IV. */
  datatype TpmOut = TpmOut(data: seq<u8>, iv: seq<u8>)

  /** tpm2_encryptdecrypt for the key, direction and mode at hand: None on failure. */
  type Tpm = (Option<seq<u8>>, seq<u8>) -> Option<TpmOut>

  /**
   * One chunk after the TPM call: the IV for the next chunk, the pad value,
   * the bytes written to the output and the TPM's output as it came.
   */
  datatype Pass = Pass(iv: Option<seq<u8>>, pad: u8, written: seq<u8>, raw: seq<u8>)

  /** The number of padding bytes PKCS#7 adds to n bytes of data. */
  function PadLength(n: nat): (p: nat)
    ensures 1 <= p <= BLOCK
    ensures (n + p) % BLOCK == 0
    ensures n % BLOCK == 0 <==> p == BLOCK
  {
    BLOCK - n % BLOCK
  }

  /** The PKCS#7 padding of n bytes of data: PadLength(n) bytes of value PadLength(n). */
  function Pkcs7Pad(n: nat): (r: seq<u8>)
    ensures |r| == PadLength(n)
    ensures forall i :: 0 <= i < |r| ==> r[i] == PadLength(n)
  {
    seq(PadLength(n), _ => PadLength(n))
  }

  /**
   * Removing PKCS#7 padding: as many bytes as the last byte says, read
   * from the last byte of the data.  Data too short for its own pad value
   * is kept whole.
   */
  function StripPkcs7(out: seq<u8>): (r: seq<u8>)
    ensures r <= out
  {
    if |out| == 0 || out[|out| - 1] > |out| then out
    else out[..|out| - out[|out| - 1]]
  }

  /** Padding then stripping gives the data back. */
  lemma StripPad(x: seq<u8>)
    ensures StripPkcs7(x + Pkcs7Pad(|x|)) == x
  {
    var padded := x + Pkcs7Pad(|x|);
    assert padded[|padded| - 1] == PadLength(|x|);
    assert padded[..|x|] == x;
  }

  /**
   * A full chunk is a whole number of blocks: after a full chunk of the
   * unpadded input, NextChunk keeps the offset block-aligned for the
   * padding of the last chunk.
   */
  lemma FullChunkKeepsAlignment(offset: nat)
    requires offset % BLOCK == 0
    ensures (offset + TPM2_MAX_DIGEST_BUFFER) % BLOCK == 0
  {
  }

  /** The concatenation of chunks, in order. */
  function Flatten(chunks: seq<seq<u8>>): (r: seq<u8>)
    ensures chunks == [] ==> r == []
  {
    if chunks == [] then [] else Flatten(chunks[..|chunks| - 1]) + chunks[|chunks| - 1]
  }

  /**
   * Running the chunks through the TPM in order from the IV iv0: the
   * outputs, one per chunk, and the IV after the last chunk.  Outside ECB
   * each chunk's output IV is the next chunk's input IV; in ECB there is
   * no IV.  None when a TPM call fails.
   */
  function Chain(tpm: Tpm, iv0: Option<seq<u8>>, ecb: bool, chunks: seq<seq<u8>>): (r: Option<(seq<seq<u8>>, Option<seq<u8>>)>)
    ensures r.Some? ==> |r.value.0| == |chunks|
    ensures r.Some? && ecb ==> r.value.1 == iv0
  {
    if chunks == [] then Some(([], iv0))
    else
      match Chain(tpm, iv0, ecb, chunks[..|chunks| - 1])
      case None => None
      case Some((outs, iv)) =>
        match tpm(iv, chunks[|chunks| - 1])
        case None => None
        case Some(o) => Some((outs + [o.data], if ecb then iv else Some(o.iv)))
  }

  lemma FlattenSnoc(chunks: seq<seq<u8>>, c: seq<u8>)
    ensures Flatten(chunks + [c]) == Flatten(chunks) + c
  {
    assert (chunks + [c])[..|chunks|] == chunks;
  }

  /** One more chunk through the TPM. */
  lemma ChainSnoc(tpm: Tpm, iv0: Option<seq<u8>>, ecb: bool, chunks: seq<seq<u8>>, c: seq<u8>)
    requires Chain(tpm, iv0, ecb, chunks).Some?
    ensures var (outs, iv) := Chain(tpm, iv0, ecb, chunks).value;
            Chain(tpm, iv0, ecb, chunks + [c])
              == match tpm(iv, c)
                 case None => None
                 case Some(o) => Some((outs + [o.data], if ecb then iv else Some(o.iv)))
  {
    assert (chunks + [c])[..|chunks|] == chunks;
  }

  /** What the tool writes for the outputs: all of them, the last one stripped when strip holds. */
  function Emitted(outs: seq<seq<u8>>, strip: bool): seq<u8>
  {
    if strip && outs != [] then Flatten(outs[..|outs| - 1]) + StripPkcs7(outs[|outs| - 1])
    else Flatten(outs)
  }

  lemma EmittedSnoc(outs: seq<seq<u8>>, o: seq<u8>, strip: bool)
    ensures Emitted(outs, false) == Flatten(outs)
    ensures Emitted(outs + [o], strip) == Flatten(outs) + (if strip then StripPkcs7(o) else o)
  {
    assert (outs + [o])[..|outs|] == outs;
  }

  /**
   * One more chunk through the TPM and its output written, stripped when
   * it is the last chunk and stripping is on.
   */
  lemma Advance(tpm: Tpm, iv0: Option<seq<u8>>, ecb: bool, sent: seq<seq<u8>>, outs: seq<seq<u8>>,
                iv: Option<seq<u8>>, output: seq<u8>, inData: seq<u8>, o: TpmOut,
                strip: bool, last: bool, out: seq<u8>)
    requires Chain(tpm, iv0, ecb, sent) == Some((outs, iv))
    requires tpm(iv, inData) == Some(o)
    requires output == Flatten(outs)
    requires out == if last && strip then StripPkcs7(o.data) else o.data
    ensures Chain(tpm, iv0, ecb, sent + [inData]) == Some((outs + [o.data], if ecb then iv else Some(o.iv)))
    ensures output + out == if last then Emitted(outs + [o.data], strip) else Flatten(outs + [o.data])
  {
    ChainSnoc(tpm, iv0, ecb, sent, inData);
    EmittedSnoc(outs, o.data, strip);
    FlattenSnoc(outs, o.data);
  }

  /**
   * The bookkeeping of the chunking loop: data[..offset] has been sent as
   * the chunks sent, each at most one TPM2B_MAX_BUFFER, whose outputs outs
   * have been written as output and which leave the IV at iv.
   */
  ghost predicate Sending(tpm: Tpm, iv0: Option<seq<u8>>, ecb: bool, strip: bool, data: seq<u8>,
                          sent: seq<seq<u8>>, outs: seq<seq<u8>>, remaining: nat, offset: nat,
                          iv: Option<seq<u8>>, output: seq<u8>)
  {
    && offset + remaining == |data|
    && Flatten(sent) == data[..offset]
    && (forall i :: 0 <= i < |sent| ==> 0 < |sent[i]| <= TPM2_MAX_DIGEST_BUFFER)
    && Chain(tpm, iv0, ecb, sent) == Some((outs, iv))
    && output == if remaining == 0 then Emitted(outs, strip) else Flatten(outs)
  }

  /** The bookkeeping after one more chunk, when the TPM call succeeded or failed. */
  lemma SendingStep(tpm: Tpm, iv0: Option<seq<u8>>, ecb: bool, strip: bool, data: seq<u8>, data': seq<u8>,
                    sent: seq<seq<u8>>, outs: seq<seq<u8>>, remaining: nat, remaining': nat, offset: nat,
                    iv: Option<seq<u8>>, output: seq<u8>, chunk: nat, inData: seq<u8>,
                    ok: bool, iv': Option<seq<u8>>, output': seq<u8>, outs': seq<seq<u8>>)
    requires Sending(tpm, iv0, ecb, strip, data, sent, outs, remaining, offset, iv, output)
    requires |data| <= |data'| && data'[..offset] == data[..offset]
    requires 0 < chunk <= TPM2_MAX_DIGEST_BUFFER && chunk <= remaining' && offset + remaining' == |data'|
    requires inData == data'[offset..offset + chunk]
    requires ok ==> Chain(tpm, iv0, ecb, sent + [inData]) == Some((outs', iv'))
    requires ok ==> output' == if remaining' == chunk then Emitted(outs', strip) else Flatten(outs')
    ensures forall i :: 0 <= i < |sent + [inData]| ==> 0 < |(sent + [inData])[i]| <= TPM2_MAX_DIGEST_BUFFER
    ensures ok ==> Sending(tpm, iv0, ecb, strip, data', sent + [inData], outs', remaining' - chunk, offset + chunk, iv', output')
  {
    var sent' := sent + [inData];
    FlattenSnoc(sent, inData);
    JoinSlices(data', 0, offset, offset + chunk);
    assert data'[0..offset] == data[..offset] == Flatten(sent);
    assert Flatten(sent') == data'[..offset + chunk];
    assert forall i :: 0 <= i < |sent'| ==> sent'[i] == if i < |sent| then sent[i] else inData;
  }

  /** Flattening from the front: the first chunk, then the rest. */
  lemma {:induction false} FlattenCons(c: seq<u8>, chunks: seq<seq<u8>>)
    ensures Flatten([c] + chunks) == c + Flatten(chunks)
    decreases |chunks|
  {
    if chunks == [] {
      assert [c][..0] == [];
    } else {
      var init, last := chunks[..|chunks| - 1], chunks[|chunks| - 1];
      assert chunks == init + [last];
      assert [c] + chunks == ([c] + init) + [last];
      FlattenSnoc([c] + init, last);
      FlattenCons(c, init);
      FlattenSnoc(init, last);
    }
  }

  /**
   * The cut of encrypt_decrypt's loop: TPM2_MAX_DIGEST_BUFFER bytes at a
   * time from the front, what is left over as the last chunk.
   */
  function Chunks(data: seq<u8>): (r: seq<seq<u8>>)
    ensures Flatten(r) == data
    ensures forall i :: 0 <= i < |r| ==> 0 < |r[i]| <= TPM2_MAX_DIGEST_BUFFER
    ensures forall i :: 0 <= i < |r| - 1 ==> |r[i]| == TPM2_MAX_DIGEST_BUFFER
    decreases |data|
  {
    if data == [] then []
    else if |data| <= TPM2_MAX_DIGEST_BUFFER then [data]
    else
      var rest := Chunks(data[TPM2_MAX_DIGEST_BUFFER..]);
      FlattenCons(data[..TPM2_MAX_DIGEST_BUFFER], rest);
      assert data == data[..TPM2_MAX_DIGEST_BUFFER] + data[TPM2_MAX_DIGEST_BUFFER..];
      [data[..TPM2_MAX_DIGEST_BUFFER]] + rest
  }

  /**
   * The cut is the only way to split data into non-empty chunks of at
   * most TPM2_MAX_DIGEST_BUFFER bytes that are all full but the last.
   */
  lemma {:induction false} ChunksUnique(chunks: seq<seq<u8>>)
    requires forall i :: 0 <= i < |chunks| ==> 0 < |chunks[i]| <= TPM2_MAX_DIGEST_BUFFER
    requires forall i :: 0 <= i < |chunks| - 1 ==> |chunks[i]| == TPM2_MAX_DIGEST_BUFFER
    ensures Chunks(Flatten(chunks)) == chunks
    decreases |chunks|
  {
    if |chunks| == 1 {
      assert chunks[..0] == [];
      assert Flatten(chunks) == chunks[0];
    } else if |chunks| > 1 {
      var rest := chunks[1..];
      assert chunks == [chunks[0]] + rest;
      FlattenCons(chunks[0], rest);
      ChunksUnique(rest);
      var d := Flatten(chunks);
      assert |Flatten(rest)| >= |rest[|rest| - 1]| > 0;
      assert d[..TPM2_MAX_DIGEST_BUFFER] == chunks[0];
      assert d[TPM2_MAX_DIGEST_BUFFER..] == Flatten(rest);
    }
  }

  /** Data of a whole number of full chunks is cut into full chunks only. */
  lemma {:induction false} ChunksFull(data: seq<u8>)
    requires |data| % TPM2_MAX_DIGEST_BUFFER == 0
    ensures forall i :: 0 <= i < |Chunks(data)| ==> |Chunks(data)[i]| == TPM2_MAX_DIGEST_BUFFER
    decreases |data|
  {
    if |data| > TPM2_MAX_DIGEST_BUFFER {
      var rest := data[TPM2_MAX_DIGEST_BUFFER..];
      ChunksFull(rest);
      assert Chunks(data) == [data[..TPM2_MAX_DIGEST_BUFFER]] + Chunks(rest);
    }
  }

  /** Cutting at a multiple of the chunk size, then one chunk more, is cutting further on. */
  lemma ChunksSnoc(d: seq<u8>, o: nat, e: nat)
    requires o % TPM2_MAX_DIGEST_BUFFER == 0 && o < e <= |d| && e - o <= TPM2_MAX_DIGEST_BUFFER
    ensures Chunks(d[..o]) + [d[o..e]] == Chunks(d[..e])
  {
    var cs := Chunks(d[..o]);
    ChunksFull(d[..o]);
    FlattenSnoc(cs, d[o..e]);
    assert d[..o] + d[o..e] == d[..e];
    ChunksUnique(cs + [d[o..e]]);
  }

  /** The cut of a prefix ending on a chunk boundary is a prefix of the cut. */
  lemma {:induction false} ChunksPrefix(d: seq<u8>, o: nat)
    requires o % TPM2_MAX_DIGEST_BUFFER == 0 && o <= |d|
    ensures Chunks(d[..o]) <= Chunks(d)
    decreases o
  {
    if 0 < o < |d| {
      var m := TPM2_MAX_DIGEST_BUFFER;
      assert d[..o][..m] == d[..m];
      if o > m {
        ChunksPrefix(d[m..], o - m);
        assert d[..o][m..] == d[m..][..o - m];
      }
    } else if o == |d| {
      assert d[..o] == d;
    }
  }

  /**
   * The chunks encrypt_decrypt hands to the TPM: the cut of the input,
   * and, when pads holds, its PKCS#7 padding, joined to a short last
   * chunk or, after a whole number of blocks, sent as a chunk of its own.
   */
  function SendOrder(input: seq<u8>, pads: bool): (r: seq<seq<u8>>)
    ensures Flatten(r) == input + (if pads then Pkcs7Pad(|input|) else [])
    ensures forall i :: 0 <= i < |r| ==> 0 < |r[i]| <= TPM2_MAX_DIGEST_BUFFER
  {
    if !pads then Chunks(input)
    else if |input| % BLOCK == 0 then
      FlattenSnoc(Chunks(input), Pkcs7Pad(|input|));
      Chunks(input) + [Pkcs7Pad(|input|)]
    else Chunks(input + Pkcs7Pad(|input|))
  }

  /**
   * The chunks sent so far, from the input: before the padding is laid
   * out, the cut of the input up to offset, which is on a chunk
   * boundary while input remains; with a block of padding pending, the
   * cut of the whole input; at the end, the whole send order.
   */
  ghost predicate Cut(input: seq<u8>, sent: seq<seq<u8>>, padded: bool, remaining: nat, offset: nat)
  {
    && (!padded && remaining > 0 ==>
          offset % TPM2_MAX_DIGEST_BUFFER == 0 && offset <= |input| && sent == Chunks(input[..offset]))
    && (!padded && remaining == 0 ==> sent == Chunks(input))
    && (padded && remaining > 0 ==> offset == |input| && |input| % BLOCK == 0 && sent == Chunks(input))
    && (padded && remaining == 0 ==> sent == SendOrder(input, true))
  }

  /**
   * One pass of the loop keeps Cut: a full chunk, the last chunk, the
   * last chunk with a short pad joined to it, the last chunk before a
   * padding block, or the padding block itself.
   */
  lemma CutStep(input: seq<u8>, data: seq<u8>, data': seq<u8>, sent: seq<seq<u8>>, padded: bool, padded': bool,
                remaining: nat, left: nat, offset: nat, chunk: nat, inData: seq<u8>)
    requires 0 < remaining && Cut(input, sent, padded, remaining, offset)
    requires data == if padded then input + Pkcs7Pad(|input|) else input
    requires data' == if padded' then input + Pkcs7Pad(|input|) else input
    requires offset + remaining == |data| && offset + left == |data'|
    requires 0 < chunk <= TPM2_MAX_DIGEST_BUFFER && chunk <= left
    requires inData == data'[offset..offset + chunk]
    requires !padded && !padded' ==> left == remaining && (chunk == TPM2_MAX_DIGEST_BUFFER || chunk == remaining)
    requires !padded && padded' ==>
               if |input| % BLOCK == 0 then chunk == remaining && left == chunk + BLOCK else chunk == left
    requires padded ==> padded' && chunk == remaining == left
    ensures Cut(input, sent + [inData], padded', left - chunk, offset + chunk)
  {
    if !padded && !padded' {
      CutFull(input, sent, remaining, offset, chunk, inData);
    } else if !padded && |input| % BLOCK == 0 {
      CutBeforePad(input, sent, remaining, offset, inData);
    } else if !padded {
      CutShortPad(input, sent, offset, offset + chunk, inData);
    } else {
      CutPadBlock(input, sent, offset, inData);
    }
  }

  /** A chunk of the input without padding: the cut goes one chunk further. */
  lemma CutFull(input: seq<u8>, sent: seq<seq<u8>>, remaining: nat, offset: nat, chunk: nat, inData: seq<u8>)
    requires 0 < chunk <= remaining && offset + remaining == |input| && chunk <= TPM2_MAX_DIGEST_BUFFER
    requires chunk == TPM2_MAX_DIGEST_BUFFER || chunk == remaining
    requires offset % TPM2_MAX_DIGEST_BUFFER == 0 && sent == Chunks(input[..offset])
    requires inData == input[offset..offset + chunk]
    ensures Cut(input, sent + [inData], false, remaining - chunk, offset + chunk)
  {
    ChunksSnoc(input, offset, offset + chunk);
    if chunk == remaining {
      assert input[..offset + chunk] == input;
    } else {
      assert (offset + chunk) % TPM2_MAX_DIGEST_BUFFER == 0;
    }
  }

  /** The last chunk of a whole number of blocks: the padding block is still to go. */
  lemma CutBeforePad(input: seq<u8>, sent: seq<seq<u8>>, remaining: nat, offset: nat, inData: seq<u8>)
    requires 0 < remaining <= TPM2_MAX_DIGEST_BUFFER && offset + remaining == |input| && |input| % BLOCK == 0
    requires offset % TPM2_MAX_DIGEST_BUFFER == 0 && sent == Chunks(input[..offset])
    requires inData == (input + Pkcs7Pad(|input|))[offset..|input|]
    ensures Cut(input, sent + [inData], true, BLOCK, |input|)
  {
    assert inData == input[offset..|input|];
    ChunksSnoc(input, offset, |input|);
    assert input[..|input|] == input;
  }

  /** The last chunk of the input with a short pad joined to it: the whole send order. */
  lemma CutShortPad(input: seq<u8>, sent: seq<seq<u8>>, offset: nat, e: nat, inData: seq<u8>)
    requires |input| % BLOCK != 0
    requires offset % TPM2_MAX_DIGEST_BUFFER == 0 && offset <= |input| && sent == Chunks(input[..offset])
    requires offset < e == |input| + PadLength(|input|) && e - offset <= TPM2_MAX_DIGEST_BUFFER
    requires inData == (input + Pkcs7Pad(|input|))[offset..e]
    ensures Cut(input, sent + [inData], true, 0, e)
  {
    var d := input + Pkcs7Pad(|input|);
    ChunksSnoc(d, offset, e);
    assert d[..offset] == input[..offset];
    assert d[..|d|] == d;
    assert SendOrder(input, true) == Chunks(d);
  }

  /** The padding block after a whole number of blocks: the whole send order. */
  lemma CutPadBlock(input: seq<u8>, sent: seq<seq<u8>>, offset: nat, inData: seq<u8>)
    requires offset == |input| && |input| % BLOCK == 0 && sent == Chunks(input)
    requires inData == (input + Pkcs7Pad(|input|))[offset..offset + BLOCK]
    ensures Cut(input, sent + [inData], true, 0, offset + BLOCK)
  {
    assert inData == Pkcs7Pad(|input|);
  }

  /** Nothing sent yet: the cut before the loop. */
  lemma CutStart(input: seq<u8>)
    ensures Cut(input, [], false, |input|, 0)
  {
    assert input[..0] == [];
  }

  /** Whatever has been sent is the start of the send order. */
  lemma CutPrefix(input: seq<u8>, sent: seq<seq<u8>>, padded: bool, remaining: nat, offset: nat, pads: bool)
    requires Cut(input, sent, padded, remaining, offset)
    requires padded ==> pads
    requires !padded && remaining == 0 ==> !pads
    ensures sent <= SendOrder(input, pads)
    ensures remaining == 0 ==> sent == SendOrder(input, pads)
  {
    if !padded && remaining > 0 {
      if pads && |input| % BLOCK != 0 {
        var d := input + Pkcs7Pad(|input|);
        ChunksPrefix(d, offset);
        assert d[..offset] == input[..offset];
      } else {
        ChunksPrefix(input, offset);
      }
    }
  }

  /** The text of an -t argument split at its first ':' into the input and output IV paths. */
  function SplitIv(value: string): (r: (string, Option<string>))
    ensures ':' !in r.0
    ensures r.1.None? ==> r.0 == value
    ensures r.1.Some? ==> value == r.0 + [':'] + r.1.value
  {
    if value == [] then ([], None)
    else if value[0] == ':' then ([], Some(value[1..]))
    else
      var rest := SplitIv(value[1..]);
      ([value[0]] + rest.0, rest.1)
  }

  /** A value splits at a ':' exactly when it holds one. */
  lemma SplitIvFindsColon(value: string)
    ensures SplitIv(value).1.Some? <==> ':' in value
  {
    var r := SplitIv(value);
    if r.1.Some? {
      assert value[|r.0|] == ':';
    }
  }

  /** sizeof(ctx.input_data) in the tool: UINT16_MAX bytes. */
  const TOOL_INPUT_CAPACITY: nat := 0xFFFF

  /**
   * As written, the memset of the padding covers input_data_size up to
   * input_data_size + pad, which must fit the tool's own buffer.
   */
  predicate AppendFitsAsWritten(inputDataSize: nat)
  {
    inputDataSize + PadLength(inputDataSize) <= TOOL_INPUT_CAPACITY
  }

  /**
   * An accepted input of 65520 to 65535 bytes, padded, has its padding
   * end one byte past the tool's buffer.
   */
  lemma AppendOverrunsAsWritten(inputDataSize: nat)
    requires TOOL_INPUT_CAPACITY - 15 <= inputDataSize <= UINT16_MAX
    ensures !AppendFitsAsWritten(inputDataSize)
    ensures inputDataSize + PadLength(inputDataSize) == TOOL_INPUT_CAPACITY + 1
  {
  }

  /** With room for one block more, the padding of every accepted input fits. */
  lemma AppendFits(inputDataSize: nat)
    requires inputDataSize <= UINT16_MAX
    ensures inputDataSize + PadLength(inputDataSize) <= INPUT_CAPACITY
  {
  }

  /**
   * strip_pkcs7_padding_data_from_output as written, on a TPM2B_MAX_BUFFER:
   * the pad value is read at last_block_length - 1, an index inside the
   * first block, and subtracted from the 16-bit size.
   */
  function StripAsWritten(out: Tpm2b): (r: (u8, u16))
    requires out.size <= |out.buffer| == TPM2_MAX_DIGEST_BUFFER
    ensures r.0 == out.buffer[BLOCK - out.size % BLOCK - 1]
    ensures r.1 == (out.size - r.0) % 0x1_0000
  {
    var lastBlockLength := BLOCK - out.size % BLOCK;
    var pad := out.buffer[lastBlockLength - 1];
    (pad, (out.size - pad) % 0x1_0000)
  }

  /**
   * 20 zero bytes padded to 32 and decrypted: the pad value 12 sits in
   * the last byte, but the byte read is the 16th, a data byte, which is 0
   * here, so nothing is stripped; StripPkcs7 recovers the 20 bytes.
   */
  lemma StripAsWrittenMissesPad()
    ensures var plain := Zeros(20);
            var padded := plain + Pkcs7Pad(|plain|);
            && |padded| == 32
            && StripAsWritten(Tpm2b(32, padded + Zeros(TPM2_MAX_DIGEST_BUFFER - 32))) == (0, 32)
            && StripPkcs7(padded) == plain
  {
    var plain := Zeros(20);
    var padded := plain + Pkcs7Pad(|plain|);
    StripPad(plain);
    assert (padded + Zeros(TPM2_MAX_DIGEST_BUFFER - 32))[15] == 0;
  }

  /**
   * Any decrypted output of 16 bytes or more, padded and within one
   * TPM2B_MAX_BUFFER: the byte read as the pad value is the data byte
   * plain[15], and the size left is the data's length only when that byte
   * happens to equal the pad value; StripPkcs7 recovers the data.
   */
  lemma StripAsWrittenReadsData(plain: seq<u8>, rest: seq<u8>)
    requires BLOCK <= |plain| && |plain| + PadLength(|plain|) + |rest| == TPM2_MAX_DIGEST_BUFFER
    ensures var padded := plain + Pkcs7Pad(|plain|);
            var r := StripAsWritten(Tpm2b(|padded|, padded + rest));
            && r.0 == plain[15]
            && (r.1 == |plain| <==> plain[15] == PadLength(|plain|))
            && StripPkcs7(padded) == plain
  {
    var padded := plain + Pkcs7Pad(|plain|);
    assert (padded + rest)[15] == plain[15];
    StripPad(plain);
  }

  /** tool_rc_success; tool_rc.h is not part of this model. */
  const TOOL_RC_SUCCESS: nat := 0
  /** tool_rc_general_error, the enumerator after tool_rc_success. */
  const TOOL_RC_GENERAL_ERROR: nat := 1

  /** A tool_rc returned from a function whose result type is bool. */
  predicate ToolRcAsBool(rc: nat)
  {
    rc != 0
  }

  /**
   * setup_alg_mode_and_iv_and_padding as written, from the mode, whether
   * an input IV path was given and the contents of that file (None when
   * its size cannot be read), and the key's mode (None when reading the
   * public area fails): the result and the mode after.  The IV errors
   * return tool_rc_general_error from a bool function.
   */
  function SetupAsWritten(mode: u16, ivGiven: bool, ivFile: Option<seq<u8>>, objMode: Option<u16>): (r: (bool, u16))
    ensures ivGiven && (ivFile.None? || |ivFile.value| != IV_SIZE) ==> r == (true, mode)
  {
    if ivGiven && (ivFile.None? || |ivFile.value| != IV_SIZE) then (ToolRcAsBool(TOOL_RC_GENERAL_ERROR), mode)
    else if objMode.None? then (false, mode)
    else if mode != TPM2_ALG_NULL then (true, mode)
    else if objMode.value == TPM2_ALG_NULL then (true, TPM2_ALG_CFB)
    else (true, objMode.value)
  }

  /**
   * An IV file of 15 bytes: setup reports success and leaves the mode at
   * TPM2_ALG_NULL, so the run goes on with the all-zero IV.
   */
  lemma SetupAsWrittenAcceptsShortIv()
    ensures SetupAsWritten(TPM2_ALG_NULL, true, Some(Zeros(15)), Some(TPM2_ALG_CBC)) == (true, TPM2_ALG_NULL)
  {
  }

  /** What happens to the final IV when the loop is done. */
  datatype IvSave = NoSave | Save(path: string, iv: seq<u8>) | NullDereference

  /**
   * As written: with an output IV path, iv_in->buffer is saved, and iv_in
   * is NULL in ECB.
   */
  function IvSaveAsWritten(ivOut: Option<string>, ivFinal: Option<seq<u8>>): (r: IvSave)
    ensures r == NullDereference <==> ivOut.Some? && ivFinal.None?
  {
    if ivOut.None? then NoSave
    else if ivFinal.None? then NullDereference
    else Save(ivOut.value, ivFinal.value)
  }

  /** In ECB the IV after any successful run is absent, so an output IV path dereferences NULL. */
  lemma EcbIvOutDereferencesNull(tpm: Tpm, path: string, chunks: seq<seq<u8>>)
    requires Chain(tpm, None, true, chunks).Some?
    ensures IvSaveAsWritten(Some(path), Chain(tpm, None, true, chunks).value.1) == NullDereference
  {
  }

  /** The IV save with the absent IV of ECB skipped. */
  function IvSaveOf(ivOut: Option<string>, ivFinal: Option<seq<u8>>): (r: IvSave)
    ensures r != NullDereference
    ensures r.Save? <==> ivOut.Some? && ivFinal.Some?
    ensures r.Save? ==> r.path == ivOut.value && r.iv == ivFinal.value
  {
    if ivOut.Some? && ivFinal.Some? then Save(ivOut.value, ivFinal.value) else NoSave
  }

  /** Outside ECB the IV a run ends with is always there to save. */
  lemma ChainedIvPresent(tpm: Tpm, ivStart: seq<u8>, chunks: seq<seq<u8>>)
    requires Chain(tpm, Some(ivStart), false, chunks).Some?
    ensures Chain(tpm, Some(ivStart), false, chunks).value.1.Some?
  {
  }

  class EncryptDecryptCtx {
    var isDecrypt: bool
    const inputData: array<u8>
    var inputDataSize: nat
    var paddingEnabled: bool
    var mode: u16
    var ivIn: Option<string>
    var ivOut: Option<string>

    ghost predicate Valid()
      reads this
    {
      inputData.Length == INPUT_CAPACITY && inputDataSize <= UINT16_MAX
    }

    /** The static initialiser of ctx. */
    constructor ()
      ensures Valid() && fresh(inputData)
      ensures mode == TPM2_ALG_NULL && inputDataSize == 0
      ensures !paddingEnabled && !isDecrypt && ivIn.None? && ivOut.None?
    {
      isDecrypt := false;
      inputData := new u8[INPUT_CAPACITY](_ => 0);
      inputDataSize := 0;
      paddingEnabled := false;
      mode := TPM2_ALG_NULL;
      ivIn, ivOut := None, None;
    }

    /** evaluate_pkcs7_padding_requirements: is padding to be handled for this chunk? */
    function EvaluatePkcs7(remaining: nat, expected: bool): (r: bool)
      reads this
      ensures r ==> paddingEnabled && isDecrypt == expected
      ensures mode in {TPM2_ALG_NULL, TPM2_ALG_CFB} || remaining == 0 || remaining > TPM2_MAX_DIGEST_BUFFER ==> !r
    {
      && paddingEnabled
      && isDecrypt == expected
      && (mode == TPM2_ALG_CBC || mode == TPM2_ALG_ECB)
      && 0 < remaining <= TPM2_MAX_DIGEST_BUFFER
    }

    /** Padding is added on encryption: the option is on, the mode is CBC or ECB and there is data. */
    predicate PadsOnEncrypt()
      reads this
    {
      paddingEnabled && !isDecrypt && (mode == TPM2_ALG_CBC || mode == TPM2_ALG_ECB) && inputDataSize > 0
    }

    /** Padding is removed on decryption: the option is on and the mode is CBC or ECB. */
    predicate StripsOnDecrypt()
      reads this
    {
      paddingEnabled && isDecrypt && (mode == TPM2_ALG_CBC || mode == TPM2_ALG_ECB)
    }

    /**
     * append_pkcs7_padding_data_to_input: when padding applies to the
     * chunk, write the padding for the chunk's length after the input;
     * a short last block takes it into the chunk, a full one sends it as
     * a chunk of its own.
     */
    method AppendPkcs7Padding(padData: u8, inDataSize: nat, remaining: nat)
      returns (padOut: u8, inDataSizeOut: nat, remainingOut: nat)
      requires Valid()
      modifies inputData
      ensures !EvaluatePkcs7(remaining, false) ==>
                padOut == padData && inDataSizeOut == inDataSize && remainingOut == remaining
                && (forall k :: 0 <= k < inputData.Length ==> inputData[k] == old(inputData[k]))
      ensures EvaluatePkcs7(remaining, false) ==>
                && padOut == PadLength(inDataSize)
                && (forall k :: 0 <= k < inputDataSize ==> inputData[k] == old(inputData[k]))
                && (forall k :: inputDataSize <= k < inputDataSize + padOut ==> inputData[k] == padOut)
                && (forall k :: inputDataSize + padOut <= k < inputData.Length ==> inputData[k] == old(inputData[k]))
                && (padOut == BLOCK ==> inDataSizeOut == inDataSize && remainingOut == remaining + BLOCK)
                && (padOut < BLOCK ==> inDataSizeOut == remainingOut == inDataSize + padOut)
    {
      if !EvaluatePkcs7(remaining, false) {
        return padData, inDataSize, remaining;
      }
      padOut := PadLength(inDataSize);
      forall k | inputDataSize <= k < inputDataSize + padOut {
        inputData[k] := padOut;
      }
      inDataSizeOut, remainingOut := inDataSize, remaining;
      if padOut == BLOCK {
        remainingOut := remaining + padOut;
      }
      if padOut < BLOCK {
        inDataSizeOut := inDataSize + padOut;
        remainingOut := inDataSizeOut;
      }
    }

    /**
     * strip_pkcs7_padding_data_from_output: when padding applies to the
     * chunk (it is the last one of a padded decryption), drop the padding
     * the last byte of the output announces.
     */
    function StripPkcs7Padding(padData: u8, out: seq<u8>, remaining: nat): (r: (u8, seq<u8>))
      reads this
      ensures !EvaluatePkcs7(remaining, true) ==> r == (padData, out)
      ensures !isDecrypt ==> r.0 == padData
      ensures EvaluatePkcs7(remaining, true) ==>
                r.1 == StripPkcs7(out) && (out != [] ==> r.0 == out[|out| - 1])
    {
      if !EvaluatePkcs7(remaining, true) || out == [] then (padData, out)
      else
        var pad := out[|out| - 1];
        (pad, if pad > |out| then out else out[..|out| - pad])
    }

    /** parse_iv: the -t argument names the input IV file and, after a ':', the output IV file. */
    method ParseIv(value: string)
      modifies this`ivIn, this`ivOut
      ensures ivIn == Some(SplitIv(value).0)
      ensures ivOut == if ':' in value then SplitIv(value).1 else old(ivOut)
    {
      SplitIvFindsColon(value);
      var split := SplitIv(value);
      ivIn := Some(split.0);
      if split.1.Some? {
        ivOut := split.1;
      }
    }

    /**
     * setup_alg_mode_and_iv_and_padding: load the input IV, which must be
     * exactly IV_SIZE bytes, read the key's public area (objMode is its
     * symmetric mode, None when the read fails), and default the mode to
     * the key's own, or to CFB when the key has none.  Any failure
     * reports false (see SetupAsWritten).
     */
    method Setup(fs: map<string, seq<u8>>, objMode: Option<u16>) returns (ok: bool, iv: seq<u8>)
      modifies this`mode
      ensures ok <==> (ivIn.Some? ==> ivIn.value in fs && |fs[ivIn.value]| == IV_SIZE) && objMode.Some?
      ensures ok ==> iv == if ivIn.Some? then fs[ivIn.value] else Zeros(IV_SIZE)
      ensures ok ==> mode == if old(mode) != TPM2_ALG_NULL then old(mode)
                             else if objMode.value == TPM2_ALG_NULL then TPM2_ALG_CFB
                             else objMode.value
      ensures ok ==> mode != TPM2_ALG_NULL
      ensures !ok ==> mode == old(mode)
    {
      iv := Zeros(IV_SIZE);
      if ivIn.Some? {
        if ivIn.value !in fs || |fs[ivIn.value]| != IV_SIZE {
          return false, iv;
        }
        iv := fs[ivIn.value];
      }
      if objMode.None? {
        return false, iv;
      }
      if mode == TPM2_ALG_NULL {
        if objMode.value == TPM2_ALG_NULL {
          mode := TPM2_ALG_CFB;
        } else {
          mode := objMode.value;
        }
      }
      ok := true;
    }

    /**
     * The input buffer holds the input and, once padded is set, its
     * padding after it; data is what is to be sent.
     */
    ghost predicate Layout(input: seq<u8>, data: seq<u8>, padded: bool)
      reads this, inputData
    {
      && Valid()
      && |input| == inputDataSize
      && |data| <= inputData.Length
      && (forall k :: 0 <= k < |data| ==> inputData[k] == data[k])
      && (if padded then PadsOnEncrypt() && data == input + Pkcs7Pad(inputDataSize) else data == input)
    }

    /**
     * The head of the loop body: the size of the next chunk, with the
     * padding appended first when it is due, and the chunk itself.
     */
    method NextChunk(offset: nat, remaining: nat, padData: u8,
                     ghost input: seq<u8>, ghost data: seq<u8>, ghost padded: bool)
      returns (chunk: nat, remainingOut: nat, padOut: u8, inData: seq<u8>,
               ghost dataOut: seq<u8>, ghost paddedOut: bool)
      requires 0 < remaining && PadState(input, data, padded, remaining, offset, padData)
      modifies inputData
      ensures 0 < chunk <= TPM2_MAX_DIGEST_BUFFER && chunk <= remainingOut
      ensures PadState(input, dataOut, paddedOut, remainingOut - chunk, offset + chunk, padOut)
      ensures |data| <= |dataOut| <= inputDataSize + BLOCK && dataOut[..offset] == data[..offset]
      ensures offset + remainingOut == |dataOut|
      ensures inData == dataOut[offset..offset + chunk]
      ensures isDecrypt ==> padOut == padData && remainingOut == remaining
      ensures isDecrypt ==> chunk == if remaining > TPM2_MAX_DIGEST_BUFFER then TPM2_MAX_DIGEST_BUFFER else remaining
      ensures !padded && !paddedOut ==>
                remainingOut == remaining && (chunk == TPM2_MAX_DIGEST_BUFFER || chunk == remaining)
      ensures !padded && paddedOut ==>
                if inputDataSize % BLOCK == 0 then chunk == remaining && remainingOut == chunk + BLOCK
                else chunk == remainingOut
      ensures padded ==> paddedOut && chunk == remaining == remainingOut
    {
      chunk := if remaining > TPM2_MAX_DIGEST_BUFFER then TPM2_MAX_DIGEST_BUFFER else remaining;
      remainingOut, padOut, dataOut, paddedOut := remaining, padData, data, padded;
      if padData == 0 {
        ghost var unpadded := chunk;
        padOut, chunk, remainingOut := AppendPkcs7Padding(padData, chunk, remaining);
        if padOut != 0 {
          assert unpadded == inputDataSize - offset;
          assert offset == offset / BLOCK * BLOCK;
          assert unpadded % BLOCK == inputDataSize % BLOCK;
          dataOut, paddedOut := input + Pkcs7Pad(inputDataSize), true;
        }
      }
      inData := inputData[offset..offset + chunk];
      assert forall k :: 0 <= k < chunk ==> inData[k] == dataOut[offset + k];
      if !paddedOut && chunk == TPM2_MAX_DIGEST_BUFFER {
        FullChunkKeepsAlignment(offset);
      }
      LayoutLength(input, dataOut, paddedOut);
    }

    /**
     * The chunking loop of encrypt_decrypt.  The input, with its padding
     * when PadsOnEncrypt holds, is cut into chunks of at most
     * TPM2_MAX_DIGEST_BUFFER bytes that the TPM processes in order, the IV
     * carried from one to the next; the outputs are written in order,
     * the last one stripped when StripsOnDecrypt holds.  sent is the list
     * of chunks handed to the TPM.
     */
    method Run(tpm: Tpm, ivStart: seq<u8>)
      returns (ok: bool, output: seq<u8>, ivFinal: Option<seq<u8>>, ghost sent: seq<seq<u8>>)
      requires Valid()
      modifies inputData
      ensures forall i :: 0 <= i < |sent| ==> 0 < |sent[i]| <= TPM2_MAX_DIGEST_BUFFER
      ensures inputData[..inputDataSize] == old(inputData[..inputDataSize])
      ensures ok ==> Flatten(sent) == old(inputData[..inputDataSize])
                                        + (if PadsOnEncrypt() then Pkcs7Pad(inputDataSize) else [])
      ensures ok ==> Chain(tpm, ChainStart(ivStart), mode == TPM2_ALG_ECB, sent).Some?
      ensures ok ==> output == Emitted(Chain(tpm, ChainStart(ivStart), mode == TPM2_ALG_ECB, sent).value.0,
                                       StripsOnDecrypt())
      ensures ok ==> ivFinal == Chain(tpm, ChainStart(ivStart), mode == TPM2_ALG_ECB, sent).value.1
      ensures !ok ==> Chain(tpm, ChainStart(ivStart), mode == TPM2_ALG_ECB, sent).None?
      ensures sent <= SendOrder(old(inputData[..inputDataSize]), PadsOnEncrypt())
      ensures ok ==> sent == SendOrder(old(inputData[..inputDataSize]), PadsOnEncrypt())
    {
      var ecb := mode == TPM2_ALG_ECB;
      ok, output, ivFinal, sent := Pump(tpm, ecb, ChainStart(ivStart), inputData[..inputDataSize]);
    }

    /**
     * The loop of Run on the input as it lies in the buffer, from the IV
     * iv0: whether every TPM call succeeded, the output, the IV after the
     * last chunk and the chunks sent.
     */
    method Pump(tpm: Tpm, ecb: bool, iv0: Option<seq<u8>>, ghost input: seq<u8>)
      returns (done: bool, output: seq<u8>, iv: Option<seq<u8>>, ghost sent: seq<seq<u8>>)
      requires Valid() && ecb == (mode == TPM2_ALG_ECB) && input == inputData[..inputDataSize]
      modifies inputData
      ensures inputData[..inputDataSize] == input
      ensures forall i :: 0 <= i < |sent| ==> 0 < |sent[i]| <= TPM2_MAX_DIGEST_BUFFER
      ensures sent <= SendOrder(input, PadsOnEncrypt())
      ensures done ==> sent == SendOrder(input, PadsOnEncrypt())
      ensures done ==> Flatten(sent) == input + (if PadsOnEncrypt() then Pkcs7Pad(inputDataSize) else [])
      ensures done ==> Chain(tpm, iv0, ecb, sent).Some? && iv == Chain(tpm, iv0, ecb, sent).value.1
      ensures done ==> output == Emitted(Chain(tpm, iv0, ecb, sent).value.0, StripsOnDecrypt())
      ensures !done ==> Chain(tpm, iv0, ecb, sent).None?
    {
      ghost var data, padded := input, false;
      assert forall k :: 0 <= k < |data| ==> inputData[k] == data[k];
      ghost var outs: seq<seq<u8>> := [];
      var remaining: nat := inputDataSize;
      var offset: nat := 0;
      var padData: u8 := 0;
      iv := iv0;
      output, sent := [], [];
      CutStart(input);
      done := true;
      while remaining > 0
        invariant PadState(input, data, padded, remaining, offset, padData)
        invariant Cut(input, sent, padded, remaining, offset)
        invariant done ==> Sending(tpm, iv0, ecb, StripsOnDecrypt(), data, sent, outs, remaining, offset, iv, output)
        invariant !done ==> Chain(tpm, iv0, ecb, sent).None?
        decreases inputDataSize + BLOCK - offset
      {
        done, remaining, offset, padData, iv, output, data, padded, sent, outs :=
          Step(tpm, iv0, ecb, input, data, padded, sent, outs, remaining, offset, padData, iv, output);
        if !done {
          break;
        }
      }
      PrefixKept(input, data, padded);
      SentInOrder(input, data, padded, sent, remaining, offset, padData);
      if done {
        Finished(tpm, iv0, ecb, input, data, padded, sent, outs, offset, padData, iv, output);
      }
    }

    /** The chunks sent are the start of the send order, and all of it once nothing remains. */
    lemma SentInOrder(input: seq<u8>, data: seq<u8>, padded: bool, sent: seq<seq<u8>>,
                      remaining: nat, offset: nat, padData: u8)
      requires PadState(input, data, padded, remaining, offset, padData)
      requires Cut(input, sent, padded, remaining, offset)
      ensures sent <= SendOrder(input, PadsOnEncrypt())
      ensures remaining == 0 ==> sent == SendOrder(input, PadsOnEncrypt())
      ensures forall i :: 0 <= i < |sent| ==> 0 < |sent[i]| <= TPM2_MAX_DIGEST_BUFFER
    {
      CutPrefix(input, sent, padded, remaining, offset, PadsOnEncrypt());
      assert forall i :: 0 <= i < |sent| ==> sent[i] == SendOrder(input, PadsOnEncrypt())[i];
    }

    /** The laid-out data is the input and at most one block of padding. */
    lemma LayoutLength(input: seq<u8>, data: seq<u8>, padded: bool)
      requires Layout(input, data, padded)
      ensures |data| <= inputDataSize + BLOCK
    {
    }

    /** The input stays in place at the start of the buffer. */
    lemma PrefixKept(input: seq<u8>, data: seq<u8>, padded: bool)
      requires Layout(input, data, padded)
      ensures inputData[..inputDataSize] == input
    {
      assert forall k :: 0 <= k < inputDataSize ==> inputData[k] == data[k] == input[k];
    }

    /** When nothing remains, all of the input and its padding has been sent. */
    lemma Finished(tpm: Tpm, iv0: Option<seq<u8>>, ecb: bool, input: seq<u8>, data: seq<u8>, padded: bool,
                   sent: seq<seq<u8>>, outs: seq<seq<u8>>, offset: nat, padData: u8,
                   iv: Option<seq<u8>>, output: seq<u8>)
      requires PadState(input, data, padded, 0, offset, padData)
      requires Sending(tpm, iv0, ecb, StripsOnDecrypt(), data, sent, outs, 0, offset, iv, output)
      ensures Flatten(sent) == input + (if PadsOnEncrypt() then Pkcs7Pad(inputDataSize) else [])
      ensures Chain(tpm, iv0, ecb, sent) == Some((outs, iv))
      ensures output == Emitted(outs, StripsOnDecrypt())
    {
      assert data[..offset] == data;
    }

    /** The pad value matters to the loop only on encryption. */
    lemma PadStateSamePad(input: seq<u8>, data: seq<u8>, padded: bool, remaining: nat, offset: nat, p: u8, q: u8)
      requires PadState(input, data, padded, remaining, offset, p)
      requires !isDecrypt ==> p == q
      ensures PadState(input, data, padded, remaining, offset, q)
    {
    }

    /** The part of the loop invariant about the input buffer and its padding. */
    ghost predicate PadState(input: seq<u8>, data: seq<u8>, padded: bool, remaining: nat, offset: nat, padData: u8)
      reads this, inputData
    {
      && Layout(input, data, padded)
      && offset + remaining == |data|
      && (padded ==> remaining <= BLOCK && padData != 0)
      && (!isDecrypt && !padded ==> padData == 0)
      && (!padded && remaining > 0 ==> offset % BLOCK == 0)
      && (!padded && remaining == 0 && inputDataSize > 0 ==> !PadsOnEncrypt())
    }

    /** One pass of the loop body of encrypt_decrypt. */
    method Step(tpm: Tpm, ghost iv0: Option<seq<u8>>, ecb: bool, ghost input: seq<u8>,
                ghost data: seq<u8>, ghost padded: bool, ghost sent: seq<seq<u8>>, ghost outs: seq<seq<u8>>,
                remaining: nat, offset: nat, padData: u8, iv: Option<seq<u8>>, output: seq<u8>)
      returns (ok: bool, remaining': nat, offset': nat, padData': u8, iv': Option<seq<u8>>, output': seq<u8>,
               ghost data': seq<u8>, ghost padded': bool, ghost sent': seq<seq<u8>>, ghost outs': seq<seq<u8>>)
      requires ecb == (mode == TPM2_ALG_ECB) && PadState(input, data, padded, remaining, offset, padData)
      requires Sending(tpm, iv0, ecb, StripsOnDecrypt(), data, sent, outs, remaining, offset, iv, output)
      requires remaining > 0 && Cut(input, sent, padded, remaining, offset)
      modifies inputData
      ensures PadState(input, data', padded', remaining', offset', padData')
      ensures Cut(input, sent', padded', remaining', offset')
      ensures ok ==> Sending(tpm, iv0, ecb, StripsOnDecrypt(), data', sent', outs', remaining', offset', iv', output')
      ensures ok ==> offset < offset' <= inputDataSize + BLOCK
      ensures !ok ==> Chain(tpm, iv0, ecb, sent').None?
      ensures !ok ==> forall i :: 0 <= i < |sent'| ==> 0 < |sent'[i]| <= TPM2_MAX_DIGEST_BUFFER
    {
      var chunk, left, inData, padNext;
      ghost var strip := StripsOnDecrypt();
      chunk, left, padNext, inData, data', padded' := NextChunk(offset, remaining, padData, input, data, padded);
      var t := Transform(tpm, ecb, iv, inData, padNext, left);
      ok := t.Some?;
      iv' := if ok then t.value.iv else iv;
      padData' := if ok then t.value.pad else padNext;
      output' := if ok then output + t.value.written else output;
      remaining', offset' := left - chunk, offset + chunk;
      PadStateSamePad(input, data', padded', remaining', offset', padNext, padData');
      sent', outs' := StepDone(tpm, iv0, ecb, strip, data, data', sent, outs, remaining, left,
                               offset, chunk, inData, padData, padNext, iv, output, t,
                               ok, remaining', offset', iv', output');
      CutStep(input, data, data', sent, padded, padded', remaining, left, offset, chunk, inData);
    }

    /**
     * One pass of the loop body, from the chunk NextChunk cut and the
     * result of Transform, in the terms of the loop invariant.
     */
    lemma StepDone(tpm: Tpm, iv0: Option<seq<u8>>, ecb: bool, strip: bool,
                   data: seq<u8>, data': seq<u8>, sent: seq<seq<u8>>, outs: seq<seq<u8>>,
                   remaining: nat, left: nat, offset: nat, chunk: nat, inData: seq<u8>,
                   padData: u8, padNext: u8, iv: Option<seq<u8>>, output: seq<u8>, t: Option<Pass>,
                   ok: bool, remaining': nat, offset': nat, iv': Option<seq<u8>>, output': seq<u8>)
      returns (sent': seq<seq<u8>>, outs': seq<seq<u8>>)
      requires Sending(tpm, iv0, ecb, strip, data, sent, outs, remaining, offset, iv, output)
      requires ecb == (mode == TPM2_ALG_ECB) && strip == StripsOnDecrypt()
      requires 0 < chunk <= TPM2_MAX_DIGEST_BUFFER && chunk <= left
      requires |data| <= |data'| <= inputDataSize + BLOCK && data'[..offset] == data[..offset]
      requires offset + left == |data'|
      requires inData == data'[offset..offset + chunk]
      requires isDecrypt ==> padNext == padData && left == remaining
      requires isDecrypt ==> chunk == if remaining > TPM2_MAX_DIGEST_BUFFER then TPM2_MAX_DIGEST_BUFFER else remaining
      requires t == Transform(tpm, ecb, iv, inData, padNext, left)
      requires ok == t.Some? && remaining' == left - chunk && offset' == offset + chunk
      requires iv' == (if ok then t.value.iv else iv)
      requires output' == (if ok then output + t.value.written else output)
      ensures ok ==> Sending(tpm, iv0, ecb, StripsOnDecrypt(), data', sent', outs', remaining', offset', iv', output')
      ensures ok ==> offset < offset' <= inputDataSize + BLOCK
      ensures !ok ==> Chain(tpm, iv0, ecb, sent').None?
      ensures !ok ==> forall i :: 0 <= i < |sent'| ==> 0 < |sent'[i]| <= TPM2_MAX_DIGEST_BUFFER
      ensures sent' == sent + [inData]
    {
      sent' := sent + [inData];
      outs' := if t.Some? then outs + [t.value.raw] else outs;
      Transformed(tpm, iv0, ecb, strip, iv, inData, padNext, left, chunk, sent, outs, output);
      if ok {
        SendingStep(tpm, iv0, ecb, strip, data, data', sent, outs, remaining, left, offset, iv, output,
                    chunk, inData, true, iv', output', outs');
      } else {
        SendingStep(tpm, iv0, ecb, strip, data, data', sent, outs, remaining, left, offset, iv, output,
                    chunk, inData, false, iv', output', outs');
      }
    }


    /**
     * The rest of the loop body: the chunk through the TPM, the IV carried
     * on outside ECB, the padding stripped from the last output of a
     * padded decryption.  None when the TPM call fails.
     */
    function Transform(tpm: Tpm, ecb: bool, iv: Option<seq<u8>>, inData: seq<u8>, padData: u8, remaining: nat): (r: Option<Pass>)
      reads this
      ensures r.None? <==> tpm(iv, inData).None?
      ensures r.Some? ==> r.value.raw == tpm(iv, inData).value.data
      ensures r.Some? && !isDecrypt ==> r.value.pad == padData
    {
      match tpm(iv, inData)
      case None => None
      case Some(o) =>
        var (pad, out) := StripPkcs7Padding(padData, o.data, remaining);
        Some(Pass(if ecb then iv else Some(o.iv), pad, out, o.data))
    }

    /** Transform is one more step of Chain, and what it writes extends the output. */
    lemma Transformed(tpm: Tpm, iv0: Option<seq<u8>>, ecb: bool, strip: bool,
                      iv: Option<seq<u8>>, inData: seq<u8>, padData: u8, remaining: nat, chunk: nat,
                      sent: seq<seq<u8>>, outs: seq<seq<u8>>, output: seq<u8>)
      requires Chain(tpm, iv0, ecb, sent) == Some((outs, iv))
      requires output == Flatten(outs)
      requires ecb == (mode == TPM2_ALG_ECB) && strip == StripsOnDecrypt()
      requires 0 < chunk <= remaining
      requires isDecrypt ==> chunk == if remaining > TPM2_MAX_DIGEST_BUFFER then TPM2_MAX_DIGEST_BUFFER else remaining
      ensures var r := Transform(tpm, ecb, iv, inData, padData, remaining);
              && (r.None? ==> Chain(tpm, iv0, ecb, sent + [inData]).None?)
              && (r.Some? ==> Chain(tpm, iv0, ecb, sent + [inData]) == Some((outs + [r.value.raw], r.value.iv)))
              && (r.Some? ==> output + r.value.written
                                == if remaining == chunk then Emitted(outs + [r.value.raw], strip)
                                   else Flatten(outs + [r.value.raw]))
    {
      ChainSnoc(tpm, iv0, ecb, sent, inData);
      var o := tpm(iv, inData);
      if o.Some? {
        var (pad, out) := StripPkcs7Padding(padData, o.value.data, remaining);
        Advance(tpm, iv0, ecb, sent, outs, iv, output, inData, o.value, strip, remaining == chunk, out);
      }
    }

    /** The IV the first chunk gets: none in ECB. */
    function ChainStart(ivStart: seq<u8>): (r: Option<seq<u8>>)
      reads this
      ensures r.None? <==> mode == TPM2_ALG_ECB
    {
      if mode == TPM2_ALG_ECB then None else Some(ivStart)
    }
  }
}
