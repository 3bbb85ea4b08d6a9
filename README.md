# tpm2-tools quote check and byte helpers, modelled in Dafny

This project models the part of tpm2-tools that checks a TPM attestation
quote, together with the byte-level helpers that check relies on and a few
small self-contained tool routines:

- `Quote`: the cursor-based reader of a `TPMS_ATTEST` quote
  (`tpm2_util_get_digest_from_quote`). It models the uneven bounds guards and
  the out-parameters written before a later guard fails. It also models the
  byte-exact digest comparison, and an encoder of well-formed quotes that the
  reader is proved to take apart again. The reader method adds the capacity
  checks the code lacks before its two payload copies; the reader as written
  is the function `Parse`.
- `CheckQuote`: the verdict of `tpm2_checkquote` (`verify_signature`, `init`,
  `on_option`, `message_from_file`, `pcrs_from_file`). RSA, hashing,
  signature loading and PCR-bank hashing are function parameters.
- `Bytes`, `Endian`, `Strings`, `Util`, `Handles`: the helpers of
  `lib/tpm2_util.c` and `lib/tpm2_util.h`, namely:
  - big-endian encoding, endian swap, hton/ntoh and pop count;
  - checked string to integer conversion, hex decoding and hexdump;
  - the string branch of the label reader;
  - the bounded buffer append, `calc_unique` and the PCR select bit;
  - handle flags, handle filtering and the hierarchy/ESYS_TR mapping.

  The host byte order is a parameter.
- `Files`: the stream encoding of `lib/files.c`, namely big-endian integers,
  the `0xBADCC0DE` header and the saved `TPMS_CONTEXT` record. A `FILE` is a
  class holding a byte sequence and a cursor. Saving then loading a context
  gives it back.
- `EncryptDecrypt`: the PKCS#7 padding, chunking and IV chaining loop of
  `tpm2_encryptdecrypt`, `parse_iv` and the mode default. The TPM is a
  function from (IV, chunk) to an optional (output, next IV).
- `ClearControl`: the `s|c|0|1` argument of `tpm2_clearcontrol` and the rule
  that only the platform hierarchy may CLEAR disableClear.
- `FlushContext`: the option/argument exclusion of `tpm2_flushcontext`, the
  handle-range names and the stop-at-first-failure flush loop.

Where the C code and its documentation disagree, the model follows the code:

- `verify_signature` checks the signature first, then the nonce, then the
  PCR digest.
- `ntoh` is implemented by calling `hton`.

A C string is modelled as a `string` (`seq<char>`) holding no NUL, so its
length is what `strlen` returns: `Files.LoadBytesFromBuffer` compares `|s|`
where the C compares `strlen`. Where text becomes bytes, each `char` is one
byte, its code taken modulo 256.

## Model

| member | source | states |
|---|---|---|
| Endian.SwappedBytes | lib/tpm2_util.c:334-347 | the swapped value's big-endian bytes are the original's in reverse order |
| Endian.SwappedInvolution | lib/tpm2_util.c:334-351 | swapping twice gives the value back |
| Endian.EndianSwap | lib/tpm2_util.c:334-347 | the byte-copying loop yields the value whose bytes are reversed, i.e. Swapped |
| Endian.EndianSwap16 | lib/tpm2_util.c:349 | the 16-bit swap reverses the two bytes |
| Endian.EndianSwap32 | lib/tpm2_util.c:350 | the 32-bit swap reverses the four bytes |
| Endian.EndianSwap64 | lib/tpm2_util.c:351 | the 64-bit swap reverses the eight bytes |
| Endian.Hton | lib/tpm2_util.c:353-366 | identity on a big-endian host, a swap otherwise; the result lies in host memory in network order |
| Endian.Ntoh | lib/tpm2_util.c:368-384 | the same result as hton, and it is the value the network-order memory bytes denote |
| Endian.LoadNetworkOrder | lib/tpm2_util.c:31-36 | a memcpy of wire bytes followed by "swap unless big-endian" gives the big-endian value of the bytes |
| Endian.StoreNetworkOrder | lib/files.c:529-541 | converting and then taking the variable's bytes gives the big-endian encoding |
| Endian.NibbleTable | lib/tpm2_util.c:388-389 | each entry of bits_per_nibble is the number of one bits of its index |
| Endian.PopCount | lib/tpm2_util.c:386-401 | the nibble-table loop returns the number of set bits of the 32-bit argument, at most 32 |
| Endian.BitCountBound | lib/tpm2_util.h:306-313 | a value below 2^k has at most k set bits |
| Strings.WholeNumber | lib/tpm2_util.c:228-242 | strtoul with base 0 over the whole string: empty text fails; an accepted string holds only hex digits and the x of a 0x prefix, and only decimal digits unless it starts with 0 |
| Strings.StringToUint32 | lib/tpm2_util.c:220-246 | NULL, empty, malformed text and values above UINT32_MAX fail; otherwise the base-0 numeral's value |
| Strings.StringToUint16 | lib/tpm2_util.c:203-218 | the 32-bit conversion, failing above UINT16_MAX |
| Strings.StringToUint8 | lib/tpm2_util.c:186-201 | the 32-bit conversion, failing above UINT8_MAX |
| Strings.StringToUint32Numerals | lib/tpm2_util.c:220-246 | decimal and 0x-hex numerals read back as their value exactly when it fits 32 bits |
| Strings.StringToUint16Numerals | lib/tpm2_util.c:203-218 | decimal numerals read back exactly when they fit 16 bits |
| Strings.StringToUint8Numerals | lib/tpm2_util.c:186-201 | decimal numerals read back exactly when they fit 8 bits |
| Strings.TrailingJunk | lib/tpm2_util.c:240-242 | a numeral followed by a non-digit character is rejected |
| Strings.HexStatus | lib/tpm2_util.c:248-274 | status 0 only for an even-length all-hex string that fits the capacity; errors -1..-4 in the code's order |
| Strings.HexToByteStructure | lib/tpm2_util.c:248-274 | on success the buffer's prefix is the decoded string and byteLength is half its length; on error nothing is written |
| Strings.Hexdump2 | lib/tpm2_util.c:276-282 | the %02x text of the bytes: even length, hex digits only, and it decodes back to the bytes |
| Strings.HexRoundTrip | lib/tpm2_util.c:248-282 | hex-decoding the hexdump of any bytes gives those bytes |
| Strings.GetLabel | lib/tpm2_util.c:942-989 | NULL gives an empty label; a string of at most 65 bytes becomes the label plus a NUL; a longer one fails |
| Util.MaxBuffer.constructor | lib/tpm2_util.c:166-184 | an empty TPM2B_MAX_BUFFER |
| Util.ConcatBuffer | lib/tpm2_util.c:166-184 | fails on NULL or when the sum exceeds TPM2_MAX_DIGEST_BUFFER, leaving result unchanged; else contents become old contents followed by append |
| Util.CalcUnique | lib/tpm2_util.c:609-631 | fails when seed and key together exceed the buffer or the digester is missing; else unique is the digest of seed followed by key, sized by the algorithm |
| Util.IsPcrSelectBitSet | lib/tpm2_util.h:231-233 | the mask test is true exactly when bit pcr % 8 of byte pcr / 8 is set |
| Util.PcrBitmapSelects | lib/tpm2_util.h:231-233 | in the bitmap built from a set of PCRs, the test is true exactly for the members |
| Quote.Parse | lib/tpm2_util.c:19-143 | the reference reader: a refusal up to the extraData length has written nothing; a stored extraData comes with its size; a digest size is stored only when the digest bytes run past the end, after extraData |
| Quote.SkipSelections | lib/tpm2_util.c:100-124 | skipping the selections moves forward and fails only at a selection guard |
| Quote.Load16 | lib/tpm2_util.c:32-35 | a 16-bit field read through memcpy and swap is its big-endian value |
| Quote.Load32 | lib/tpm2_util.c:31-34 | a 32-bit field read through memcpy and swap is its big-endian value |
| Quote.SkipToExtraData | lib/tpm2_util.c:25-57 | the header and signer-name steps succeed exactly as the reference reader's, stopping at the same offset |
| Quote.ReadExtraData | lib/tpm2_util.c:59-72 | extraData is filled with the bytes after its length, which fit its buffer, and the rest of the parse continues from there; an extraData running past the quote, or longer than the buffer, is refused with only its size stored. The capacity check is the corrected code, see Findings |
| Quote.SkipToPcrDigest | lib/tpm2_util.c:74-124 | the clock, firmware and selection skips succeed exactly as the reference reader's |
| Quote.ReadDigest | lib/tpm2_util.c:126-142 | the digest length guard and payload guard, with the size written before the second guard; a digest longer than the buffer is refused before the copy (the corrected code, see Findings) |
| Quote.ReadTail | lib/tpm2_util.c:74-142 | the part after extraData agrees with the reference reader plus the digest capacity check, digest out-parameter included |
| Quote.TailKeepsExtra | lib/tpm2_util.c:59-72 | a failure after extraData, an oversized digest included, leaves extraData as it was written at line 72 |
| Quote.GetDigestFromQuote | lib/tpm2_util.c:19-143 | success and both out-parameters, partial writes included, are those of ParseWithin: the reference reader Parse with a payload longer than its out-parameter's buffer refused before the copy (the corrected code, see Findings) |
| Quote.ParseLocates | lib/tpm2_util.c:19-143 | an accepted quote has the magic and tag, extraData sits after its length at 10 + name size, and the digest lies inside the buffer |
| Quote.HeaderGuards | lib/tpm2_util.c:26-46 | a buffer under 6 bytes, a wrong magic or a wrong tag is rejected at that guard |
| Quote.ParseExtends | lib/tpm2_util.c:19-143 | a quote accepted in its first k bytes is accepted in full with the same layout: no guard looks past the digest |
| Quote.TruncationRejected | lib/tpm2_util.c:19-143 | an accepted quote cut anywhere before the end of its digest is refused, at the guard of the field the cut falls in, with the sizes already stored |
| Quote.OverlongLengths | lib/tpm2_util.c:47-72 | a signer name length that runs past the buffer is refused at the extraData length's guard with nothing stored; an extraData length that does is refused with that size stored |
| Quote.OverlongDigest | lib/tpm2_util.c:126-142 | a digest length that runs past the buffer is refused at DigestBytes, with extraData and both sizes stored |
| Quote.ParseEncode | lib/tpm2_util.c:19-143 | the reader takes back the extraData and digest of every well-formed encoded quote; an empty digest is rejected at the digest-size guard |
| Quote.ExtraDataOverrunsAsWritten | lib/tpm2_util.c:59-72 | as written, a well-formed quote whose extraData is longer than the out-parameter's buffer is accepted and the copy runs past the buffer |
| Quote.DigestOverrunsAsWritten | lib/tpm2_util.c:126-142 | as written, a well-formed quote whose digest is longer than the out-parameter's buffer is accepted and the copy runs past the buffer |
| Quote.WithinFits | lib/tpm2_util.c:59-72 | with the capacity checks, both out-parameters keep their buffer sizes, and an accepted quote's sizes fit them |
| Quote.WithinAgrees | lib/tpm2_util.c:19-143 | with the capacity checks, a quote is accepted iff the code accepts it with both payloads within their buffers, with the same layout; an oversized extraData is refused at ExtraDataTooLong with its size stored, an oversized digest at DigestTooLong after extraData; any other refusal is the code's |
| Quote.ParseEncodeWithin | lib/tpm2_util.c:19-143 | with the capacity checks, every well-formed encoded quote whose payloads fit is still read back |
| Quote.VerifyDigests | lib/tpm2_util.c:146-164 | true iff the two digests have the same size and the same bytes |
| Handles.FlagConstants | lib/tpm2_util.h:400-415 | O, P, E, N, L are distinct single bits whose union is ALL_HIERACHIES; ALL_W_NV has NV and not PCR, ALL_W_PCR the reverse |
| Handles.FilterHandles | lib/tpm2_util.c:757-824 | the handle is unchanged or, when it has no range, rebased into the NV range; an accepted handle is PCR, NV, transient, permanent or persistent |
| Handles.Range | lib/tpm2_util.c:757-824 | the handle with its low 24 bits cleared |
| Handles.FilterHierarchyHandles | lib/tpm2_util.c:712-755 | each hierarchy handle passes exactly when its flag is set; other permanent handles are refused |
| Handles.FilterHandlesKinds | lib/tpm2_util.c:757-824 | a bare index is rebased into NV or PCR by flag; NV, persistent and transient handles pass by flag; sessions never pass |
| Handles.NamedHierarchy | lib/tpm2_util.c:841-864 | one of the five hierarchies or 0, 0 exactly when the text abbreviates none of the names, and lockout whenever it abbreviates lockout |
| Handles.HandleFromOptarg | lib/tpm2_util.c:826-940 | success needs non-empty text and not both NV and PCR flags, and never yields a session handle |
| Handles.Abbreviations | lib/tpm2_util.c:841-864 | every prefix of owner, platform, endorsement, null or lockout names that hierarchy |
| Handles.HandleFromOptargCases | lib/tpm2_util.c:826-940 | NULL or empty text, and the NV and PCR flags together, fail with the variable untouched; owner, platform, endorsement, null and lockout are filtered by their own flag; a numeral is converted and then filtered |
| Handles.HierarchyToEsysTr | lib/tpm2_util.c:633-648 | the five hierarchies map to their ESYS_TR; anything else maps to ESYS_TR_NONE |
| Handles.HierarchyRoundTrip | lib/tpm2_util.c:633-648 | the hierarchy mapping is invertible on the five hierarchies |
| Files.Stream.ReadX | lib/files.c:510-527 | reads n bytes at the cursor; when too few remain it fails at the end of the file |
| Files.Stream.WriteX | lib/files.c:480-497 | on a writable stream the bytes overwrite or extend at the cursor; otherwise nothing changes |
| Files.Stream.SeekBack | lib/files.c:336-341 | moves the cursor back exactly when the stream is seekable and the cursor is far enough in; the contents are unchanged |
| Files.Stream.Rewind | lib/files.c:261 | a seekable stream's cursor returns to the start; a pipe's stays where it is |
| Files.PutPut | lib/files.c:480-497 | two consecutive writes equal one write of both |
| Files.WriteUint | lib/files.c:529-541 | writes the big-endian encoding whatever the host order |
| Files.ReadUint | lib/files.c:543-552 | reads the big-endian value at the cursor whatever the host order |
| Files.Write16 | lib/files.c:555-564 | files_write_16 writes 2 big-endian bytes |
| Files.Write32 | lib/files.c:555-564 | files_write_32 writes 4 big-endian bytes |
| Files.Write64 | lib/files.c:555-564 | files_write_64 writes 8 big-endian bytes |
| Files.Read16 | lib/files.c:555-564 | files_read_16 decodes 2 big-endian bytes |
| Files.Read32 | lib/files.c:555-564 | files_read_32 decodes 4 big-endian bytes |
| Files.Read64 | lib/files.c:555-564 | files_read_64 decodes 8 big-endian bytes |
| Files.WriteThenRead | lib/files.c:529-564 | a read after a write at the same place gives the written value |
| Files.WriteHeader | lib/files.c:580-589 | writes MAGIC then the version, both big-endian |
| Files.CheckMagic | lib/files.c:323-349 | true iff MAGIC is at the cursor and, with seek_reset, the stream can seek back; with seek_reset on a seekable stream the cursor ends where it started, otherwise 4 bytes on |
| Files.ReadHeader | lib/files.c:591-602 | succeeds only when MAGIC is there, and then returns the version that follows |
| Files.HeaderRoundTrip | lib/files.c:580-602 | a written header reads back with its version |
| Files.DecodeContext | lib/files.c:244-321 | a version other than 1 and a blob larger than the buffer are rejected; success consumes one whole record |
| Files.RecordSlices | lib/files.c:157-212 | the record is header, hierarchy, savedHandle, sequence, blob size and blob, in that order |
| Files.DecodeRecord | lib/files.c:244-321 | loading a record gives back the context it was written from |
| Files.DecodedIsRecord | lib/files.c:157-321 | whatever loads is exactly the record of the loaded context |
| Files.SaveThenLoad | lib/files.c:157-321 | saving a context and then loading at the same place gives the same context |
| Files.SaveContext | lib/files.c:157-212 | on a writable stream writes the record of the context at the cursor |
| Files.WriteFields | lib/files.c:174-207 | the field writes after the header complete the record |
| Files.WriteStep | lib/files.c:174-207 | one more big-endian field is added to the record |
| Files.LoadTpmContextFile | lib/files.c:244-321 | the versioned record is decoded; without a header the legacy raw read is taken from the start, or on a pipe from where the header read stopped; a bad version or blob size fails |
| Files.ReadContextFields | lib/files.c:271-317 | the fields after the header are exactly those DecodeContext finds |
| Files.ReadIdentity | lib/files.c:278-295 | hierarchy, savedHandle and sequence are read big-endian in that order |
| Files.ReadBytesFromFile | lib/files.c:75-105 | a stream that cannot be sized, or data longer than *size, is refused; on success the buffer holds the data and *size is its length |
| Files.LoadBytesFromBuffer | lib/files.c:631-643 | with an input buffer, success iff its length equals *size, and then exactly those bytes are copied |
| CheckQuote.MessageFromFile | tools/misc/tpm2_checkquote.c:120-146 | a missing, empty or oversized message file gives no message; otherwise the file's bytes |
| CheckQuote.PcrFileWith | tools/misc/tpm2_checkquote.c:182-194 | a count above the PCR array length is refused before any digest is read; an accepted file has that many digests after the selection |
| CheckQuote.PcrFileOf | tools/misc/tpm2_checkquote.c:148-204 | corrected reading with a UINT32 count: a count above the PCR array length is rejected whatever follows it; an accepted file holds at most that many digests. As written see PcrFileAsWritten |
| CheckQuote.PcrFileRoundTrip | tools/misc/tpm2_checkquote.c:170-194 | a file of a selection, its digest count and that many equal-sized digests reads back as exactly that selection and those digests |
| CheckQuote.PcrsFromFile | tools/misc/tpm2_checkquote.c:148-204 | the digest-reading loop gives the same result as PcrFileOf |
| CheckQuote.PcrCountHalves | tools/misc/tpm2_checkquote.c:177 | the 4 bytes read fill the high half of the 8-byte size_t count on a big-endian host and the low half on a little-endian one, the stale bytes the other |
| CheckQuote.PcrFileAsWritten | tools/misc/tpm2_checkquote.c:177-194 | the file read with the size_t count of an uninitialised local; an accepted file still holds at most TPM2_MAX_PCRS digests |
| CheckQuote.BigEndianCountRejected | tools/misc/tpm2_checkquote.c:177-186 | on a big-endian host a well-formed file with a non-zero count is refused whatever the stale half holds, while the UINT32 reading accepts it |
| CheckQuote.LittleEndianZeroedAgrees | tools/misc/tpm2_checkquote.c:177-186 | on a little-endian host with a zeroed stale half, the code as written reads the same file as the UINT32 reading |
| CheckQuote.VerifySigCtx.constructor | tools/misc/tpm2_checkquote.c:46-54 | no flags, TPM2_ALG_ERROR format, SHA1, every TPM2B at full buffer size |
| CheckQuote.VerifySigCtx.Check | tools/misc/tpm2_checkquote.c:56-118 | the verdict is Verified only when the key loads, the scheme is RSASSA, the nonce matches under -q and the PCR digest under -f; no key path gives KeyUnavailable |
| CheckQuote.VerifySigCtx.CheckOrder | tools/misc/tpm2_checkquote.c:56-118 | a non-RSASSA scheme is always refused; a nonce or PCR failure implies the signature passed; a PCR failure implies the nonce passed |
| CheckQuote.VerifySigCtx.VerifySignature | tools/misc/tpm2_checkquote.c:56-118 | true exactly when the key loads, the scheme is RSASSA, RSA_verify accepts, the nonce matches if -q was given and the PCR digest matches if -f was given |
| CheckQuote.VerifySigCtx.OnOption | tools/misc/tpm2_checkquote.c:284-334 | each option sets its field and flag and leaves every other option's field and flag, the signature and the digests as they were; -g and -F fail on an unknown algorithm; -q hex-decodes into extraData or fails |
| CheckQuote.VerifySigCtx.Init | tools/misc/tpm2_checkquote.c:206-282 | an option error unless key, signature, message and hash algorithm were given; success iff every load, parse and hash succeeds, with the resulting digests, each within its buffer and quoteHash and quoteExtraData keeping their 64 and 66 bytes |
| CheckQuote.VerifySigCtx.Process | tools/misc/tpm2_checkquote.c:228-276 | the steps of init after loading the message, in the code's order |
| CheckQuote.VerifySigCtx.LoadPcrs | tools/misc/tpm2_checkquote.c:246-260 | with -f, the PCR file is read, hashed and printed, and the hash becomes pcrHash |
| CheckQuote.VerifySigCtx.ParseAndHash | tools/misc/tpm2_checkquote.c:262-276 | the quote's digest and nonce come from the parser with the 64-byte TPM2B_DIGEST and 66-byte TPM2B_DATA capacities; the message hash covers the whole message |
| CheckQuote.VerifySigCtx.OnRun | tools/misc/tpm2_checkquote.c:355-373 | success exactly when init succeeds (InitSucceeds: the options given, the message, signature and PCR file loaded, the quote parsed, the message hashed) and verify_signature then passes (Check is Verified); a missing mandatory option is an option error; the options are left as they were |
| EncryptDecrypt.PadLength | tools/tpm2_encryptdecrypt.c:95 | the pad is 1..16, the padded length is a multiple of 16, and it is 16 exactly for aligned data |
| EncryptDecrypt.Pkcs7Pad | tools/tpm2_encryptdecrypt.c:97 | pad bytes, each equal to the pad |
| EncryptDecrypt.StripPad | tools/tpm2_encryptdecrypt.c:86-127 | removing the padding of padded data gives the data back |
| EncryptDecrypt.EncryptDecryptCtx.constructor | tools/tpm2_encryptdecrypt.c:42-47 | TPM2_ALG_NULL mode, no input, padding off, encrypting, no IV paths |
| EncryptDecrypt.EncryptDecryptCtx.EvaluatePkcs7 | tools/tpm2_encryptdecrypt.c:56-84 | padding is handled only with the option on and in the direction asked; never in the NULL or CFB default mode, nor for an empty or non-final chunk |
| EncryptDecrypt.EncryptDecryptCtx.AppendPkcs7Padding | tools/tpm2_encryptdecrypt.c:86-106 | with padding due, pad copies of the pad are written after the input; a short chunk and remaining grow by the pad, a full block only remaining |
| EncryptDecrypt.EncryptDecryptCtx.StripPkcs7Padding | tools/tpm2_encryptdecrypt.c:108-127 | corrected strip: with stripping due, the output loses as many bytes as its last byte says; otherwise it is unchanged. The code as written reads the pad at `last_block_length - 1`; see StripAsWritten |
| EncryptDecrypt.SplitIv | tools/tpm2_encryptdecrypt.c:229-241 | the text before the first ':' and, if there is one, the text after it |
| EncryptDecrypt.SplitIvFindsColon | tools/tpm2_encryptdecrypt.c:233-240 | an output path appears exactly when the value holds a ':' |
| EncryptDecrypt.EncryptDecryptCtx.ParseIv | tools/tpm2_encryptdecrypt.c:229-241 | the input IV path is the text before the first ':', the output path the text after it when there is one |
| EncryptDecrypt.EncryptDecryptCtx.Setup | tools/tpm2_encryptdecrypt.c:243-293 | corrected setup: an IV file must exist and be 16 bytes, else setup fails; a NULL mode takes the key's mode, or CFB when that is NULL too. The code as written reports success on an IV error; see SetupAsWritten |
| EncryptDecrypt.EncryptDecryptCtx.NextChunk | tools/tpm2_encryptdecrypt.c:168-178 | the chunk is at most TPM2_MAX_DIGEST_BUFFER, padding is appended at most once, and the chunk is the next slice of the padded input |
| EncryptDecrypt.EncryptDecryptCtx.Transform | tools/tpm2_encryptdecrypt.c:180-199 | fails iff the TPM call fails; carries the returned IV outside ECB and strips the last decrypted chunk |
| EncryptDecrypt.EncryptDecryptCtx.Transformed | tools/tpm2_encryptdecrypt.c:180-199 | one chunk extends the IV chain by one TPM call, and its output extends what was written |
| EncryptDecrypt.EncryptDecryptCtx.Step | tools/tpm2_encryptdecrypt.c:168-208 | one loop pass keeps the invariant: the chunks sent so far are the next slices of the input, chained through the TPM, with their outputs written |
| EncryptDecrypt.EncryptDecryptCtx.StepDone | tools/tpm2_encryptdecrypt.c:184-208 | the loop bookkeeping after one TPM call, whether it succeeded or failed |
| EncryptDecrypt.EncryptDecryptCtx.Run | tools/tpm2_encryptdecrypt.c:129-227 | the chunks sent are a prefix of SendOrder of the input (min(remaining, TPM2_MAX_DIGEST_BUFFER) cuts, the padding joined to a short last chunk or sent as a block of its own), all of it on success; they concatenate to the input plus PKCS#7 padding; the output is the TPM outputs in order, the last stripped on decrypt; the final IV is the chain's; failure iff a TPM call failed |
| EncryptDecrypt.EncryptDecryptCtx.Pump | tools/tpm2_encryptdecrypt.c:165-198 | the while loop: the input stays in place; the chunks sent are a prefix of SendOrder, all of it when every TPM call succeeded, and then the output and IV are the chain's; otherwise the chain failed on the last chunk sent |
| EncryptDecrypt.Chunks | tools/tpm2_encryptdecrypt.c:165-168 | the cut at min(remaining, TPM2_MAX_DIGEST_BUFFER): the chunks concatenate to the data, none is empty or longer than TPM2_MAX_DIGEST_BUFFER, and all but the last are full |
| EncryptDecrypt.ChunksUnique | tools/tpm2_encryptdecrypt.c:165-168 | any split into non-empty chunks of at most TPM2_MAX_DIGEST_BUFFER bytes, all full but the last, is the cut of its concatenation |
| EncryptDecrypt.ChunksPrefix | tools/tpm2_encryptdecrypt.c:165-198 | the cut of a prefix that ends on a chunk boundary is a prefix of the cut |
| EncryptDecrypt.SendOrder | tools/tpm2_encryptdecrypt.c:94-104 | the chunks for the input with or without padding: they concatenate to the input followed by its PKCS#7 padding when padding is on, each non-empty and at most TPM2_MAX_DIGEST_BUFFER |
| EncryptDecrypt.EncryptDecryptCtx.ChainStart | tools/tpm2_encryptdecrypt.c:161-167 | the first chunk gets no IV in ECB and the starting IV otherwise |
| EncryptDecrypt.AppendOverrunsAsWritten | tools/tpm2_encryptdecrypt.c:97 | padding an input of 65520 bytes or more ends one byte past the tool's buffer |
| EncryptDecrypt.AppendFits | tools/tpm2_encryptdecrypt.c:97 | with one extra block of room, the padding of every accepted input fits |
| EncryptDecrypt.StripAsWritten | tools/tpm2_encryptdecrypt.c:117-126 | the pad value is read at index last_block_length - 1 and subtracted from the 16-bit size |
| EncryptDecrypt.StripAsWrittenMissesPad | tools/tpm2_encryptdecrypt.c:117-126 | for 20 zero bytes padded to 32, byte 15, a data byte, is taken as the pad value (0 for this input, so nothing is stripped), while StripPkcs7 recovers the 20 bytes |
| EncryptDecrypt.StripAsWrittenReadsData | tools/tpm2_encryptdecrypt.c:117-126 | for any padded output of at least 16 data bytes, byte 15, a data byte, is taken as the pad value, and the size left is the data length only when that byte equals the pad length; StripPkcs7 recovers the data |
| EncryptDecrypt.SetupAsWritten | tools/tpm2_encryptdecrypt.c:246-261 | an IV error returns tool_rc_general_error from a bool function, which reads as success |
| EncryptDecrypt.SetupAsWrittenAcceptsShortIv | tools/tpm2_encryptdecrypt.c:253-256 | a 15-byte IV file gives success with the mode left at NULL |
| EncryptDecrypt.IvSaveAsWritten | tools/tpm2_encryptdecrypt.c:213-214 | with an output IV path and no final IV, iv_in is dereferenced while NULL |
| EncryptDecrypt.EcbIvOutDereferencesNull | tools/tpm2_encryptdecrypt.c:165-214 | in ECB, every successful run with an output IV path reaches the NULL dereference |
| EncryptDecrypt.IvSaveOf | tools/tpm2_encryptdecrypt.c:213-214 | the IV is saved exactly when a path was given and an IV exists |
| EncryptDecrypt.ChainedIvPresent | tools/tpm2_encryptdecrypt.c:192-195 | outside ECB, a run always ends with an IV to save |
| ClearControl.Operation | tools/tpm2_clearcontrol.c:35-72 | only a single argument is accepted; the value is 0 or 1, and a numeral argument's value is its uint32 conversion |
| ClearControl.OperationSpellings | tools/tpm2_clearcontrol.c:47-69 | "s" and the numerals of 1 set, "c" and the numerals of 0 clear, other numbers are refused |
| ClearControl.ClearControlCtx.constructor | tools/tpm2_clearcontrol.c:20-23 | the platform hierarchy and CLEAR |
| ClearControl.ClearControlCtx.OnArg | tools/tpm2_clearcontrol.c:35-72 | accepts exactly the arguments Operation accepts and stores that value; a refused argument leaves disable_clear unchanged |
| ClearControl.ClearControlCtx.OnOption | tools/tpm2_clearcontrol.c:74-86 | -C sets the hierarchy, -P the auth; never fails |
| ClearControl.ClearControlCtx.OnRun | tools/tpm2_clearcontrol.c:101-121 | a failed auth load stops the run; CLEAR with the lockout handle is rejected exactly when asked; otherwise the command goes out with the loaded handle |
| FlushContext.PropertyName | tools/tpm2_flushcontext.c:18-30 | "transient", "loaded session" or "saved session" exactly for those handle ranges, "invalid" for every other range |
| FlushContext.FlushContextsTpm2 | tools/tpm2_flushcontext.c:32-56 | success iff every handle translates and flushes; otherwise the first failing index, every earlier handle flushed, no later one tried |
| FlushContext.FlushContextCtx.constructor | tools/tpm2_flushcontext.c:16 | the zeroed static context |
| FlushContext.FlushContextCtx.OnOption | tools/tpm2_flushcontext.c:74-97 | a second option is refused; -t, -l, -s select the first handle of the transient, loaded-session and saved-session ranges |
| FlushContext.FlushContextCtx.OnArg | tools/tpm2_flushcontext.c:99-109 | an argument after an option is refused; otherwise the first argument names the context |
| FlushContext.FlushContextCtx.Plan | tools/tpm2_flushcontext.c:125-167 | a selected range wins; otherwise a numeral is a handle to flush, and anything else is a session file |

## Left out

- The host byte order is a parameter. `tpm2_util_is_big_endian` probes memory (lib/tpm2_util.c:324-333), and that is not modelled.
- Real file I/O is not modelled. This covers `fopen`, `fseek`, `ftell`, `files_get_file_size`, `files_save_bytes_to_file`, `files_does_file_exist` and the stdin branch of `files_load_bytes_from_buffer_or_file_or_stdin`. File contents are a map from path to bytes, or a `Stream`.
- The EINTR retry loops of `readx` and `writex` are not modelled: a read or write is all-or-nothing.
- The legacy raw-struct context load and the raw `fread`s of the selection and digests in `pcrs_from_file` depend on C struct layout. They are whole-byte-sequence reads, and the PCR file's selection and digests are kept as raw bytes.
- CheckQuote.PcrFileOf and CheckQuote.PcrsFromFile read the digest count as a UINT32 in host order, the corrected reading. The 8-byte `size_t` count with its stale half is `PcrFileAsWritten`, under Findings.
- `strtoul` details are not modelled: leading whitespace, sign and `errno`. Only digit strings with the base-0 prefixes are.
- Printing is not modelled: YAML, `tpm2_util_hexdump` to stdout, `print_tpm2b` and logging. `tpm2_util_hexdump2` is modelled as the string it prints.
- Foreign code is modelled as function parameters whose contents are not modelled: OpenSSL (RSA_verify, hashing, PCR-bank hashing, the `calc_unique` digester), signature loading, algorithm-name parsing and `pcr_print_pcr_struct`.
- ESYS and TPM calls are parameters too. These cover `tpm2_encryptdecrypt`, `Esys_FlushContext`, the TPM-to-ESYS handle translation, capability queries, session restore and close, and `tpm2_util_object_load_auth`. lib/object.c is not part of this model.
- `FlushContext.FlushContextsTpm2`: the TPM's answer to a flush is a function of the ESYS handle, so a TPM whose answer depends on earlier flushes is not captured. `tool_rc_from_tpm` is kept as the raw response code.
- `FlushContext.FlushContextCtx.Plan` chooses what `tpm2_tool_onrun` does but does not perform it. The capability listing, `flush_contexts_tr` and the session close are not modelled.
- `EncryptDecrypt.EncryptDecryptCtx.Run` does not model:
  - the output file opening;
  - a failing `files_write_bytes` for a chunk;
  - the session handle lookup;
  - the fallback from EncryptDecrypt2 to EncryptDecrypt.

  Only a failing TPM call stops the modelled loop.
- The rest of `tpm2_encryptdecrypt` is not modelled: `on_option`, `on_args`, `readpub` and `tpm2_tool_onrun`.
- `EncryptDecrypt.EncryptDecryptCtx.Run` uses the corrected padding and stripping. The as-written behaviour is under Findings.
- EncryptDecrypt.EncryptDecryptCtx.StripPkcs7Padding models the corrected strip, which reads the pad value from the output's last byte. `StripAsWritten` models the code's read at `last_block_length - 1`.
- EncryptDecrypt.EncryptDecryptCtx.Setup models the corrected setup, where an IV error fails. `SetupAsWritten` models the code's `tool_rc_general_error` return from a `bool` function.
- EncryptDecrypt.EncryptDecryptCtx.AppendPkcs7Padding writes into an input buffer of UINT16_MAX + 16 bytes (`INPUT_CAPACITY`), one block more than the tool's UINT16_MAX-byte `input_data`. The model therefore does not capture the one-byte overrun, which `AppendOverrunsAsWritten` states instead.
- Quote.GetDigestFromQuote, Quote.ReadExtraData and Quote.ReadDigest model the reader with a capacity check before each payload copy, refusing an extraData longer than its 66-byte TPM2B_DATA or a digest longer than its 64-byte TPM2B_DIGEST. The code has no such check. Its `memcpy` at lib/tpm2_util.c:72 and :140 runs past the buffer into the neighbouring fields of the caller's context (tools/misc/tpm2_checkquote.c:32-36), and that overwrite is not modelled. `ExtraDataOverrunsAsWritten` and `DigestOverrunsAsWritten` state that the code accepts such quotes, under Findings.
- `Util.CalcUnique` requires that key and seed together fit UINT16_MAX bytes, so the wrap of the 16-bit `buf.size` in lib/tpm2_util.c:609-631 is not modelled. The key is a `TPM2B_PRIVATE_VENDOR_SPECIFIC` and the seed a `TPM2B_DIGEST`; their buffers together hold far fewer than UINT16_MAX bytes, so the wrap cannot occur for well-formed inputs.
- The label-file branch of `tpm2_util_get_label` reads from the file system and is not modelled.
- The error-message assembly of `tpm2_util_handle_from_optarg` is not modelled, and neither is `tpm2_util_getenv`.
- `tpm2_util_sys_handle_to_esys_handle` and `tpm2_util_esys_handle_to_sys_handle` are ESYS calls, so they are not modelled.
- `ClearControl.ClearControlCtx.OnRun` takes the handle that the authorisation load produced as an input. The link from the default "p" to the platform handle is made by lib/object.c, which is not part of this model.

## Findings

| source | as written | input that shows it | evidently intended | confidence | as-written member | corrected member |
|---|---|---|---|---|---|---|
| tools/misc/tpm2_checkquote.c:177-182 | `fread` puts 4 bytes into `pcrs->count`, a `size_t` of 8 bytes in a `tpm2_pcrs` local that is never initialised (pcr.h:19-22, tpm2_checkquote.c:217) | a big-endian host and a PCR file with a count of 1: the count becomes 2^32 plus the stale half, above 32, and the file is refused | the count is a UINT32 value of 4 bytes | not executed | CheckQuote.BigEndianCountRejected | CheckQuote.PcrFileRoundTrip |
| lib/tpm2_util.c:72 | `memcpy` copies `extraData->size` bytes, read from the quote, into a TPM2B_DATA buffer of 66 bytes; the only guard is against the end of the quote | a well-formed quote with 67 bytes of extraData and a 1-byte digest: the reader accepts it and the copy writes one byte past the buffer, into `ctx.extraData` in tpm2_checkquote | refuse an extraData longer than the buffer before the copy | not executed | Quote.ExtraDataOverrunsAsWritten | Quote.WithinFits |
| lib/tpm2_util.c:140 | `memcpy` copies `digest->size` bytes into a TPM2B_DIGEST buffer of 64 bytes; the only guard is against the end of the quote | a well-formed quote with a 65-byte digest: the reader accepts it and the copy writes one byte past the buffer, into `ctx.quoteExtraData` in tpm2_checkquote | refuse a digest longer than the buffer before the copy | not executed | Quote.DigestOverrunsAsWritten | Quote.WithinFits |
| tools/tpm2_encryptdecrypt.c:97 | the PKCS#7 padding is written with a memset starting at `input_data[input_data_size]`, inside a buffer of UINT16_MAX bytes | encryption with padding (-e, CBC) of an input of 65520 bytes or more: the padding ends at index 65535, one past the buffer | room for the input plus one block of padding | not executed | EncryptDecrypt.AppendOverrunsAsWritten | EncryptDecrypt.AppendFits |
| tools/tpm2_encryptdecrypt.c:117-126 | the pad value is read at `buffer[last_block_length - 1]`, an index inside the first block, not at the output's last byte | decrypting the padded encryption of 20 zero bytes (32 bytes out): byte 15, a data byte, is taken as the pad value (0 for this input, so nothing is stripped); for any data of 16 bytes or more, byte 15 is the value subtracted | the pad value is the last byte, `buffer[size - 1]`, and that many bytes are removed | not executed | EncryptDecrypt.StripAsWrittenMissesPad | EncryptDecrypt.StripPad |
| tools/tpm2_encryptdecrypt.c:246-261 | the IV errors return `tool_rc_general_error` (non-zero) from a `bool` function, so the caller sees success | an IV file of 15 bytes: setup succeeds, the mode stays TPM2_ALG_NULL and the all-zero IV is used | setup fails on an unreadable or wrongly sized IV file | not executed | EncryptDecrypt.SetupAsWrittenAcceptsShortIv | EncryptDecrypt.EncryptDecryptCtx.Setup |
| tools/tpm2_encryptdecrypt.c:165-214 | in ECB `iv_in` is set to NULL, yet with an output IV path `iv_in->buffer` is saved after the loop | ECB mode with `-t in:out`: every successful run dereferences NULL | skip the IV save when there is no IV | not executed | EncryptDecrypt.EcbIvOutDereferencesNull | EncryptDecrypt.IvSaveOf |
