/**
 * The tpm2-tools file formats of lib/files.c: big-endian integers on a
 * stream, the 0xBADCC0DE header, and the on-disk form of a saved TPM
 * context.  A FILE is a byte sequence with a position; a stream opened
 * read-only rejects writes, and a pipe cannot be sized.
 */
module Files {
  import opened Wrappers
  import opened Bytes
  import opened Endian

  /** An open FILE: its contents and the current position. */
  class Stream {
    var data: seq<u8>
    var pos: nat
    const writable: bool
    const seekable: bool

    ghost predicate Valid()
      reads this
    {
      pos <= |data|
    }

    constructor (content: seq<u8>, writable: bool, seekable: bool)
      ensures Valid()
      ensures data == content && pos == 0
      ensures this.writable == writable && this.seekable == seekable
    {
      data := content;
      pos := 0;
      this.writable := writable;
      this.seekable := seekable;
    }

    /**
     * readx: n bytes from the position.  A read past the end of the file
     * delivers what is left, leaves the position at the end and fails.
     */
    method ReadX(n: nat) returns (ok: bool, bytes: seq<u8>)
      requires Valid()
      modifies this
      ensures Valid() && data == old(data)
      ensures ok == (old(pos) + n <= |data|)
      ensures ok ==> bytes == data[old(pos)..old(pos) + n] && pos == old(pos) + n
      ensures !ok ==> bytes == data[old(pos)..] && pos == |data|
    {
      if pos + n <= |data| {
        ok, bytes := true, data[pos..pos + n];
        pos := pos + n;
      } else {
        ok, bytes := false, data[pos..];
        pos := |data|;
      }
    }

    /** writex: the bytes replace or extend the file at the position. */
    method WriteX(bytes: seq<u8>) returns (ok: bool)
      requires Valid()
      modifies this
      ensures Valid()
      ensures ok == writable
      ensures ok ==> data == Put(old(data), old(pos), bytes) && pos == old(pos) + |bytes|
      ensures !ok ==> data == old(data) && pos == old(pos)
    {
      if !writable {
        return false;
      }
      data := Put(data, pos, bytes);
      pos := pos + |bytes|;
      ok := true;
    }

    /**
     * fseek(f, -n, SEEK_CUR): fails on a stream that cannot seek (a pipe)
     * and rather than move before the start.
     */
    method SeekBack(n: nat) returns (ok: bool)
      requires Valid()
      modifies this
      ensures Valid() && data == old(data)
      ensures ok == (seekable && n <= old(pos))
      ensures pos == if ok then old(pos) - n else old(pos)
    {
      if !seekable || n > pos {
        return false;
      }
      pos := pos - n;
      ok := true;
    }

    /** rewind(f): back to the start, except on a stream that cannot seek. */
    method Rewind()
      requires Valid()
      modifies this
      ensures Valid() && data == old(data)
      ensures pos == if seekable then 0 else old(pos)
    {
      if seekable {
        pos := 0;
      }
    }
  }

  /** The file after the bytes are written at position p. */
  function Put(d: seq<u8>, p: nat, bytes: seq<u8>): (r: seq<u8>)
    requires p <= |d|
    ensures |r| == if p + |bytes| < |d| then |d| else p + |bytes|
    ensures r[..p] == d[..p]
    ensures r[p..p + |bytes|] == bytes
    ensures forall k :: p + |bytes| <= k < |d| ==> r[k] == d[k]
  {
    d[..p] + bytes + (if p + |bytes| < |d| then d[p + |bytes|..] else [])
  }

  /** Two writes in a row are one write of both. */
  lemma PutPut(d: seq<u8>, p: nat, a: seq<u8>, b: seq<u8>)
    requires p <= |d|
    ensures Put(Put(d, p, a), p + |a|, b) == Put(d, p, a + b)
  {
    var r := Put(Put(d, p, a), p + |a|, b);
    var s := Put(d, p, a + b);
    assert |r| == |s|;
    forall k | 0 <= k < |r|
      ensures r[k] == s[k]
    {
      if k < p {
        assert r[k] == r[..p][k] && s[k] == s[..p][k];
      } else if k < p + |a| {
        assert r[k] == Put(d, p, a)[k] && Put(d, p, a)[k] == Put(d, p, a)[p..p + |a|][k - p];
        assert s[k] == s[p..p + |a| + |b|][k - p];
      } else if k < p + |a| + |b| {
        assert r[k] == r[p + |a|..p + |a| + |b|][k - p - |a|];
        assert s[k] == s[p..p + |a| + |b|][k - p];
      }
    }
  }

  /** The n-byte big-endian field at offset i, with its bound. */
  function Field(d: seq<u8>, i: nat, n: nat): (r: nat)
    requires i + n <= |d|
    ensures r < Pow256(n)
    ensures ToBE(r, n) == d[i..i + n]
  {
    ToFromBE(d[i..i + n]);
    FromBE(d[i..i + n])
  }

  // ---------------------------------------------------------------------
  // files_read_16/32/64 and files_write_16/32/64.

  /**
   * FILE_WRITE: the value converted to big-endian in memory and its bytes
   * written.  A NULL stream fails.
   */
  method WriteUint(host: ByteOrder, out: Stream?, data: nat, size: nat) returns (ok: bool)
    requires data < Pow256(size)
    requires out != null ==> out.Valid()
    modifies out
    ensures out != null ==> out.Valid()
    ensures ok == (out != null && out.writable)
    ensures ok ==> out.data == Put(old(out.data), old(out.pos), ToBE(data, size)) && out.pos == old(out.pos) + size
    ensures !ok && out != null ==> out.data == old(out.data) && out.pos == old(out.pos)
  {
    if out == null {
      return false;
    }
    var wire := StoreNetworkOrder(host, data, size);
    ok := out.WriteX(wire);
  }

  /**
   * FILE_READ: size bytes read into the variable and converted from
   * big-endian.  A NULL stream fails; so does a stream without size bytes
   * left, which is then at its end.
   */
  method ReadUint(host: ByteOrder, f: Stream?, size: nat) returns (ok: bool, value: nat)
    requires f != null ==> f.Valid()
    modifies f
    ensures f != null ==> f.Valid() && f.data == old(f.data)
    ensures ok == (f != null && old(f.pos) + size <= |f.data|)
    ensures ok ==> value == Field(f.data, old(f.pos), size) && f.pos == old(f.pos) + size
    ensures !ok && f != null ==> f.pos == |f.data|
  {
    if f == null {
      return false, 0;
    }
    var bytes;
    ok, bytes := f.ReadX(size);
    value := 0;
    if ok {
      value := LoadNetworkOrder(host, bytes);
    }
  }

  method Write16(host: ByteOrder, out: Stream?, data: u16) returns (ok: bool)
    requires out != null ==> out.Valid()
    modifies out
    ensures out != null ==> out.Valid()
    ensures ok == (out != null && out.writable)
    ensures ok ==> out.data == Put(old(out.data), old(out.pos), ToBE(data, 2)) && out.pos == old(out.pos) + 2
    ensures !ok && out != null ==> out.data == old(out.data) && out.pos == old(out.pos)
  {
    ok := WriteUint(host, out, data, 2);
  }

  method Write32(host: ByteOrder, out: Stream?, data: u32) returns (ok: bool)
    requires out != null ==> out.Valid()
    modifies out
    ensures out != null ==> out.Valid()
    ensures ok == (out != null && out.writable)
    ensures ok ==> out.data == Put(old(out.data), old(out.pos), ToBE(data, 4)) && out.pos == old(out.pos) + 4
    ensures !ok && out != null ==> out.data == old(out.data) && out.pos == old(out.pos)
  {
    ok := WriteUint(host, out, data, 4);
  }

  method Write64(host: ByteOrder, out: Stream?, data: u64) returns (ok: bool)
    requires out != null ==> out.Valid()
    modifies out
    ensures out != null ==> out.Valid()
    ensures ok == (out != null && out.writable)
    ensures ok ==> out.data == Put(old(out.data), old(out.pos), ToBE(data, 8)) && out.pos == old(out.pos) + 8
    ensures !ok && out != null ==> out.data == old(out.data) && out.pos == old(out.pos)
  {
    assert Pow256(8) == 0x1_0000_0000_0000_0000;
    ok := WriteUint(host, out, data, 8);
  }

  method Read16(host: ByteOrder, f: Stream?) returns (ok: bool, value: u16)
    requires f != null ==> f.Valid()
    modifies f
    ensures f != null ==> f.Valid() && f.data == old(f.data)
    ensures ok == (f != null && old(f.pos) + 2 <= |f.data|)
    ensures ok ==> ToBE(value, 2) == f.data[old(f.pos)..old(f.pos) + 2] && f.pos == old(f.pos) + 2
    ensures !ok && f != null ==> f.pos == |f.data|
  {
    var v;
    ok, v := ReadUint(host, f, 2);
    value := if ok then v else 0;
  }

  method Read32(host: ByteOrder, f: Stream?) returns (ok: bool, value: u32)
    requires f != null ==> f.Valid()
    modifies f
    ensures f != null ==> f.Valid() && f.data == old(f.data)
    ensures ok == (f != null && old(f.pos) + 4 <= |f.data|)
    ensures ok ==> ToBE(value, 4) == f.data[old(f.pos)..old(f.pos) + 4] && f.pos == old(f.pos) + 4
    ensures !ok && f != null ==> f.pos == |f.data|
  {
    var v;
    ok, v := ReadUint(host, f, 4);
    value := if ok then v else 0;
  }

  method Read64(host: ByteOrder, f: Stream?) returns (ok: bool, value: u64)
    requires f != null ==> f.Valid()
    modifies f
    ensures f != null ==> f.Valid() && f.data == old(f.data)
    ensures ok == (f != null && old(f.pos) + 8 <= |f.data|)
    ensures ok ==> ToBE(value, 8) == f.data[old(f.pos)..old(f.pos) + 8] && f.pos == old(f.pos) + 8
    ensures !ok && f != null ==> f.pos == |f.data|
  {
    assert Pow256(8) == 0x1_0000_0000_0000_0000;
    var v;
    ok, v := ReadUint(host, f, 8);
    value := if ok then v else 0;
  }

  /** A value written at a position is the value read back from there. */
  lemma WriteThenRead(d: seq<u8>, p: nat, x: nat, n: nat)
    requires p <= |d| && x < Pow256(n)
    ensures p + n <= |Put(d, p, ToBE(x, n))|
    ensures Field(Put(d, p, ToBE(x, n)), p, n) == x
  {
    var r := Put(d, p, ToBE(x, n));
    ToBEInjective(Field(r, p, n), x, n);
  }

  // ---------------------------------------------------------------------
  // The file header.

  const MAGIC: u32 := 0xBADC_C0DE

  /** The header bytes: the magic then the version, both big-endian. */
  function Header(version: u32): (r: seq<u8>)
    ensures |r| == 8
  {
    ToBE(MAGIC, 4) + ToBE(version, 4)
  }

  predicate MagicAt(d: seq<u8>, p: nat)
  {
    p + 4 <= |d| && Field(d, p, 4) == MAGIC
  }

  /** files_write_header. */
  method WriteHeader(host: ByteOrder, out: Stream?, version: u32) returns (ok: bool)
    requires out != null ==> out.Valid()
    modifies out
    ensures out != null ==> out.Valid()
    ensures ok == (out != null && out.writable)
    ensures ok ==> out.data == Put(old(out.data), old(out.pos), Header(version)) && out.pos == old(out.pos) + 8
    ensures !ok && out != null ==> out.data == old(out.data) && out.pos == old(out.pos)
  {
    if out == null {
      return false;
    }
    ok := Write32(host, out, MAGIC);
    if !ok {
      return;
    }
    ok := Write32(host, out, version);
    PutPut(old(out.data), old(out.pos), ToBE(MAGIC, 4), ToBE(version, 4));
  }

  /**
   * check_magic: reads a U32 and compares it with MAGIC.  With seekReset
   * the position is moved back over it, so that, whenever four bytes were
   * there to read, a seekable stream is where it was whether or not they
   * matched; on a stream that cannot seek the failed fseek makes the
   * check fail.
   */
  method CheckMagic(host: ByteOrder, f: Stream?, seekReset: bool) returns (matched: bool)
    requires f != null ==> f.Valid()
    modifies f
    ensures f != null ==> f.Valid() && f.data == old(f.data)
    ensures matched == (f != null && MagicAt(f.data, old(f.pos)) && (seekReset ==> f.seekable))
    ensures f != null && old(f.pos) + 4 <= |f.data| ==>
      f.pos == if seekReset && f.seekable then old(f.pos) else old(f.pos) + 4
    ensures f != null && old(f.pos) + 4 > |f.data| ==> f.pos == |f.data|
  {
    if f == null {
      return false;
    }
    var ok, magic := Read32(host, f);
    if !ok {
      return false;
    }
    ToBEInjective(magic, Field(f.data, old(f.pos), 4), 4);
    matched := magic == MAGIC;
    if seekReset {
      var sought := f.SeekBack(4);
      if !sought {
        return false;
      }
    }
  }

  /** files_read_header: the magic must match; the version follows it. */
  method ReadHeader(host: ByteOrder, f: Stream?) returns (ok: bool, version: u32)
    requires f != null ==> f.Valid()
    modifies f
    ensures f != null ==> f.Valid() && f.data == old(f.data)
    ensures ok == (f != null && MagicAt(f.data, old(f.pos)) && old(f.pos) + 8 <= |f.data|)
    ensures ok ==> version == Field(f.data, old(f.pos) + 4, 4) && f.pos == old(f.pos) + 8
    ensures f != null && !ok ==> f.pos == HeaderFailPos(f.data, old(f.pos))
  {
    if f == null {
      return false, 0;
    }
    ok := CheckMagic(host, f, false);
    if !ok {
      return false, 0;
    }
    ok, version := Read32(host, f);
    if ok {
      ToBEInjective(version, Field(f.data, old(f.pos) + 4, 4), 4);
    }
  }

  /**
   * Where a failed files_read_header leaves the stream: just past the four
   * bytes that were not MAGIC, or at the end when a read ran out.
   */
  function HeaderFailPos(d: seq<u8>, p: nat): (r: nat)
    requires p <= |d|
    ensures p <= r <= |d|
  {
    if p + 4 <= |d| && !MagicAt(d, p) then p + 4 else |d|
  }

  /** A written header is read back with its version. */
  lemma HeaderRoundTrip(d: seq<u8>, p: nat, version: u32)
    requires p <= |d|
    ensures MagicAt(Put(d, p, Header(version)), p)
    ensures p + 8 <= |Put(d, p, Header(version))|
    ensures Field(Put(d, p, Header(version)), p + 4, 4) == version
  {
    var r := Put(d, p, Header(version));
    assert r[p..p + 8] == Header(version);
    assert r[p..p + 4] == Header(version)[..4] == ToBE(MAGIC, 4);
    assert r[p + 4..p + 8] == Header(version)[4..] == ToBE(version, 4);
    ToBEInjective(Field(r, p, 4), MAGIC, 4);
    ToBEInjective(Field(r, p + 4, 4), version, 4);
  }

  // ---------------------------------------------------------------------
  // TPMS_CONTEXT on disk.

  const CONTEXT_VERSION: u32 := 1
  /** sizeof(TPM2B_CONTEXT_DATA.buffer), i.e. sizeof(TPMS_CONTEXT_DATA). */
  const CONTEXT_BLOB_CAPACITY: nat := 5188

  type ContextBlob = b: seq<u8> | |b| <= CONTEXT_BLOB_CAPACITY

  /** TPMS_CONTEXT, the blob being the value of its contextBlob. */
  datatype Context = Context(hierarchy: u32, savedHandle: u32, sequence: u64, blob: ContextBlob)

  /**
   * What files_save_context writes: the header with CONTEXT_VERSION, then
   * hierarchy, savedHandle, sequence, the blob size and the blob.
   */
  function ContextRecord(c: Context): (r: seq<u8>)
    ensures |r| == 26 + |c.blob|
  {
    assert Pow256(8) == 0x1_0000_0000_0000_0000;
    Header(CONTEXT_VERSION) + ToBE(c.hierarchy, 4) + ToBE(c.savedHandle, 4) + ToBE(c.sequence, 8)
      + ToBE(|c.blob|, 2) + c.blob
  }

  datatype LoadError = NoHeader | BadVersion(version: u32) | Truncated | BlobTooLarge(size: u16)

  /**
   * load_tpm_context_file's reading of the versioned format at position
   * p: the header must be there (else the file is taken for the legacy
   * format), the version must be CONTEXT_VERSION, and the blob size is
   * checked against the buffer before the blob is read.
   */
  function DecodeContext(d: seq<u8>, p: nat): (r: Result<Context, LoadError>)
    ensures r.Failure? && r.error.BadVersion? ==> r.error.version != CONTEXT_VERSION
    ensures r.Failure? && r.error.BlobTooLarge? ==> r.error.size > CONTEXT_BLOB_CAPACITY
    ensures r.Success? ==> p + |ContextRecord(r.value)| <= |d|
  {
    if !(MagicAt(d, p) && p + 8 <= |d|) then Failure(NoHeader)
    else if Field(d, p + 4, 4) != CONTEXT_VERSION then Failure(BadVersion(Field(d, p + 4, 4)))
    else if p + 26 > |d| then Failure(Truncated)
    else if Field(d, p + 24, 2) > CONTEXT_BLOB_CAPACITY then Failure(BlobTooLarge(Field(d, p + 24, 2)))
    else if p + 26 + Field(d, p + 24, 2) > |d| then Failure(Truncated)
    else
      assert Pow256(8) == 0x1_0000_0000_0000_0000;
      Success(Context(Field(d, p + 8, 4), Field(d, p + 12, 4), Field(d, p + 16, 8),
        d[p + 26..p + 26 + Field(d, p + 24, 2)]))
  }

  /** The pieces of a context record, at their offsets. */
  lemma RecordParts(c: Context)
    ensures var r := ContextRecord(c);
            && r[0..4] == ToBE(MAGIC, 4) && r[4..8] == ToBE(CONTEXT_VERSION, 4)
            && r[8..12] == ToBE(c.hierarchy, 4) && r[12..16] == ToBE(c.savedHandle, 4)
            && r[16..24] == ToBE(c.sequence, 8) && r[24..26] == ToBE(|c.blob|, 2)
            && r[26..26 + |c.blob|] == c.blob
  {
    SevenParts(ToBE(MAGIC, 4), ToBE(CONTEXT_VERSION, 4), ToBE(c.hierarchy, 4), ToBE(c.savedHandle, 4),
               ToBE(c.sequence, 8), ToBE(|c.blob|, 2), c.blob);
  }

  /** Seven pieces laid end to end, each found again at its offset. */
  lemma SevenParts(p0: seq<u8>, p1: seq<u8>, p2: seq<u8>, p3: seq<u8>, p4: seq<u8>, p5: seq<u8>, p6: seq<u8>)
    requires |p0| == |p1| == |p2| == |p3| == 4 && |p4| == 8 && |p5| == 2
    ensures var r := p0 + p1 + p2 + p3 + p4 + p5 + p6;
            && r[0..4] == p0 && r[4..8] == p1 && r[8..12] == p2 && r[12..16] == p3
            && r[16..24] == p4 && r[24..26] == p5 && r[26..26 + |p6|] == p6
  {
    var r := p0 + p1 + p2 + p3 + p4 + p5 + p6;
    assert forall k :: 0 <= k < 4 ==> r[k] == p0[k] && r[4 + k] == p1[k] && r[8 + k] == p2[k] && r[12 + k] == p3[k];
    assert forall k :: 0 <= k < 8 ==> r[16 + k] == p4[k];
    assert forall k :: 0 <= k < 2 ==> r[24 + k] == p5[k];
    assert forall k :: 0 <= k < |p6| ==> r[26 + k] == p6[k];
  }

  /** The slices of a context record. */
  lemma RecordSlices(c: Context, d: seq<u8>, p: nat)
    requires p + 26 + |c.blob| <= |d| && d[p..p + 26 + |c.blob|] == ContextRecord(c)
    ensures d[p..p + 4] == ToBE(MAGIC, 4)
    ensures d[p + 4..p + 8] == ToBE(CONTEXT_VERSION, 4)
    ensures d[p + 8..p + 12] == ToBE(c.hierarchy, 4)
    ensures d[p + 12..p + 16] == ToBE(c.savedHandle, 4)
    ensures d[p + 16..p + 24] == ToBE(c.sequence, 8)
    ensures d[p + 24..p + 26] == ToBE(|c.blob|, 2)
    ensures d[p + 26..p + 26 + |c.blob|] == c.blob
  {
    var n := 26 + |c.blob|;
    RecordParts(c);
    SubSlice(d, p, n, 0, 4);
    SubSlice(d, p, n, 4, 8);
    SubSlice(d, p, n, 8, 12);
    SubSlice(d, p, n, 12, 16);
    SubSlice(d, p, n, 16, 24);
    SubSlice(d, p, n, 24, 26);
    SubSlice(d, p, n, 26, n);
  }

  /** A record read where it lies gives back the context it was made from. */
  lemma {:induction false} DecodeRecord(c: Context, d: seq<u8>, p: nat)
    requires p + 26 + |c.blob| <= |d| && d[p..p + 26 + |c.blob|] == ContextRecord(c)
    ensures DecodeContext(d, p) == Success(c)
  {
    RecordFields(c, d, p);
    assert d[p + 26..p + 26 + Field(d, p + 24, 2)] == c.blob;
  }

  /** The fields of a context record read back as the context's own. */
  lemma RecordFields(c: Context, d: seq<u8>, p: nat)
    requires p + 26 + |c.blob| <= |d| && d[p..p + 26 + |c.blob|] == ContextRecord(c)
    ensures MagicAt(d, p) && Field(d, p + 4, 4) == CONTEXT_VERSION
    ensures Field(d, p + 8, 4) == c.hierarchy && Field(d, p + 12, 4) == c.savedHandle
    ensures Field(d, p + 16, 8) == c.sequence && Field(d, p + 24, 2) == |c.blob|
    ensures d[p + 26..p + 26 + |c.blob|] == c.blob
  {
    RecordSlices(c, d, p);
    assert Pow256(8) == 0x1_0000_0000_0000_0000;
    ToBEInjective(Field(d, p, 4), MAGIC, 4);
    ToBEInjective(Field(d, p + 4, 4), CONTEXT_VERSION, 4);
    ToBEInjective(Field(d, p + 8, 4), c.hierarchy, 4);
    ToBEInjective(Field(d, p + 12, 4), c.savedHandle, 4);
    ToBEInjective(Field(d, p + 16, 8), c.sequence, 8);
    ToBEInjective(Field(d, p + 24, 2), |c.blob|, 2);
  }

  /** Whatever is read as a context is exactly that context's record. */
  lemma {:induction false} DecodedIsRecord(d: seq<u8>, p: nat)
    requires DecodeContext(d, p).Success?
    ensures d[p..p + |ContextRecord(DecodeContext(d, p).value)|] == ContextRecord(DecodeContext(d, p).value)
  {
    var c := DecodeContext(d, p).value;
    var n := 26 + |c.blob|;
    assert d[p..p + 4] == ToBE(MAGIC, 4);
    assert d[p + 4..p + 8] == ToBE(CONTEXT_VERSION, 4);
    assert d[p + 8..p + 12] == ToBE(c.hierarchy, 4);
    assert d[p + 12..p + 16] == ToBE(c.savedHandle, 4);
    assert d[p + 16..p + 24] == ToBE(c.sequence, 8);
    assert d[p + 24..p + 26] == ToBE(|c.blob|, 2);
    JoinSlices(d, p, p + 4, p + 8);
    JoinSlices(d, p, p + 8, p + 12);
    JoinSlices(d, p, p + 12, p + 16);
    JoinSlices(d, p, p + 16, p + 24);
    JoinSlices(d, p, p + 24, p + 26);
    JoinSlices(d, p, p + 26, p + n);
  }

  /** A saved context, loaded from where it was written, is the same context. */
  lemma SaveThenLoad(c: Context, d: seq<u8>, p: nat)
    requires p <= |d|
    ensures DecodeContext(Put(d, p, ContextRecord(c)), p) == Success(c)
  {
    DecodeRecord(c, Put(d, p, ContextRecord(c)), p);
  }

  /**
   * files_save_context: the header and the fields in order, stopping at
   * the first write that fails.  Writes to a stream fail all together or
   * not at all, so the stream holds either the whole record or nothing.
   */
  method SaveContext(host: ByteOrder, c: Context, stream: Stream?) returns (ok: bool)
    requires stream != null ==> stream.Valid()
    modifies stream
    ensures stream != null ==> stream.Valid()
    ensures ok == (stream != null && stream.writable)
    ensures ok ==> (stream.data == Put(old(stream.data), old(stream.pos), ContextRecord(c))
      && stream.pos == old(stream.pos) + |ContextRecord(c)|)
    ensures !ok && stream != null ==> stream.data == old(stream.data) && stream.pos == old(stream.pos)
  {
    ok := WriteHeader(host, stream, CONTEXT_VERSION);
    if !ok {
      return;
    }
    ghost var d0, p0 := old(stream.data), old(stream.pos);
    ok := WriteFields(host, c, stream, d0, p0);
  }

  /** The part of files_save_context after the header. */
  method WriteFields(host: ByteOrder, c: Context, stream: Stream, ghost d0: seq<u8>, ghost p0: nat)
    returns (ok: bool)
    requires stream.Valid() && stream.writable && p0 <= |d0|
    requires stream.data == Put(d0, p0, Header(CONTEXT_VERSION)) && stream.pos == p0 + 8
    modifies stream
    ensures stream.Valid() && ok
    ensures stream.data == Put(d0, p0, ContextRecord(c)) && stream.pos == p0 + |ContextRecord(c)|
  {
    ghost var acc := Header(CONTEXT_VERSION);
    WriteStep(host, stream, c.hierarchy, 4, d0, p0, acc);
    acc := acc + ToBE(c.hierarchy, 4);
    WriteStep(host, stream, c.savedHandle, 4, d0, p0, acc);
    acc := acc + ToBE(c.savedHandle, 4);
    assert Pow256(8) == 0x1_0000_0000_0000_0000;
    WriteStep(host, stream, c.sequence, 8, d0, p0, acc);
    acc := acc + ToBE(c.sequence, 8);
    WriteStep(host, stream, |c.blob|, 2, d0, p0, acc);
    acc := acc + ToBE(|c.blob|, 2);
    ok := stream.WriteX(c.blob);
    PutPut(d0, p0, acc, c.blob);
    assert acc + c.blob == ContextRecord(c);
  }

  /** One files_write_<size> of files_save_context, extending what was written. */
  method WriteStep(host: ByteOrder, stream: Stream, x: nat, size: nat, ghost d0: seq<u8>, ghost p0: nat,
                   ghost acc: seq<u8>)
    requires x < Pow256(size) && p0 <= |d0|
    requires stream.Valid() && stream.writable
    requires stream.data == Put(d0, p0, acc) && stream.pos == p0 + |acc|
    modifies stream
    ensures stream.Valid()
    ensures stream.data == Put(d0, p0, acc + ToBE(x, size)) && stream.pos == p0 + |acc| + size
  {
    var ok := WriteUint(host, stream, x, size);
    PutPut(d0, p0, acc, ToBE(x, size));
  }

  /** What load_tpm_context_file filled in. */
  datatype Loaded = Versioned(context: Context) | Legacy(raw: seq<u8>) | NotLoaded

  /**
   * load_tpm_context_file.  Without a readable header the stream is
   * rewound and a raw TPMS_CONTEXT of legacySize bytes is read, from the
   * start of the file, or, when the stream cannot seek, from where the
   * header read stopped; otherwise the versioned record is read field by
   * field.
   */
  method LoadTpmContextFile(host: ByteOrder, f: Stream, legacySize: nat) returns (ok: bool, loaded: Loaded)
    requires f.Valid()
    modifies f
    ensures f.Valid() && f.data == old(f.data)
    ensures
      var r := DecodeContext(f.data, old(f.pos));
      && (r.Success? ==> ok && loaded == Versioned(r.value) && f.pos == old(f.pos) + |ContextRecord(r.value)|)
      && (r == Failure(NoHeader) ==>
        var start := if f.seekable then 0 else HeaderFailPos(f.data, old(f.pos));
        ok == (start + legacySize <= |f.data|) && (ok ==> loaded == Legacy(f.data[start..start + legacySize])))
      && (r.Failure? && r != Failure(NoHeader) ==> !ok)
  {
    ghost var d, p := f.data, f.pos;
    var version;
    ok, version := ReadHeader(host, f);
    if !ok {
      f.Rewind();
      var raw;
      ok, raw := f.ReadX(legacySize);
      loaded := if ok then Legacy(raw) else NotLoaded;
      return;
    }
    if version != CONTEXT_VERSION {
      return false, NotLoaded;
    }
    ok, loaded := ReadContextFields(host, f, d, p);
  }

  /** The fields of load_tpm_context_file after a CONTEXT_VERSION header. */
  method ReadContextFields(host: ByteOrder, f: Stream, ghost d: seq<u8>, ghost p: nat) returns (ok: bool, loaded: Loaded)
    requires f.Valid() && f.data == d && f.pos == p + 8
    requires MagicAt(d, p) && p + 8 <= |d| && Field(d, p + 4, 4) == CONTEXT_VERSION
    modifies f
    ensures f.Valid() && f.data == d
    ensures ok == DecodeContext(d, p).Success?
    ensures ok ==> loaded == Versioned(DecodeContext(d, p).value) && f.pos == p + |ContextRecord(DecodeContext(d, p).value)|
  {
    var hierarchy, savedHandle, sequence;
    ok, hierarchy, savedHandle, sequence := ReadIdentity(host, f, d, p);
    if !ok {
      return false, NotLoaded;
    }
    var size;
    ok, size := Read16(host, f);
    if !ok {
      return false, NotLoaded;
    }
    ToBEInjective(size, Field(d, p + 24, 2), 2);
    if size > CONTEXT_BLOB_CAPACITY {
      return false, NotLoaded;
    }
    var blob;
    ok, blob := f.ReadX(size);
    if !ok {
      return false, NotLoaded;
    }
    loaded := Versioned(Context(hierarchy, savedHandle, sequence, blob));
  }

  /** hierarchy, savedHandle and sequence, as load_tpm_context_file reads them. */
  method ReadIdentity(host: ByteOrder, f: Stream, ghost d: seq<u8>, ghost p: nat)
    returns (ok: bool, hierarchy: u32, savedHandle: u32, sequence: u64)
    requires f.Valid() && f.data == d && f.pos == p + 8
    modifies f
    ensures f.Valid() && f.data == d
    ensures ok == (p + 24 <= |d|)
    ensures ok ==> f.pos == p + 24
    ensures ok ==> hierarchy == Field(d, p + 8, 4) && savedHandle == Field(d, p + 12, 4)
    ensures ok ==> sequence == Field(d, p + 16, 8)
  {
    savedHandle, sequence := 0, 0;
    ok, hierarchy := Read32(host, f);
    if !ok {
      return;
    }
    ToBEInjective(hierarchy, Field(d, p + 8, 4), 4);
    ok, savedHandle := Read32(host, f);
    if !ok {
      return;
    }
    ToBEInjective(savedHandle, Field(d, p + 12, 4), 4);
    ok, sequence := Read64(host, f);
    if !ok {
      return;
    }
    assert Pow256(8) == 0x1_0000_0000_0000_0000;
    ToBEInjective(sequence, Field(d, p + 16, 8), 8);
  }

  // ---------------------------------------------------------------------
  // Loading raw bytes.

  /**
   * read_bytes_from_file: the whole file, when it is no longer than the
   * caller's *size, read from the position into buf; *size becomes the
   * file size.  A stream that cannot be sized fails.
   */
  method ReadBytesFromFile(f: Stream, buf: array<u8>, size: u16) returns (ok: bool, sizeOut: u16)
    requires f.Valid() && size <= buf.Length
    modifies f, buf
    ensures f.Valid() && f.data == old(f.data)
    ensures ok == (f.seekable && |f.data| <= size && old(f.pos) == 0)
    ensures ok ==> sizeOut == |f.data| && buf[..|f.data|] == f.data && buf[|f.data|..] == old(buf[|f.data|..])
    ensures !ok ==> sizeOut == size
    ensures !f.seekable || |f.data| > size ==> buf[..] == old(buf[..]) && f.pos == old(f.pos)
  {
    if !f.seekable {
      return false, size;
    }
    var fileSize := |f.data|;
    if fileSize > size {
      return false, size;
    }
    var bytes;
    ok, bytes := f.ReadX(fileSize);
    forall k | 0 <= k < |bytes| {
      buf[k] := bytes[k];
    }
    if !ok {
      return false, size;
    }
    assert old(f.pos) == 0;
    sizeOut := fileSize;
  }

  /**
   * The input-buffer branch of files_load_bytes_from_buffer_or_file_or_stdin:
   * the text is copied only when its length is exactly *size.  A path given
   * as well is reported but does not change the outcome.
   */
  method LoadBytesFromBuffer(inputBuffer: string, path: Option<string>, size: u16, buf: array<u8>) returns (ok: bool)
    requires size <= buf.Length
    modifies buf
    ensures ok == (|inputBuffer| == size)
    ensures ok ==> buf[..size] == CharsToBytes(inputBuffer) && buf[size..] == old(buf[size..])
    ensures !ok ==> buf[..] == old(buf[..])
  {
    if |inputBuffer| != size {
      return false;
    }
    var bytes := CharsToBytes(inputBuffer);
    forall k | 0 <= k < |bytes| {
      buf[k] := bytes[k];
    }
    ok := true;
  }
}
