/**
 * TPM handle classification of lib/tpm2_util.c: turning an option
 * argument (a hierarchy name or a number) into a handle, checking it
 * against the handle kinds a tool accepts, and mapping a hierarchy to its
 * ESYS_TR.  The handle kinds a tool accepts are the tpm2_handle_flags bits
 * of lib/tpm2_util.h.
 */
module Handles {
  import opened Wrappers
  import opened Bytes
  import opened Strings

  // ---------------------------------------------------------------------
  // tpm2_handle_flags.

  type HandleFlags = bv16

  const TPM2_HANDLE_FLAGS_NONE: HandleFlags := 0
  const TPM2_HANDLE_FLAGS_O: HandleFlags := 1 << 0
  const TPM2_HANDLE_FLAGS_P: HandleFlags := 1 << 1
  const TPM2_HANDLE_FLAGS_E: HandleFlags := 1 << 2
  const TPM2_HANDLE_FLAGS_N: HandleFlags := 1 << 3
  const TPM2_HANDLE_FLAGS_L: HandleFlags := 1 << 4
  const TPM2_HANDLE_FLAGS_ALL_HIERACHIES: HandleFlags := 0x1F
  const TPM2_HANDLES_FLAGS_TRANSIENT: HandleFlags := 1 << 5
  const TPM2_HANDLES_FLAGS_PERSISTENT: HandleFlags := 1 << 6
  const TPM2_HANDLE_FLAGS_NV: HandleFlags := 1 << 7
  const TPM2_HANDLE_ALL_W_NV: HandleFlags := 0xFF
  const TPM2_HANDLE_FLAGS_PCR: HandleFlags := 1 << 8
  const TPM2_HANDLE_ALL_W_PCR: HandleFlags := 0x17F

  predicate Has(flags: HandleFlags, flag: HandleFlags)
  {
    flags & flag != 0
  }

  /** A value with exactly one bit set. */
  predicate SingleBit(f: HandleFlags)
  {
    f != 0 && f & (f - 1) == 0
  }

  /**
   * The hierarchy flags are distinct single bits whose union is
   * TPM2_HANDLE_FLAGS_ALL_HIERACHIES, and the two "all" sets each hold one
   * of the mutually exclusive NV and PCR bits and not the other.
   */
  lemma FlagConstants()
    ensures SingleBit(TPM2_HANDLE_FLAGS_O) && SingleBit(TPM2_HANDLE_FLAGS_P) && SingleBit(TPM2_HANDLE_FLAGS_E)
    ensures SingleBit(TPM2_HANDLE_FLAGS_N) && SingleBit(TPM2_HANDLE_FLAGS_L)
    ensures
      var hs := [TPM2_HANDLE_FLAGS_O, TPM2_HANDLE_FLAGS_P, TPM2_HANDLE_FLAGS_E, TPM2_HANDLE_FLAGS_N, TPM2_HANDLE_FLAGS_L];
      forall i, j :: 0 <= i < j < 5 ==> hs[i] & hs[j] == 0
    ensures TPM2_HANDLE_FLAGS_O | TPM2_HANDLE_FLAGS_P | TPM2_HANDLE_FLAGS_E | TPM2_HANDLE_FLAGS_N
      | TPM2_HANDLE_FLAGS_L == TPM2_HANDLE_FLAGS_ALL_HIERACHIES
    ensures Has(TPM2_HANDLE_ALL_W_NV, TPM2_HANDLE_FLAGS_NV) && !Has(TPM2_HANDLE_ALL_W_NV, TPM2_HANDLE_FLAGS_PCR)
    ensures Has(TPM2_HANDLE_ALL_W_PCR, TPM2_HANDLE_FLAGS_PCR) && !Has(TPM2_HANDLE_ALL_W_PCR, TPM2_HANDLE_FLAGS_NV)
    ensures TPM2_HANDLE_ALL_W_NV == TPM2_HANDLE_FLAGS_ALL_HIERACHIES | TPM2_HANDLES_FLAGS_TRANSIENT
      | TPM2_HANDLES_FLAGS_PERSISTENT | TPM2_HANDLE_FLAGS_NV
    ensures TPM2_HANDLE_ALL_W_PCR == TPM2_HANDLE_FLAGS_ALL_HIERACHIES | TPM2_HANDLES_FLAGS_TRANSIENT
      | TPM2_HANDLES_FLAGS_PERSISTENT | TPM2_HANDLE_FLAGS_PCR
  {
  }

  // ---------------------------------------------------------------------
  // Handle ranges (TPM 2.0 Library Specification Part 2, section 7).

  const TPM2_HR_RANGE_MASK: nat := 0xFF00_0000
  const TPM2_HR_PCR: nat := 0x0000_0000
  const TPM2_HR_NV_INDEX: nat := 0x0100_0000
  const TPM2_HR_HMAC_SESSION: nat := 0x0200_0000
  const TPM2_HR_POLICY_SESSION: nat := 0x0300_0000
  const TPM2_HR_PERMANENT: nat := 0x4000_0000
  const TPM2_HR_TRANSIENT: nat := 0x8000_0000
  const TPM2_HR_PERSISTENT: nat := 0x8100_0000

  const TPM2_NV_INDEX_FIRST: nat := 0x0100_0000
  const TPM2_NV_INDEX_LAST: nat := 0x01FF_FFFF
  /** TPM2_PCR_FIRST + TPM2_MAX_PCRS - 1. */
  const TPM2_PCR_LAST: nat := 31
  const TPM2_PERSISTENT_FIRST: nat := 0x8100_0000
  const TPM2_PERSISTENT_LAST: nat := 0x81FF_FFFF

  const TPM2_RH_OWNER: nat := 0x4000_0001
  const TPM2_RH_NULL: nat := 0x4000_0007
  const TPM2_RH_LOCKOUT: nat := 0x4000_000A
  const TPM2_RH_ENDORSEMENT: nat := 0x4000_000B
  const TPM2_RH_PLATFORM: nat := 0x4000_000C

  /** handle & TPM2_HR_RANGE_MASK: the top byte of a 32-bit handle, in place. */
  function Range(h: u32): (r: nat)
    ensures r <= h && r % 0x100_0000 == 0 && h - r < 0x100_0000
  {
    h / 0x100_0000 * 0x100_0000
  }

  // ---------------------------------------------------------------------
  // filter_hierarchy_handles and filter_handles.

  /** filter_hierarchy_handles: a permanent handle against the hierarchy flags. */
  function FilterHierarchyHandles(h: u32, flags: HandleFlags): (r: bool)
    ensures h == TPM2_RH_OWNER ==> (r <==> Has(flags, TPM2_HANDLE_FLAGS_O))
    ensures h == TPM2_RH_PLATFORM ==> (r <==> Has(flags, TPM2_HANDLE_FLAGS_P))
    ensures h == TPM2_RH_ENDORSEMENT ==> (r <==> Has(flags, TPM2_HANDLE_FLAGS_E))
    ensures h == TPM2_RH_NULL ==> (r <==> Has(flags, TPM2_HANDLE_FLAGS_N))
    ensures h == TPM2_RH_LOCKOUT ==> (r <==> Has(flags, TPM2_HANDLE_FLAGS_L))
    ensures h !in {TPM2_RH_OWNER, TPM2_RH_PLATFORM, TPM2_RH_ENDORSEMENT, TPM2_RH_NULL, TPM2_RH_LOCKOUT} ==>
      (r <==> flags == TPM2_HANDLE_ALL_W_NV || flags == TPM2_HANDLE_FLAGS_NONE)
  {
    if h == TPM2_RH_OWNER then Has(flags, TPM2_HANDLE_FLAGS_O)
    else if h == TPM2_RH_PLATFORM then Has(flags, TPM2_HANDLE_FLAGS_P)
    else if h == TPM2_RH_ENDORSEMENT then Has(flags, TPM2_HANDLE_FLAGS_E)
    else if h == TPM2_RH_NULL then Has(flags, TPM2_HANDLE_FLAGS_N)
    else if h == TPM2_RH_LOCKOUT then Has(flags, TPM2_HANDLE_FLAGS_L)
    else flags == TPM2_HANDLE_ALL_W_NV || flags == TPM2_HANDLE_FLAGS_NONE
  }

  /** The verdict and the handle as the caller's variable holds it afterwards. */
  datatype Filtered = Filtered(ok: bool, handle: u32)

  /**
   * filter_handles.  A handle without a range is an index: it is moved
   * into the NV range when NV handles are accepted, else into the PCR
   * range (a no-op, that range being 0) when PCR handles are, else
   * rejected.  The handle is then checked by its range.
   */
  function FilterHandles(h: u32, flags: HandleFlags): (r: Filtered)
    ensures r.handle == h || (Range(h) == 0 && r.handle == h + TPM2_HR_NV_INDEX)
    ensures r.ok ==>
      Range(r.handle) in {TPM2_HR_PCR, TPM2_HR_NV_INDEX, TPM2_HR_TRANSIENT, TPM2_HR_PERMANENT, TPM2_HR_PERSISTENT}
  {
    if Range(h) == 0 && !Has(flags, TPM2_HANDLE_FLAGS_NV) && !Has(flags, TPM2_HANDLE_FLAGS_PCR) then
      Filtered(false, h)
    else
      assert Range(h) == 0 ==> (h + TPM2_HR_NV_INDEX) / 0x100_0000 == 1;
      var h' := if Range(h) == 0 && Has(flags, TPM2_HANDLE_FLAGS_NV) then h + TPM2_HR_NV_INDEX
        else if Range(h) == 0 then h + TPM2_HR_PCR
        else h;
      Filtered(CheckRange(h', flags), h')
  }

  /** The range checks of filter_handles, in their order. */
  function CheckRange(h: u32, flags: HandleFlags): bool
  {
    var range := Range(h);
    if range == TPM2_HR_NV_INDEX then
      Has(flags, TPM2_HANDLE_FLAGS_NV) && TPM2_NV_INDEX_FIRST <= h <= TPM2_NV_INDEX_LAST
    else if range == TPM2_HR_PCR then
      Has(flags, TPM2_HANDLE_FLAGS_PCR) && h <= TPM2_PCR_LAST
    else if range == TPM2_HR_TRANSIENT then
      Has(flags, TPM2_HANDLES_FLAGS_TRANSIENT)
    else if range == TPM2_HR_PERMANENT then
      FilterHierarchyHandles(h, flags)
    else if range == TPM2_HR_PERSISTENT then
      Has(flags, TPM2_HANDLES_FLAGS_PERSISTENT) && TPM2_PERSISTENT_FIRST <= h <= TPM2_PERSISTENT_LAST
    else false
  }

  /**
   * What filter_handles accepts, stated per kind of handle: an index is
   * an NV index when NV handles are accepted and a PCR when only PCR
   * handles are; NV, PCR and persistent handles need their flag and must
   * lie in their range; sessions and unknown ranges never pass.
   */
  lemma FilterHandlesKinds(h: u32, flags: HandleFlags)
    ensures Range(h) == 0 && Has(flags, TPM2_HANDLE_FLAGS_NV) ==> FilterHandles(h, flags) == Filtered(true, h + TPM2_HR_NV_INDEX)
    ensures Range(h) == 0 && !Has(flags, TPM2_HANDLE_FLAGS_NV) ==>
      FilterHandles(h, flags) == Filtered(Has(flags, TPM2_HANDLE_FLAGS_PCR) && h <= TPM2_PCR_LAST, h)
    ensures Range(h) == TPM2_HR_NV_INDEX ==> FilterHandles(h, flags) == Filtered(Has(flags, TPM2_HANDLE_FLAGS_NV), h)
    ensures Range(h) == TPM2_HR_PERSISTENT ==> FilterHandles(h, flags) == Filtered(Has(flags, TPM2_HANDLES_FLAGS_PERSISTENT), h)
    ensures Range(h) == TPM2_HR_TRANSIENT ==> FilterHandles(h, flags) == Filtered(Has(flags, TPM2_HANDLES_FLAGS_TRANSIENT), h)
    ensures Range(h) == TPM2_HR_HMAC_SESSION || Range(h) == TPM2_HR_POLICY_SESSION ==> !FilterHandles(h, flags).ok
    ensures Range(h) !in {TPM2_HR_PCR, TPM2_HR_NV_INDEX, TPM2_HR_TRANSIENT, TPM2_HR_PERMANENT, TPM2_HR_PERSISTENT} ==>
      FilterHandles(h, flags) == Filtered(false, h)
  {
    if Range(h) == 0 && Has(flags, TPM2_HANDLE_FLAGS_NV) {
      var h' := h + TPM2_HR_NV_INDEX;
      assert h' / 0x100_0000 == 1;
    }
  }

  // ---------------------------------------------------------------------
  // tpm2_util_handle_from_optarg.

  /** !strncmp(value, name, strlen(value)): value is a prefix of name. */
  predicate Abbreviates(value: string, name: string)
  {
    |value| <= |name| && name[..|value|] == value
  }

  /**
   * The hierarchy named by value, 0 when none: each of "owner",
   * "platform", "endorsement", "null" and "lockout" is tested in turn and
   * a later match overrides an earlier one.
   */
  function NamedHierarchy(value: string): (h: u32)
    ensures h in {0, TPM2_RH_OWNER, TPM2_RH_PLATFORM, TPM2_RH_ENDORSEMENT, TPM2_RH_NULL, TPM2_RH_LOCKOUT}
    ensures h == 0 <==>
      && !Abbreviates(value, "owner") && !Abbreviates(value, "platform") && !Abbreviates(value, "endorsement")
      && !Abbreviates(value, "null") && !Abbreviates(value, "lockout")
    ensures Abbreviates(value, "lockout") ==> h == TPM2_RH_LOCKOUT
  {
    var h0 := 0;
    var h1 := if Abbreviates(value, "owner") then TPM2_RH_OWNER else h0;
    var h2 := if Abbreviates(value, "platform") then TPM2_RH_PLATFORM else h1;
    var h3 := if Abbreviates(value, "endorsement") then TPM2_RH_ENDORSEMENT else h2;
    var h4 := if Abbreviates(value, "null") then TPM2_RH_NULL else h3;
    if Abbreviates(value, "lockout") then TPM2_RH_LOCKOUT else h4
  }

  /**
   * tpm2_util_handle_from_optarg, given the handle the caller's variable
   * held before.  NULL or empty text and the NV and PCR flags together
   * fail with the variable untouched; otherwise the variable is set to the
   * named hierarchy, or to the number the text spells, and filtered.
   */
  function HandleFromOptarg(value: Option<string>, previous: u32, flags: HandleFlags): (r: Filtered)
    ensures r.ok ==> value.Some? && value.value != [] && !(Has(flags, TPM2_HANDLE_FLAGS_NV) && Has(flags, TPM2_HANDLE_FLAGS_PCR))
    ensures r.ok ==> Range(r.handle) !in {TPM2_HR_HMAC_SESSION, TPM2_HR_POLICY_SESSION}
  {
    if value.None? || value.value == [] then Filtered(false, previous)
    else if Has(flags, TPM2_HANDLE_FLAGS_NV) && Has(flags, TPM2_HANDLE_FLAGS_PCR) then Filtered(false, previous)
    else
      var named := NamedHierarchy(value.value);
      if named != 0 then FilterHandles(named, flags)
      else
        match StringToUint32(value)
        case None => Filtered(false, 0)
        case Some(n) => FilterHandles(n, flags)
  }

  /** Every non-empty abbreviation of a hierarchy name selects that hierarchy. */
  lemma Abbreviations(value: string)
    requires value != []
    ensures Abbreviates(value, "owner") ==> NamedHierarchy(value) == TPM2_RH_OWNER
    ensures Abbreviates(value, "platform") ==> NamedHierarchy(value) == TPM2_RH_PLATFORM
    ensures Abbreviates(value, "endorsement") ==> NamedHierarchy(value) == TPM2_RH_ENDORSEMENT
    ensures Abbreviates(value, "null") ==> NamedHierarchy(value) == TPM2_RH_NULL
    ensures Abbreviates(value, "lockout") ==> NamedHierarchy(value) == TPM2_RH_LOCKOUT
  {
    var c := value[0];
    assert Abbreviates(value, "owner") ==> c == 'o';
    assert Abbreviates(value, "platform") ==> c == 'p';
    assert Abbreviates(value, "endorsement") ==> c == 'e';
    assert Abbreviates(value, "null") ==> c == 'n';
    assert Abbreviates(value, "lockout") ==> c == 'l';
  }

  /**
   * NULL or empty text, and the NV and PCR flags together, fail with the
   * caller's variable untouched.  Otherwise a hierarchy name, or a non-empty
   * abbreviation of one, is filtered as that hierarchy's handle, and text
   * starting with a digit is read as a number and filtered as that handle.
   */
  lemma HandleFromOptargCases(value: Option<string>, previous: u32, flags: HandleFlags)
    ensures value.None? || value == Some([]) ==> HandleFromOptarg(value, previous, flags) == Filtered(false, previous)
    ensures Has(flags, TPM2_HANDLE_FLAGS_NV) && Has(flags, TPM2_HANDLE_FLAGS_PCR) ==>
      HandleFromOptarg(value, previous, flags) == Filtered(false, previous)
    ensures
      var named := value.Some? && value.value != [] && !(Has(flags, TPM2_HANDLE_FLAGS_NV) && Has(flags, TPM2_HANDLE_FLAGS_PCR));
      && (named && Abbreviates(value.value, "owner") ==>
        HandleFromOptarg(value, previous, flags) == Filtered(Has(flags, TPM2_HANDLE_FLAGS_O), TPM2_RH_OWNER))
      && (named && Abbreviates(value.value, "platform") ==>
        HandleFromOptarg(value, previous, flags) == Filtered(Has(flags, TPM2_HANDLE_FLAGS_P), TPM2_RH_PLATFORM))
      && (named && Abbreviates(value.value, "endorsement") ==>
        HandleFromOptarg(value, previous, flags) == Filtered(Has(flags, TPM2_HANDLE_FLAGS_E), TPM2_RH_ENDORSEMENT))
      && (named && Abbreviates(value.value, "null") ==>
        HandleFromOptarg(value, previous, flags) == Filtered(Has(flags, TPM2_HANDLE_FLAGS_N), TPM2_RH_NULL))
      && (named && Abbreviates(value.value, "lockout") ==>
        HandleFromOptarg(value, previous, flags) == Filtered(Has(flags, TPM2_HANDLE_FLAGS_L), TPM2_RH_LOCKOUT))
      && (named && IsDecDigit(value.value[0]) ==>
        HandleFromOptarg(value, previous, flags) ==
          match StringToUint32(value)
          case None => Filtered(false, 0)
          case Some(n) => FilterHandles(n, flags))
  {
    if value.Some? && value.value != [] {
      Abbreviations(value.value);
      if IsDecDigit(value.value[0]) {
        assert NamedHierarchy(value.value) == 0;
      }
    }
  }

  // ---------------------------------------------------------------------
  // tpm2_tpmi_hierarchy_to_esys_tr.

  /** The ESYS_TR constants of the five hierarchies, and ESYS_TR_NONE. */
  datatype EsysTr = RhOwner | RhPlatform | RhEndorsement | RhNull | RhLockout | TrNone

  /** tpm2_tpmi_hierarchy_to_esys_tr. */
  function HierarchyToEsysTr(h: u32): (r: EsysTr)
    ensures r == TrNone <==>
      h !in {TPM2_RH_OWNER, TPM2_RH_PLATFORM, TPM2_RH_ENDORSEMENT, TPM2_RH_NULL, TPM2_RH_LOCKOUT}
  {
    if h == TPM2_RH_OWNER then RhOwner
    else if h == TPM2_RH_PLATFORM then RhPlatform
    else if h == TPM2_RH_ENDORSEMENT then RhEndorsement
    else if h == TPM2_RH_NULL then RhNull
    else if h == TPM2_RH_LOCKOUT then RhLockout
    else TrNone
  }

  /** The hierarchy an ESYS_TR stands for (the reverse table). */
  function EsysTrToHierarchy(t: EsysTr): Option<u32>
  {
    match t
    case RhOwner => Some(TPM2_RH_OWNER)
    case RhPlatform => Some(TPM2_RH_PLATFORM)
    case RhEndorsement => Some(TPM2_RH_ENDORSEMENT)
    case RhNull => Some(TPM2_RH_NULL)
    case RhLockout => Some(TPM2_RH_LOCKOUT)
    case TrNone => None
  }

  /** The mapping is one-to-one on the hierarchies and undone by the reverse table. */
  lemma HierarchyRoundTrip(h: u32, t: EsysTr)
    ensures HierarchyToEsysTr(h) != TrNone ==> EsysTrToHierarchy(HierarchyToEsysTr(h)) == Some(h)
    ensures t != TrNone ==> HierarchyToEsysTr(EsysTrToHierarchy(t).value) == t
  {
  }
}
