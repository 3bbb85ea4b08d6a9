/**
 * tpm2_flushcontext: flushes every handle of one range (-t transient objects,
 * -l loaded sessions, -s saved sessions) or the one context named by the
 * positional argument. The TPM is reached through two function parameters:
 * the translation of a TPM handle into an ESYS_TR, and Esys_FlushContext's
 * response code for an ESYS_TR.
 */
module FlushContext {
  import opened Wrappers
  import opened Bytes
  import opened Strings
  import opened Handles

  /** Handle types, and the first handle of each range that -t, -l and -s ask for. */
  const TPM2_HT_LOADED_SESSION: nat := 0x02
  const TPM2_HT_SAVED_SESSION: nat := 0x03
  /** 1 << TPM2_HR_SHIFT: a handle type shifted into a handle's top byte. */
  const TPM2_HR_SHIFT_UNIT: nat := 0x100_0000
  const TPM2_TRANSIENT_FIRST: u32 := 0x8000_0000
  const TPM2_LOADED_SESSION_FIRST: u32 := 0x0200_0000
  const TPM2_ACTIVE_SESSION_FIRST: u32 := 0x0300_0000
  const TPM2_RC_SUCCESS: u32 := 0

  /** get_property_name: the kind of handle, by its top byte alone, for the error message. */
  function PropertyName(handle: u32): (r: string)
    ensures r == "transient" <==> Range(handle) == TPM2_HR_TRANSIENT
    ensures r == "loaded session" <==> Range(handle) == TPM2_HR_HMAC_SESSION
    ensures r == "saved session" <==> Range(handle) == TPM2_HR_POLICY_SESSION
    ensures r == "invalid" <==>
      Range(handle) !in {TPM2_HR_TRANSIENT, TPM2_HR_HMAC_SESSION, TPM2_HR_POLICY_SESSION}
  {
    var range := Range(handle);
    if range == TPM2_HR_TRANSIENT then "transient"
    else if range == TPM2_HT_LOADED_SESSION * TPM2_HR_SHIFT_UNIT then "loaded session"
    else if range == TPM2_HT_SAVED_SESSION * TPM2_HR_SHIFT_UNIT then "saved session"
    else "invalid"
  }

  /** The TPM side: a TPM handle's ESYS_TR or the tool_rc of the failed lookup; a flush's TPM2_RC. */
  type Lookup = u32 -> Result<nat, nat>
  type Flush = nat -> u32

  /** One handle goes through: it translates, and the TPM flushes it. */
  predicate Flushes(handle: u32, lookup: Lookup, flush: Flush)
  {
    lookup(handle).Success? && flush(lookup(handle).value) == TPM2_RC_SUCCESS
  }

  /** How flush_contexts_tpm2 returns: success, or the first handle that failed and why. */
  datatype FlushOutcome =
    | AllFlushed
    | LookupFailed(at: nat, rc: nat)
    | FlushFailed(at: nat, rval: u32)

  /** How many Esys_FlushContext calls an outcome stands for, out of count handles. */
  function Attempts(r: FlushOutcome, count: nat): nat
  {
    match r
    case AllFlushed => count
    case LookupFailed(at, _) => at
    case FlushFailed(at, _) => at + 1
  }

  /**
   * flush_contexts_tpm2: flushes the handles in order and stops at the first
   * failure, so every handle before it was flushed and none after it was tried.
   * flushed lists the ESYS_TRs handed to Esys_FlushContext, in order.
   */
  method FlushContextsTpm2(handles: seq<u32>, lookup: Lookup, flush: Flush)
    returns (r: FlushOutcome, flushed: seq<nat>)
    ensures r.AllFlushed? <==> forall i :: 0 <= i < |handles| ==> Flushes(handles[i], lookup, flush)
    ensures !r.AllFlushed? ==>
      && r.at < |handles|
      && (forall i :: 0 <= i < r.at ==> Flushes(handles[i], lookup, flush))
      && !Flushes(handles[r.at], lookup, flush)
    ensures r.LookupFailed? ==> lookup(handles[r.at]) == Failure(r.rc)
    ensures r.FlushFailed? ==>
      lookup(handles[r.at]).Success? && flush(lookup(handles[r.at]).value) == r.rval != TPM2_RC_SUCCESS
    ensures |flushed| == Attempts(r, |handles|) <= |handles|
    ensures forall i :: 0 <= i < |flushed| ==>
      lookup(handles[i]).Success? && flushed[i] == lookup(handles[i]).value
  {
    flushed := [];
    var i := 0;
    while i < |handles|
      invariant 0 <= i <= |handles| && |flushed| == i
      invariant forall j :: 0 <= j < i ==> Flushes(handles[j], lookup, flush)
      invariant forall j :: 0 <= j < i ==> lookup(handles[j]).Success? && flushed[j] == lookup(handles[j]).value
    {
      var handle := lookup(handles[i]);
      if handle.Failure? {
        return LookupFailed(i, handle.error), flushed;
      }
      var rval := flush(handle.value);
      flushed := flushed + [handle.value];
      if rval != TPM2_RC_SUCCESS {
        return FlushFailed(i, rval), flushed;
      }
      i := i + 1;
    }
    return AllFlushed, flushed;
  }

  /** What tpm2_tool_onrun goes on to do with the parsed options. */
  datatype RunPlan =
    | FlushRange(first: u32)              // list the range's handles, then flush_contexts_tpm2
    | RestoreSession(path: Option<string>) // not a number: a saved session file to restore and close
    | FlushHandle(handle: u32)             // one handle, translated and flushed

  class FlushContextCtx {
    var property: u32
    var contextArg: Option<string>
    var encounteredOption: bool

    /** The zeroed static context. */
    constructor ()
      ensures property == 0 && contextArg == None && !encounteredOption
    {
      property := 0;
      contextArg := None;
      encounteredOption := false;
    }

    /**
     * on_option: -t, -l and -s exclude one another, so only the first is
     * accepted; it selects the first handle of its range.
     */
    method OnOption(key: char) returns (ok: bool)
      modifies this`property, this`encounteredOption
      ensures ok == !old(encounteredOption) && encounteredOption
      ensures !ok ==> property == old(property)
      ensures ok ==> property == match key
        case 't' => TPM2_TRANSIENT_FIRST
        case 'l' => TPM2_LOADED_SESSION_FIRST
        case 's' => TPM2_ACTIVE_SESSION_FIRST
        case _ => old(property)
      ensures ok && key == 't' ==> property != 0 && PropertyName(property) == "transient"
      ensures ok && key == 'l' ==> property != 0 && PropertyName(property) == "loaded session"
      ensures ok && key == 's' ==> property != 0 && PropertyName(property) == "saved session"
    {
      if encounteredOption {
        return false;
      }
      encounteredOption := true;
      if key == 't' {
        property := TPM2_TRANSIENT_FIRST;
      } else if key == 'l' {
        property := TPM2_LOADED_SESSION_FIRST;
      } else if key == 's' {
        property := TPM2_ACTIVE_SESSION_FIRST;
      }
      return true;
    }

    /**
     * on_arg: a positional argument is refused after an option; otherwise the
     * first one (None when there is none) names the context to flush.
     */
    method OnArg(args: seq<string>) returns (ok: bool)
      modifies this`contextArg
      ensures ok <==> !encounteredOption || |args| == 0
      ensures contextArg == if !ok then old(contextArg) else if args == [] then None else Some(args[0])
    {
      if encounteredOption && |args| != 0 {
        return false;
      }
      contextArg := if |args| == 0 then None else Some(args[0]);
      return true;
    }

    /**
     * tpm2_tool_onrun's choice: a selected range wins; otherwise a number is a
     * handle to flush and anything else a session file.
     */
    function Plan(): (p: RunPlan)
      reads this
      ensures p.FlushRange? <==> property != 0
      ensures p.FlushRange? ==> p.first == property
      ensures p.FlushHandle? ==> property == 0 && StringToUint32(contextArg) == Some(p.handle)
      ensures p.RestoreSession? ==> property == 0 && StringToUint32(contextArg).None? && p.path == contextArg
    {
      if property != 0 then FlushRange(property)
      else
        match StringToUint32(contextArg)
        case None => RestoreSession(contextArg)
        case Some(h) => FlushHandle(h)
    }
  }
}
