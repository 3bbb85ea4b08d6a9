/**
 * tpm2_clearcontrol: sets (s, 1) or clears (c, 0) the TPM's disableClear
 * flag. The argument handler stores the requested state; the run refuses to
 * CLEAR the flag with the lockout hierarchy, which only the platform may do.
 */
module ClearControl {
  import opened Wrappers
  import opened Bytes
  import opened Strings
  import opened Handles

  /** The disableClear state one positional argument asks for, or None when on_arg refuses. */
  function Operation(args: seq<string>): (r: Option<u8>)
    ensures r.Some? ==> |args| == 1 && r.value <= 1
    ensures r.Some? && args[0] != "s" && args[0] != "c" ==> StringToUint32(Some(args[0])) == r
  {
    if |args| != 1 then None
    else if args[0] == "s" then Some(1)
    else if args[0] == "c" then Some(0)
    else
      match StringToUint32(Some(args[0]))
      case None => None
      case Some(v) => if v != 0 && v != 1 then None else Some(v)
  }

  /**
   * The four spellings of the operation: "s" and every numeral of 1 set the
   * flag, "c" and every numeral of 0 clear it, and any other number is refused.
   */
  lemma OperationSpellings(n: nat)
    ensures Operation(["s"]) == Some(1) && Operation(["c"]) == Some(0)
    ensures Operation([Decimal(n)]) == if n <= 1 then Some(n) else None
    ensures Operation(["0x" + Hex(n)]) == if n <= 1 then Some(n) else None
  {
    StringToUint32Numerals(n);
    if n < 10 {
      assert Decimal(n) != "s" && Decimal(n) != "c" by { assert Decimal(n) == [DecChar(n)]; }
    } else {
      assert Decimal(n) != "s" && Decimal(n) != "c" by { assert |Decimal(n)| >= 2; }
    }
    assert ("0x" + Hex(n))[1] == 'x';
  }

  /** What tpm2_tool_onrun ends with. */
  datatype RunOutcome =
    | AuthFailed                                     // the hierarchy's authorisation did not load
    | RejectedLockoutClear                           // CLEAR was asked of the lockout hierarchy
    | Issued(handle: EsysTr, disableClear: u8)       // TPM2_ClearControl is sent

  class ClearControlCtx {
    var ctxPath: string
    var authStr: Option<string>
    var disableClear: u8

    /** The static initialiser: the platform hierarchy, CLEAR. */
    constructor ()
      ensures ctxPath == "p" && authStr == None && disableClear == 0
    {
      ctxPath := "p";
      authStr := None;
      disableClear := 0;
    }

    /** on_arg: stores the requested state; a refused argument leaves it as it was. */
    method OnArg(args: seq<string>) returns (ok: bool)
      modifies this`disableClear
      ensures ok == Operation(args).Some?
      ensures disableClear == if ok then Operation(args).value else old(disableClear)
      ensures disableClear <= 1 || disableClear == old(disableClear)
    {
      if |args| > 1 {
        return false;
      }
      if |args| == 0 {
        return false;
      }
      if args[0] == "s" {
        disableClear := 1;
        return true;
      }
      if args[0] == "c" {
        disableClear := 0;
        return true;
      }
      var value := StringToUint32(Some(args[0]));
      if value.None? {
        return false;
      }
      if value.value != 0 && value.value != 1 {
        return false;
      }
      disableClear := value.value;
      return true;
    }

    /** on_option: -C names the hierarchy, -P its authorisation; nothing is refused. */
    method OnOption(key: char, value: string) returns (ok: bool)
      modifies this`ctxPath, this`authStr
      ensures ok
      ensures ctxPath == if key == 'C' then value else old(ctxPath)
      ensures authStr == if key == 'P' then Some(value) else old(authStr)
    {
      if key == 'C' {
        ctxPath := value;
      } else if key == 'P' {
        authStr := Some(value);
      }
      return true;
    }

    /**
     * tpm2_tool_onrun, given the handle the authorisation load produced (None
     * when it failed): only the platform hierarchy may CLEAR disableClear.
     */
    function OnRun(loaded: Option<EsysTr>): (r: RunOutcome)
      reads this
      ensures r == AuthFailed <==> loaded.None?
      ensures r == RejectedLockoutClear <==> loaded == Some(RhLockout) && disableClear == 0
      ensures r.Issued? ==> loaded == Some(r.handle) && r.disableClear == disableClear
      ensures r.Issued? && r.disableClear == 0 ==> r.handle != RhLockout
    {
      if loaded.None? then AuthFailed
      else if disableClear == 0 && loaded.value == RhLockout then RejectedLockoutClear
      else Issued(loaded.value, disableClear)
    }
  }
}
