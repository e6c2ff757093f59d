/** One step of the assembler's multi-pass address resolution: re-evaluate an
    address directive, record the new value, report whether it moved since the
    previous pass, and on the last pass validate the settled value against the
    directive's bank. */
module AddrResolver {
  import opened Util
  import opened Diagn

  /** `usize::MAX` on a 64-bit host. */
  const UsizeMax: int := 0xFFFF_FFFF_FFFF_FFFF

  type Usize = x: int | 0 <= x <= UsizeMax

  const AddressDidNotConverge := "address did not converge"
  const AddressOutOfBankRange := "address is out of bank range"
  const ValueOutOfSupportedRange := "value is out of supported range"

  /** The value kinds that survive `expect_error_or_bigint`: an integer, or the
      sentinel of an error that has already been reported. */
  datatype Value = Integer(n: int) | ErrorSentinel

  /** What evaluating the directive's expression and narrowing its value gave:
      a failure (already reported by the evaluator) or an accepted value. */
  datatype Evaluation = EvalFailed | Evaluated(value: Value)

  datatype ResolutionState = Resolved | Unresolved

  /** A memory bank: its first address, the storage units per address unit,
      and an optional capacity in storage units. */
  datatype Bank = Bank(addrStart: int, addrUnit: Usize, size: Option<Usize>)

  /** The resolver's record of an address directive. */
  datatype AddrDirective = AddrDirective(address: int)

  /** The syntax of an address directive: the slot it was registered under and
      the span of its expression (the expression itself is the evaluator's). */
  datatype AstDirectiveAddr = AstDirectiveAddr(itemRef: Option<nat>, exprSpan: Span)

  datatype ResolverContext = ResolverContext(isLastIteration: bool, bankRef: nat)

  /** The definition table: directive slots and banks, indexed by reference. */
  class ItemDefs {
    var addrDirectives: seq<AddrDirective>
    var bankdefs: seq<Bank>

    constructor (addrDirectives: seq<AddrDirective>, bankdefs: seq<Bank>)
      ensures this.addrDirectives == addrDirectives && this.bankdefs == bankdefs
    {
      this.addrDirectives := addrDirectives;
      this.bankdefs := bankdefs;
    }
  }

  /** The integer a directive takes from an accepted value: a reported error
      stands in as zero so that iteration goes on. */
  function Coerce(v: Value): (n: int)
    ensures v.Integer? ==> n == v.n
    ensures v.ErrorSentinel? ==> n == 0
  {
    match v
    case Integer(n) => n
    case ErrorSentinel => 0
  }

  /** `BigInt::checked_to_usize`: the value itself when it fits, never a
      wrapped or truncated one. */
  function CheckedToUsize(x: int): (r: Option<Usize>)
    ensures r.Some? <==> 0 <= x <= UsizeMax
    ensures r.Some? ==> r.value == x
  {
    if 0 <= x <= UsizeMax then Some(x) else None
  }

  /** Outcome of validating a settled address against its bank. */
  datatype BankCheck = InBank | BelowStart | OffsetOverflow | BeyondSize

  /** The bank validation of the last pass, in the source's order: lower bound,
      then the scaled offset must fit a `usize`, then it must be below the
      bank's size when the bank has one. */
  function CheckBank(address: int, bank: Bank): (r: BankCheck)
    ensures r == BelowStart <==> address < bank.addrStart
    ensures r == OffsetOverflow <==>
      bank.addrStart <= address && (address - bank.addrStart) * bank.addrUnit > UsizeMax
    ensures r == BeyondSize <==>
      bank.addrStart <= address && (address - bank.addrStart) * bank.addrUnit <= UsizeMax &&
      bank.size.Some? && (address - bank.addrStart) * bank.addrUnit >= bank.size.value
    ensures r == InBank <==>
      bank.addrStart <= address && (address - bank.addrStart) * bank.addrUnit <= UsizeMax &&
      (bank.size.Some? ==> (address - bank.addrStart) * bank.addrUnit < bank.size.value)
  {
    if address < bank.addrStart then BelowStart
    else
      match CheckedToUsize((address - bank.addrStart) * bank.addrUnit)
      case None => OffsetOverflow
      case Some(delta) =>
        if bank.size.Some? && delta >= bank.size.value then BeyondSize else InBank
  }

  /** The message each failed bank check reports. */
  function CheckMessage(c: BankCheck): string
  {
    match c
    case InBank => ""
    case BelowStart => AddressOutOfBankRange
    case OffsetOverflow => ValueOutOfSupportedRange
    case BeyondSize => AddressOutOfBankRange
  }

  /** What one resolution step leaves behind: the directive's stored address,
      the error it reports (if any) and its result. */
  datatype StepOutcome = StepOutcome(address: int, error: Option<string>, result: Result<ResolutionState>)

  /** The resolution step as a function of the previously stored address. */
  function ResolveStep(prev: int, evaluation: Evaluation, ctx: ResolverContext, bankdefs: seq<Bank>): (s: StepOutcome)
    requires ctx.isLastIteration ==> ctx.bankRef < |bankdefs|
    // a failed evaluation leaves everything as it was
    ensures evaluation.EvalFailed? ==> s == StepOutcome(prev, None, Err)
    // otherwise the slot always takes the coerced value
    ensures evaluation.Evaluated? ==> s.address == Coerce(evaluation.value)
    // a moved value is unresolved, and is an error only on the last pass
    ensures evaluation.Evaluated? && s.address != prev ==>
      s.result == Ok(Unresolved) &&
      s.error == (if ctx.isLastIteration then Some(AddressDidNotConverge) else None)
    // a settled value before the last pass is resolved without checks
    ensures evaluation.Evaluated? && s.address == prev && !ctx.isLastIteration ==>
      s == StepOutcome(prev, None, Ok(Resolved))
    // a settled value on the last pass is resolved exactly when it is in its bank
    ensures evaluation.Evaluated? && s.address == prev && ctx.isLastIteration ==>
      var c := CheckBank(prev, bankdefs[ctx.bankRef]);
      (s.result == Ok(Resolved) <==> c == InBank) &&
      (s.result != Ok(Resolved) ==> s.result == Err && s.error == Some(CheckMessage(c))) &&
      (c == InBank ==> s.error == None)
    // an unresolved outcome is never fatal, and only a moved value is unresolved
    ensures s.result == Ok(Unresolved) <==> evaluation.Evaluated? && s.address != prev
  {
    match evaluation
    case EvalFailed => StepOutcome(prev, None, Err)
    case Evaluated(v) =>
      var value := Coerce(v);
      if value != prev then
        StepOutcome(value, if ctx.isLastIteration then Some(AddressDidNotConverge) else None, Ok(Unresolved))
      else if !ctx.isLastIteration then
        StepOutcome(value, None, Ok(Resolved))
      else
        var c := CheckBank(value, bankdefs[ctx.bankRef]);
        if c == InBank then StepOutcome(value, None, Ok(Resolved))
        else StepOutcome(value, Some(CheckMessage(c)), Err)
  }

  /** `resolve_addr`: one resolution step on the directive `astAddr` refers to,
      given what its expression evaluated to this pass. */
  method ResolveAddr(report: seq<Message>, astAddr: AstDirectiveAddr, evaluation: Evaluation,
                     defs: ItemDefs, ctx: ResolverContext)
    returns (report': seq<Message>, r: Result<ResolutionState>)
    requires astAddr.itemRef.Some? && astAddr.itemRef.value < |defs.addrDirectives|
    requires ctx.isLastIteration ==> ctx.bankRef < |defs.bankdefs|
    modifies defs
    ensures defs.bankdefs == old(defs.bankdefs)
    ensures var i := astAddr.itemRef.value;
      var s := ResolveStep(old(defs.addrDirectives[i].address), evaluation, ctx, old(defs.bankdefs));
      defs.addrDirectives == old(defs.addrDirectives)[i := AddrDirective(s.address)] &&
      report' == (if s.error.Some? then ErrorSpan(report, s.error.value, astAddr.exprSpan) else report) &&
      r == s.result
  {
    var itemRef := astAddr.itemRef.value;
    report' := report;

    if evaluation.EvalFailed? {
      return report', Err;
    }
    var value := Coerce(evaluation.value);

    var prevValue := defs.addrDirectives[itemRef].address;
    defs.addrDirectives := defs.addrDirectives[itemRef := AddrDirective(value)];

    if value != prevValue {
      // on the final iteration, unstable guesses become errors
      if ctx.isLastIteration {
        report' := ErrorSpan(report', AddressDidNotConverge, astAddr.exprSpan);
      }
      return report', Ok(Unresolved);
    }

    if ctx.isLastIteration {
      var bank := defs.bankdefs[ctx.bankRef];

      if value < bank.addrStart {
        report' := ErrorSpan(report', AddressOutOfBankRange, astAddr.exprSpan);
        return report', Err;
      }

      var addrSize := value - bank.addrStart;
      var maybeAddrDelta := CheckedToUsize(addrSize * bank.addrUnit);

      if maybeAddrDelta.None? {
        report' := ErrorSpan(report', ValueOutOfSupportedRange, astAddr.exprSpan);
        return report', Err;
      } else if bank.size.Some? {
        if maybeAddrDelta.value >= bank.size.value {
          report' := ErrorSpan(report', AddressOutOfBankRange, astAddr.exprSpan);
          return report', Err;
        }
      }
    }

    r := Ok(Resolved);
  }

  /** The ceiling of `s / u`: the least multiple count that covers `s`. */
  function CeilDiv(s: nat, u: nat): (q: nat)
    requires u > 0
    ensures q * u >= s && (q == 0 || (q - 1) * u < s)
    decreases s
  {
    if s == 0 then 0
    else
      var rest := CeilDiv(if s >= u then s - u else 0, u);
      assert (rest + 1) * u == rest * u + u;
      1 + rest
  }

  /** With a positive unit and a size, the addresses a bank accepts are exactly
      those from its start up to, excluding, start + ceil(size / unit). */
  lemma SizedBankRange(address: int, bank: Bank)
    requires bank.addrUnit > 0 && bank.size.Some?
    ensures CheckBank(address, bank) == InBank <==>
      bank.addrStart <= address < bank.addrStart + CeilDiv(bank.size.value, bank.addrUnit)
  {
    if bank.addrStart <= address {
      ScaledBelowIffBelowCeiling(address - bank.addrStart, bank.addrUnit, bank.size.value);
    }
  }

  /** `d * u < s` exactly when `d` is below the ceiling of `s / u`. */
  lemma {:induction false} ScaledBelowIffBelowCeiling(d: nat, u: nat, s: nat)
    requires u > 0
    ensures d * u < s <==> d < CeilDiv(s, u)
    decreases s
  {
    if s > 0 && d > 0 {
      assert d * u == (d - 1) * u + u;
      if s >= u {
        ScaledBelowIffBelowCeiling(d - 1, u, s - u);
      } else {
        assert d * u >= u by { assert (d - 1) * u >= 0; }
      }
    }
  }

  /** Once a step has resolved, repeating it with the same evaluation resolves
      again and leaves the address where it was. */
  lemma ResolvedIsStable(prev: int, evaluation: Evaluation, ctx: ResolverContext, bankdefs: seq<Bank>)
    requires ctx.isLastIteration ==> ctx.bankRef < |bankdefs|
    requires ResolveStep(prev, evaluation, ctx, bankdefs).result == Ok(Resolved)
    ensures var s := ResolveStep(prev, evaluation, ctx, bankdefs);
      ResolveStep(s.address, evaluation, ctx, bankdefs) == s && s.address == prev
  {
  }

  /** The same change of value is silent before the last pass and exactly one
      "did not converge" error on it. */
  lemma FinalPassStrictness(prev: int, v: Value, bankRef: nat, bankdefs: seq<Bank>)
    requires bankRef < |bankdefs| && Coerce(v) != prev
    ensures ResolveStep(prev, Evaluated(v), ResolverContext(false, bankRef), bankdefs)
         == StepOutcome(Coerce(v), None, Ok(Unresolved))
    ensures ResolveStep(prev, Evaluated(v), ResolverContext(true, bankRef), bankdefs)
         == StepOutcome(Coerce(v), Some(AddressDidNotConverge), Ok(Unresolved))
  {
  }

  /** Bank boundaries: the start itself is accepted and one below is not; a
      scaled offset equal to the size is rejected and one below is accepted. */
  lemma BankBoundaries(bank: Bank)
    requires bank.addrUnit == 1 && bank.size.Some? && bank.size.value > 0
    ensures CheckBank(bank.addrStart, bank) == InBank
    ensures CheckBank(bank.addrStart - 1, bank) == BelowStart
    ensures CheckBank(bank.addrStart + bank.size.value, bank) == BeyondSize
    ensures CheckBank(bank.addrStart + bank.size.value - 1, bank) == InBank
  {
  }

  /** A bank at 0x8000 with unit 1 and size 0x4000: a directive that takes
      0x8010, then 0x8020 twice is unresolved for two passes and resolved
      without error on the final third; 0x7FFF and 0xC000 fail the final pass. */
  lemma BankScenarios()
    ensures var banks := [Bank(0x8000, 1, Some(0x4000))];
      var searching, last := ResolverContext(false, 0), ResolverContext(true, 0);
      ResolveStep(0, Evaluated(Integer(0x8010)), searching, banks) == StepOutcome(0x8010, None, Ok(Unresolved)) &&
      ResolveStep(0x8010, Evaluated(Integer(0x8020)), searching, banks) == StepOutcome(0x8020, None, Ok(Unresolved)) &&
      ResolveStep(0x8020, Evaluated(Integer(0x8020)), last, banks) == StepOutcome(0x8020, None, Ok(Resolved)) &&
      ResolveStep(0x7FFF, Evaluated(Integer(0x7FFF)), last, banks) == StepOutcome(0x7FFF, Some(AddressOutOfBankRange), Err) &&
      ResolveStep(0xC000, Evaluated(Integer(0xC000)), last, banks) == StepOutcome(0xC000, Some(AddressOutOfBankRange), Err)
  {
  }
}
