/**
 * The converter screen's session state (src/App.tsx, `USDConverter`): the
 * amount text, the selected target currency, the last result, the error
 * message and the converting flag, with one method per user event and one
 * for the delayed completion of a conversion.
 */
module Converter {

  import opened Wrappers
  import CurrencyLabels

  const INVALID_AMOUNT: string := "Please enter a valid amount"
  const FETCH_FAILED: string := "Failed to fetch exchange rates"
  const DEFAULT_TARGET: string := "inr"

  /** The currencies offered as quick buttons under the form. */
  const QUICK_TARGETS: seq<string> := ["inr", "eur", "gbp", "jpy", "aud"]

  /** The number JavaScript reads from the amount text: not a number, or a value. */
  datatype Reading = NaN | Number(value: real)

  /** The text of the amount field together with its numeric reading. */
  datatype AmountInput = AmountInput(text: string, reading: Reading)

  const EMPTY_AMOUNT: AmountInput := AmountInput("", NaN)

  /** The response of the rate source: its as-of date and the rates per US dollar. */
  datatype RatePayload = RatePayload(date: string, rates: map<string, real>)

  /**
   * A stored conversion result.  `rate` is `None` when the target is not in the rate
   * table (`undefined` in the source), and `amount` is `None` when the product
   * is not a number.
   */
  datatype ConversionResult = ConversionResult(amount: Option<real>, rate: Option<real>, currency: string)

  /** What the delayed conversion captured when it was scheduled: the amount and the target. */
  datatype Request = Request(amount: AmountInput, target: string)

  /** The check in `handleConvert`: non-empty, a number, and above zero. */
  predicate ValidAmount(a: AmountInput): (v: bool)
    ensures a.text == "" || a.reading.NaN? ==> !v
    ensures v ==> a.reading.Number? && a.reading.value > 0.0
  {
    a.text != "" && a.reading.Number? && a.reading.value > 0.0
  }

  /** `currencies[targetCurrency]`. */
  function RateOf(rates: map<string, real>, code: string): (r: Option<real>)
    ensures r.Some? <==> code in rates
    ensures r.Some? ==> r.value == rates[code]
  {
    if code in rates then Some(rates[code]) else None
  }

  /**
   * The result the completed conversion stores: the amount times the rate, the
   * rate, and the upper-cased target.
   */
  function Conversion(req: Request, rates: map<string, real>): (r: ConversionResult)
    ensures r.currency == CurrencyLabels.Upper(req.target)
    ensures r.rate == RateOf(rates, req.target)
    ensures r.amount.Some? <==> req.target in rates && req.amount.reading.Number?
  {
    var rate := RateOf(rates, req.target);
    var converted :=
      if rate.Some? && req.amount.reading.Number? then Some(req.amount.reading.value * rate.value) else None;
    ConversionResult(converted, rate, CurrencyLabels.Upper(req.target))
  }

  /** The shown currency is the code part of the target's label in the selector. */
  lemma ResultCurrencyMatchesLabel(req: Request, rates: map<string, real>)
    ensures CurrencyLabels.Label(req.target)[..|req.target|] == Conversion(req, rates).currency
  {
  }

  /** A valid amount at a positive rate converts to a positive amount. */
  lemma ConversionPositive(req: Request, rates: map<string, real>)
    requires ValidAmount(req.amount)
    requires req.target in rates && rates[req.target] > 0.0
    ensures Conversion(req, rates).amount.Some? && Conversion(req, rates).amount.value > 0.0
  {
    var x, y := req.amount.reading.value, rates[req.target];
    assert x * y > 0.0 by { assert x * y > 0.0 * y; }
  }

  /**
   * The shown unit rate ("1 USD = rate") is the shown amount divided by the
   * entered amount.
   */
  lemma UnitRateConsistent(req: Request, rates: map<string, real>)
    requires ValidAmount(req.amount) && req.target in rates
    ensures Conversion(req, rates).amount.Some? && Conversion(req, rates).rate.Some?
    ensures Conversion(req, rates).amount.value / req.amount.reading.value == Conversion(req, rates).rate.value
  {
  }

  class Session {
    const currencies: map<string, real>
    const date: string
    var amount: AmountInput
    var targetCurrency: string
    var result: Option<ConversionResult>
    var error: string
    var converting: bool
    /** The conversion scheduled by `setTimeout` and not yet run, with what it captured. */
    var pending: Option<Request>

    /**
     * A conversion is scheduled exactly while the button shows "Converting...";
     * meanwhile no error is shown, and what it captured passed the amount check.
     */
    ghost predicate Valid()
      reads this
    {
      && (converting <==> pending.Some?)
      && (converting ==> error == "")
      && (pending.Some? ==> ValidAmount(pending.value.amount))
    }

    /**
     * The screen once the rate request has settled: with the rates and date it
     * returned, or with an empty table and the fetch error.
     */
    constructor (fetched: Option<RatePayload>)
      ensures Valid()
      ensures amount == EMPTY_AMOUNT && targetCurrency == DEFAULT_TARGET
      ensures result == None && !converting && pending == None
      ensures fetched.Some? ==> currencies == fetched.value.rates && date == fetched.value.date && error == ""
      ensures fetched.None? ==> currencies == map[] && date == "" && error == FETCH_FAILED
    {
      match fetched {
        case Some(payload) =>
          currencies := payload.rates;
          date := payload.date;
          error := "";
        case None =>
          currencies := map[];
          date := "";
          error := FETCH_FAILED;
      }
      amount := EMPTY_AMOUNT;
      targetCurrency := DEFAULT_TARGET;
      result := None;
      converting := false;
      pending := None;
    }

    /** Typing in the amount field: the new text, no result and no error. */
    method EditAmount(value: AmountInput)
      requires Valid()
      modifies this
      ensures Valid()
      ensures amount == value && result == None && error == ""
      ensures targetCurrency == old(targetCurrency) && converting == old(converting) && pending == old(pending)
    {
      amount := value;
      result := None;
      error := "";
    }

    /** Choosing a target in the selector: the new target and no result; the error stays. */
    method SelectTarget(code: string)
      requires Valid()
      modifies this
      ensures Valid()
      ensures targetCurrency == code && result == None
      ensures amount == old(amount) && error == old(error)
      ensures converting == old(converting) && pending == old(pending)
    {
      targetCurrency := code;
      result := None;
    }

    /** Pressing the quick button at position `k`: as choosing that code in the selector. */
    method QuickSelect(k: nat)
      requires Valid()
      requires k < |QUICK_TARGETS|
      modifies this
      ensures Valid()
      ensures targetCurrency == QUICK_TARGETS[k] && result == None
      ensures amount == old(amount) && error == old(error)
      ensures converting == old(converting) && pending == old(pending)
    {
      targetCurrency := QUICK_TARGETS[k];
      result := None;
    }

    /**
     * `handleConvert`, run by the Convert button, which is disabled while a
     * conversion is pending.  An invalid amount only sets the error message;
     * a valid one clears the error, sets the converting flag and schedules the
     * conversion of the current amount into the current target.  The stored
     * result is left as it is either way.
     */
    method HandleConvert()
      requires Valid() && !converting
      modifies this
      ensures Valid()
      ensures amount == old(amount) && targetCurrency == old(targetCurrency) && result == old(result)
      ensures !ValidAmount(amount) ==> error == INVALID_AMOUNT && !converting && pending == None
      ensures ValidAmount(amount) ==> error == "" && converting && pending == Some(Request(amount, targetCurrency))
    {
      if !ValidAmount(amount) {
        error := INVALID_AMOUNT;
        return;
      }
      error := "";
      converting := true;
      pending := Some(Request(amount, targetCurrency));
    }

    /**
     * The `setTimeout` callback: stores the conversion of what was captured
     * when it was scheduled and clears the converting flag.
     */
    method CompleteConversion()
      requires Valid() && pending.Some?
      modifies this
      ensures Valid()
      ensures result == Some(Conversion(old(pending).value, currencies))
      ensures result.value.amount.Some? <==> old(pending).value.target in currencies
      ensures !converting && pending == None
      ensures amount == old(amount) && targetCurrency == old(targetCurrency) && error == old(error)
    {
      result := Some(Conversion(pending.value, currencies));
      converting := false;
      pending := None;
    }
  }

  /** 100 US dollars at 83.1 rupees each: the screen shows 8310 INR at 83.1. */
  method SampleConversion() returns (s: Session)
    ensures s.result == Some(ConversionResult(Some(8310.0), Some(83.1), "INR"))
    ensures s.error == "" && !s.converting
  {
    s := new Session(Some(RatePayload("2024-01-01", map["usd" := 1.0, "inr" := 83.1])));
    s.EditAmount(AmountInput("100", Number(100.0)));
    s.HandleConvert();
    s.CompleteConversion();
    UpperInr();
  }

  /** "0" is rejected with the fixed message and nothing is scheduled. */
  method ZeroAmountRejected() returns (s: Session)
    ensures s.error == INVALID_AMOUNT && s.result == None && !s.converting && s.pending == None
  {
    s := new Session(Some(RatePayload("2024-01-01", map["inr" := 83.1])));
    s.EditAmount(AmountInput("0", Number(0.0)));
    s.HandleConvert();
  }

  /**
   * Choosing another target while a conversion is pending does not cancel it:
   * the result that appears is for the target captured when Convert was pressed.
   */
  method RetargetWhileConverting() returns (s: Session)
    ensures s.targetCurrency == "eur"
    ensures s.result.Some? && s.result.value.currency == "INR"
  {
    s := new Session(Some(RatePayload("2024-01-01", map["inr" := 83.1, "eur" := 0.92])));
    s.EditAmount(AmountInput("5", Number(5.0)));
    s.HandleConvert();
    s.SelectTarget("eur");
    s.CompleteConversion();
    UpperInr();
  }

  /**
   * After a failed fetch the table is empty but conversion is not blocked: the
   * result has no rate and no amount.
   */
  method ConvertWithoutRates() returns (s: Session)
    ensures s.currencies == map[] && s.error == ""
    ensures s.result == Some(ConversionResult(None, None, "INR"))
  {
    s := new Session(None);
    s.EditAmount(AmountInput("5", Number(5.0)));
    s.HandleConvert();
    s.CompleteConversion();
    UpperInr();
  }

  lemma UpperInr()
    ensures CurrencyLabels.Upper(DEFAULT_TARGET) == "INR"
  {
    var up := CurrencyLabels.Upper(DEFAULT_TARGET);
    assert up[0] == 'I' && up[1] == 'N' && up[2] == 'R';
  }
}
