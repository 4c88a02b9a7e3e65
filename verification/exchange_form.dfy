/**
 * The currency exchange form: the conversion rate between the two selected
 * currencies, the filter on what may be typed into the amount field, the
 * effect that recomputes the credited amount and the error whenever its
 * inputs change, the swap button, and the submit guard in front of
 * `handleExchange`.
 *
 * `parseFloat` is not modelled: the parsed amount is a `Parsed` argument.
 * The credited amount field holds either nothing ('') or the text
 * `toFixed(2)` produced; it is modelled as `None` or the rounded value that
 * text denotes, so parsing it back at submit yields NaN or that value.
 */
module ExchangeForm {
  import opened Types

  /** The error line of the form. */
  datatype FormError = NoError | InsufficientFunds

  function ErrorText(e: FormError): string
  {
    match e
    case NoError => ""
    case InsufficientFunds => "Insufficient funds"
  }

  /** The form's state: the two selected currencies, the typed amount, the credited amount and the error. */
  datatype FormState = FormState(from: Currency, to: Currency, fromAmount: string, toAmount: Option<real>, error: FormError)

  /** The form as first shown: USD to EUR, both amounts empty, no error. */
  const InitialForm: FormState := FormState(USD, EUR, "", None, NoError)

  /** Units of `to` obtained per unit of `from`: `rates[to] / rates[from]`. */
  function ConversionRate(rates: ExchangeRates, from: Currency, to: Currency): (r: real)
    requires RatesPositive(rates)
    ensures r > 0.0
    ensures r * rates.Get(from) == rates.Get(to)
    ensures from == to ==> r == 1.0
  {
    var fromRate := rates.Get(from);
    assert fromRate > 0.0 && fromRate / fromRate == 1.0;
    rates.Get(to) / fromRate
  }

  /** Converting one way and then back is the identity: the two rates are reciprocal. */
  lemma ConversionRateReciprocal(rates: ExchangeRates, from: Currency, to: Currency)
    requires RatesPositive(rates)
    ensures ConversionRate(rates, from, to) * ConversionRate(rates, to, from) == 1.0
  {
    RatesReciprocal(ConversionRate(rates, from, to), ConversionRate(rates, to, from), rates.Get(from), rates.Get(to));
  }

  /** Two rates that convert `a` into `b` and `b` back into `a` multiply to 1. */
  lemma RatesReciprocal(r1: real, r2: real, a: real, b: real)
    requires a > 0.0 && r1 * a == b && r2 * b == a
    ensures r1 * r2 == 1.0
  {
    assert (r1 * r2) * a == r2 * (r1 * a);
    assert (r1 * r2 - 1.0) * a == 0.0;
  }

  // ---------------------------------------------------------------------------
  // The amount filter `/^\d*\.?\d*$/`

  predicate IsDigit(ch: char)
  {
    '0' <= ch <= '9'
  }

  ghost predicate AllDigits(s: string)
  {
    forall i :: 0 <= i < |s| ==> IsDigit(s[i])
  }

  /** `s` reads as digits `s[..k]`, then either the end or a '.' at `k` followed by digits only. */
  ghost predicate SplitsAt(s: string, k: int)
  {
    && 0 <= k <= |s|
    && AllDigits(s[..k])
    && (k == |s| || (s[k] == '.' && AllDigits(s[k + 1..])))
  }

  /** The language of `^\d*\.?\d*$`. */
  ghost predicate MatchesAmountPattern(s: string)
  {
    exists k :: SplitsAt(s, k)
  }

  /** The same language described by characters: digits and dots only, and no two dots. */
  ghost predicate DigitsWithAtMostOneDot(s: string)
  {
    && (forall i :: 0 <= i < |s| ==> IsDigit(s[i]) || s[i] == '.')
    && (forall i, j :: 0 <= i < j < |s| && s[i] == '.' ==> s[j] != '.')
  }

  /** The regular expression accepts exactly the strings of digits with at most one '.'. */
  lemma {:induction false} PatternIsDigitsWithAtMostOneDot(s: string)
    ensures MatchesAmountPattern(s) <==> DigitsWithAtMostOneDot(s)
  {
    if MatchesAmountPattern(s) {
      var k :| SplitsAt(s, k);
      forall i | 0 <= i < |s| && i != k ensures IsDigit(s[i]) {
        if i < k {
          assert s[..k][i] == s[i];
        } else {
          assert s[k + 1..][i - k - 1] == s[i];
        }
      }
    }
    if DigitsWithAtMostOneDot(s) {
      if exists d :: 0 <= d < |s| && s[d] == '.' {
        var d :| 0 <= d < |s| && s[d] == '.';
        var prefix, suffix := s[..d], s[d + 1..];
        forall i | 0 <= i < |prefix| ensures IsDigit(prefix[i]) {
          assert prefix[i] == s[i];
        }
        forall i | 0 <= i < |suffix| ensures IsDigit(suffix[i]) {
          assert suffix[i] == s[d + 1 + i];
        }
        assert SplitsAt(s, d);
      } else {
        assert s[..|s|] == s;
        assert SplitsAt(s, |s|);
      }
    }
  }

  /** Runs the pattern as a two-state scanner: before the dot, after the dot. */
  method AcceptsAmountInput(s: string) returns (ok: bool)
    ensures ok <==> MatchesAmountPattern(s)
    ensures ok <==> DigitsWithAtMostOneDot(s)
  {
    PatternIsDigitsWithAtMostOneDot(s);
    var seenDot := false;
    var i := 0;
    while i < |s|
      invariant 0 <= i <= |s|
      invariant forall j :: 0 <= j < i ==> IsDigit(s[j]) || s[j] == '.'
      invariant forall j, l :: 0 <= j < l < i && s[j] == '.' ==> s[l] != '.'
      invariant seenDot <==> exists j :: 0 <= j < i && s[j] == '.'
    {
      if IsDigit(s[i]) {
      } else if s[i] == '.' && !seenDot {
        seenDot := true;
      } else {
        return false;
      }
      i := i + 1;
    }
    return true;
  }

  /** The amount field's change handler: the typed text replaces the field only if the pattern accepts it. */
  method HandleFromAmountChange(form: FormState, value: string) returns (next: FormState)
    ensures MatchesAmountPattern(value) ==> next == form.(fromAmount := value)
    ensures !MatchesAmountPattern(value) ==> next == form
    ensures MatchesAmountPattern(form.fromAmount) ==> MatchesAmountPattern(next.fromAmount)
  {
    var ok := AcceptsAmountInput(value);
    next := if ok then form.(fromAmount := value) else form;
  }

  // ---------------------------------------------------------------------------
  // Rounding of the credited amount, `toFixed(2)`

  /** `x` is a whole number of cents. */
  ghost predicate IsCents(x: real)
  {
    (x * 100.0).Floor as real == x * 100.0
  }

  /**
   * `x.toFixed(2)` read back as a number: the nearest multiple of 0.01,
   * halves rounded away from zero (`toFixed` rounds the magnitude and picks
   * the larger of two equally near candidates).
   */
  function RoundCents(x: real): (r: real)
    ensures IsCents(r)
    ensures x - 0.005 <= r <= x + 0.005
    ensures x >= 0.0 ==> x - 0.005 < r
    ensures x <= 0.0 ==> r < x + 0.005
    ensures x >= 0.0 ==> r >= 0.0
    ensures IsCents(x) ==> r == x
  {
    if x >= 0.0 then RoundHalfUp(x)
    else
      var up := RoundHalfUp(-x);
      CentsNegate(up);
      CentsNegate(x);
      -up
  }

  /** Rounding of a non-negative amount to cents, a half cent going up. */
  function RoundHalfUp(x: real): (r: real)
    requires x >= 0.0
    ensures IsCents(r)
    ensures x - 0.005 < r <= x + 0.005 && r >= 0.0
    ensures IsCents(x) ==> r == x
  {
    var n := (x * 100.0 + 0.5).Floor;
    CentsOfInt(n);
    RoundHalfUpExact(x, n);
    n as real / 100.0
  }

  lemma CentsOfInt(n: int)
    ensures IsCents(n as real / 100.0)
  {
    assert (n as real / 100.0) * 100.0 == n as real;
  }

  lemma RoundHalfUpExact(x: real, n: int)
    requires x >= 0.0 && n == (x * 100.0 + 0.5).Floor
    ensures IsCents(x) ==> n as real / 100.0 == x
  {
    if IsCents(x) {
      var m := (x * 100.0).Floor;
      assert m as real + 0.5 == x * 100.0 + 0.5;
      assert n == m;
    }
  }

  lemma CentsNegate(r: real)
    ensures IsCents(r) ==> IsCents(-r)
  {
    if IsCents(r) {
      var m := (r * 100.0).Floor;
      assert (-r) * 100.0 == (-m) as real;
      assert ((-m) as real).Floor == -m;
    }
  }

  /** A half-cent tie goes to the larger magnitude: 0.125 becomes 0.13 and -0.125 becomes -0.13. */
  lemma RoundCentsTieAwayFromZero()
    ensures RoundCents(0.125) == 0.13
    ensures RoundCents(-0.125) == -0.13
  {
    assert (0.125 * 100.0 + 0.5).Floor == 13;
  }

  /** Rounding twice is rounding once. */
  lemma RoundCentsIdempotent(x: real)
    ensures RoundCents(RoundCents(x)) == RoundCents(x)
  {
  }

  // ---------------------------------------------------------------------------
  // The validation effect and the submit guard

  /**
   * The effect re-run whenever the typed amount, the rate or the `from`
   * account changes. `amount` is `parseFloat(form.fromAmount)`. A positive
   * amount above the `from` balance reports insufficient funds and clears the
   * credited amount; any other positive amount clears the error and sets the
   * credited amount to `amount * rate` rounded to cents; a missing or
   * non-positive amount clears the credited amount, and clears the error
   * only when the field is not empty.
   */
  function Revalidate(form: FormState, amount: Parsed, user: User, rates: ExchangeRates): (next: FormState)
    requires RatesPositive(rates)
    ensures next.from == form.from && next.to == form.to && next.fromAmount == form.fromAmount
    ensures next.error == InsufficientFunds <==>
      (|| (amount.Num? && amount.value > 0.0
           && FindAccount(user.accounts, form.from).Some?
           && amount.value > FindAccount(user.accounts, form.from).value.balance)
       || ((amount.NaN? || amount.value <= 0.0) && form.fromAmount == "" && form.error == InsufficientFunds))
    ensures next.toAmount.Some? <==>
      (amount.Num? && amount.value > 0.0 && next.error == NoError)
    ensures next.toAmount.Some? ==>
      && IsCents(next.toAmount.value)
      && next.toAmount.value >= 0.0
      && amount.value * ConversionRate(rates, form.from, form.to) - 0.005 < next.toAmount.value
      && next.toAmount.value <= amount.value * ConversionRate(rates, form.from, form.to) + 0.005
  {
    var fromAccount := FindAccount(user.accounts, form.from);
    var rate := ConversionRate(rates, form.from, form.to);
    if amount.Num? && amount.value > 0.0 then
      if fromAccount.Some? && amount.value > fromAccount.value.balance then
        form.(error := InsufficientFunds, toAmount := None)
      else
        form.(error := NoError, toAmount := Some(RoundCents(amount.value * rate)))
    else
      form.(toAmount := None, error := if form.fromAmount != "" then NoError else form.error)
  }

  /** `parseFloat(toAmount)`: the empty field is NaN, otherwise the value its text denotes. */
  function ParseToAmount(toAmount: Option<real>): (p: Parsed)
    ensures p.NaN? <==> toAmount.None?
    ensures toAmount.Some? ==> p.value == toAmount.value
  {
    match toAmount
    case None => NaN
    case Some(v) => Num(v)
  }

  /** The swap button exchanges the two selected currencies. */
  function Swap(form: FormState): (next: FormState)
    ensures next.from == form.to && next.to == form.from
    ensures next.fromAmount == form.fromAmount && next.toAmount == form.toAmount && next.error == form.error
  {
    form.(from := form.to, to := form.from)
  }

  /** Swapping twice restores the form. */
  lemma SwapInvolutive(form: FormState)
    ensures Swap(Swap(form)) == form
  {
  }

  /** After a swap the rate shown is the reciprocal of the rate before it. */
  lemma SwapInvertsRate(form: FormState, rates: ExchangeRates)
    requires RatesPositive(rates)
    ensures ConversionRate(rates, Swap(form).from, Swap(form).to) * ConversionRate(rates, form.from, form.to) == 1.0
  {
    ConversionRateReciprocal(rates, form.to, form.from);
  }

  /** What pressing "Confirm Exchange" does. */
  datatype SubmitOutcome =
    | Exchange(from: Currency, to: Currency, fromAmount: real, toAmount: real)  // `onExchange` is called
    | ReportInsufficient                                                      // the error becomes 'Insufficient funds'
    | Ignore                                                                  // nothing happens
    | Throws                                                                  // `fromAccount!.balance` on a missing account

  /**
   * `handleSubmit`: `fromAmt` is `parseFloat(form.fromAmount)`. The exchange
   * goes ahead only with no error, both amounts positive, and a `from`
   * account whose balance covers `fromAmt`; the amounts are passed on
   * unchanged. Otherwise a missing `from` account makes the fallback test
   * dereference `undefined`, and an amount above the balance reports
   * insufficient funds.
   */
  function Submit(form: FormState, fromAmt: Parsed, user: User): (o: SubmitOutcome)
    ensures o.Exchange? <==>
      && form.error == NoError
      && fromAmt.Num? && fromAmt.value > 0.0
      && form.toAmount.Some? && form.toAmount.value > 0.0
      && FindAccount(user.accounts, form.from).Some?
      && fromAmt.value <= FindAccount(user.accounts, form.from).value.balance
    ensures o.Exchange? ==>
      o == Exchange(form.from, form.to, fromAmt.value, form.toAmount.value)
    ensures o.Throws? <==> !o.Exchange? && FindAccount(user.accounts, form.from).None?
    ensures o.ReportInsufficient? <==>
      && !o.Exchange?
      && FindAccount(user.accounts, form.from).Some?
      && fromAmt.Num? && fromAmt.value > FindAccount(user.accounts, form.from).value.balance
  {
    var fromAccount := FindAccount(user.accounts, form.from);
    var toAmt := ParseToAmount(form.toAmount);
    if && form.error == NoError
       && fromAmt.Num? && fromAmt.value > 0.0
       && toAmt.Num? && toAmt.value > 0.0
       && fromAccount.Some?
       && fromAmt.value <= fromAccount.value.balance
    then Exchange(form.from, form.to, fromAmt.value, toAmt.value)
    else if fromAccount.None? then Throws
    else if fromAmt.Num? && fromAmt.value > fromAccount.value.balance then ReportInsufficient
    else Ignore
  }

  /** The shown error is non-empty exactly for insufficient funds, so `!error` is `error == NoError`. */
  lemma ErrorShownIffInsufficient(e: FormError)
    ensures ErrorText(e) != "" <==> e == InsufficientFunds
  {
  }

  /** Confirming a form whose error is set never exchanges. */
  lemma SubmitWithError(form: FormState, amount: Parsed, user: User)
    requires form.error == InsufficientFunds
    ensures !Submit(form, amount, user).Exchange?
  {
  }

  /** Confirming a form with an empty credited field never exchanges. */
  lemma SubmitWithoutCredit(form: FormState, amount: Parsed, user: User)
    requires form.toAmount.None?
    ensures !Submit(form, amount, user).Exchange?
  {
  }

  /**
   * Confirming a form with no error and the credited amount `v`: the exchange
   * goes ahead exactly when the amount is positive, covered and `v` is positive.
   */
  lemma SubmitWithCredit(form: FormState, amount: Parsed, user: User, v: real)
    requires form.error == NoError && form.toAmount == Some(v)
    ensures var account := FindAccount(user.accounts, form.from);
            Submit(form, amount, user).Exchange? <==>
              amount.Num? && amount.value > 0.0 && account.Some? && amount.value <= account.value.balance && v > 0.0
    ensures Submit(form, amount, user).Exchange? ==> Submit(form, amount, user) == Exchange(form.from, form.to, amount.value, v)
  {
  }

  /**
   * Pressing "Confirm Exchange" right after the effect has run on the typed
   * amount: the exchange goes ahead exactly when the amount is positive, a
   * `from` account covers it and the credited amount the effect computed (the
   * conversion rounded to cents, see `Revalidate`) is positive; `onExchange`
   * then receives the typed amount and that credited amount.
   */
  lemma RevalidatedSubmit(form: FormState, amount: Parsed, user: User, rates: ExchangeRates)
    requires RatesPositive(rates)
    ensures var next := Revalidate(form, amount, user, rates);
            var account := FindAccount(user.accounts, form.from);
            Submit(next, amount, user).Exchange? <==>
              && amount.Num? && amount.value > 0.0
              && account.Some? && amount.value <= account.value.balance
              && next.toAmount.Some? && next.toAmount.value > 0.0
    ensures var next := Revalidate(form, amount, user, rates);
            Submit(next, amount, user).Exchange? ==>
              Submit(next, amount, user) == Exchange(form.from, form.to, amount.value, next.toAmount.value)
  {
    var next := Revalidate(form, amount, user, rates);
    if next.error == InsufficientFunds {
      SubmitWithError(next, amount, user);
    } else if next.toAmount.Some? {
      SubmitWithCredit(next, amount, user, next.toAmount.value);
    } else {
      SubmitWithoutCredit(next, amount, user);
    }
  }

  /** After the effect, an amount above an existing `from` balance reports insufficient funds on confirming. */
  lemma RevalidatedOverdraftReported(form: FormState, amount: Parsed, user: User, rates: ExchangeRates)
    requires RatesPositive(rates)
    ensures var account := FindAccount(user.accounts, form.from);
            account.Some? && amount.Num? && amount.value > account.value.balance ==>
              Submit(Revalidate(form, amount, user, rates), amount, user) == ReportInsufficient
  {
  }

  /**
   * The form as first shown, with the amount field empty (`parseFloat('')` is
   * NaN): the effect leaves it as it is, it shows no error, and confirming it
   * exchanges nothing (it throws when the user has no USD account).
   */
  lemma InitialFormIsQuiet(user: User, rates: ExchangeRates)
    requires RatesPositive(rates)
    ensures Revalidate(InitialForm, NaN, user, rates) == InitialForm
    ensures ErrorText(InitialForm.error) == ""
    ensures Submit(InitialForm, NaN, user) == (if FindAccount(user.accounts, USD).None? then Throws else Ignore)
  {
  }
}
