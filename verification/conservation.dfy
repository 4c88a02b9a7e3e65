/**
 * Value conservation of the ledger mutations, measured by the dashboard's
 * valuation: an exchange between two different currencies at the form's
 * rate leaves the fiat total unchanged (and moves it by at most half a cent
 * of the credited currency once the credited amount is rounded), and a trade
 * at one price snapshot leaves the net worth unchanged. An exchange of a
 * currency into itself, as written, destroys the amount exchanged.
 */
module Conservation {
  import opened Types
  import opened Constants
  import opened Ledger
  import opened ExchangeForm
  import opened Valuation

  /** The change made to a balance in currency `cur`: `d1` for `c1`, else `d2` for `c2`, else nothing. */
  function Adjustment(cur: Currency, c1: Currency, d1: real, c2: Currency, d2: real): real
  {
    if cur == c1 then d1 else if cur == c2 then d2 else 0.0
  }

  /** USD value of the adjustment made to one account in currency `cur`. */
  function FiatDelta(cur: Currency, rates: ExchangeRates, c1: Currency, d1: real, c2: Currency, d2: real): real
    requires RatesPositive(rates)
  {
    Adjustment(cur, c1, d1, c2, d2) / rates.Get(cur)
  }

  /** USD value of all the adjustments made to an account list. */
  function SumFiatDeltas(a: seq<Account>, rates: ExchangeRates, c1: Currency, d1: real, c2: Currency, d2: real): real
    requires RatesPositive(rates)
  {
    if |a| == 0 then 0.0
    else FiatDelta(a[0].currency, rates, c1, d1, c2, d2) + SumFiatDeltas(a[1..], rates, c1, d1, c2, d2)
  }

  /** Adjusting balances moves the fiat total by the USD value of the adjustments. */
  lemma {:induction false} SumFiatAdjusted(a: seq<Account>, r: seq<Account>, rates: ExchangeRates,
                                           c1: Currency, d1: real, c2: Currency, d2: real)
    requires RatesPositive(rates)
    requires |r| == |a|
    requires forall i :: 0 <= i < |a| ==>
               r[i].currency == a[i].currency && r[i].balance == a[i].balance + Adjustment(a[i].currency, c1, d1, c2, d2)
    ensures SumFiat(r, rates) == SumFiat(a, rates) + SumFiatDeltas(a, rates, c1, d1, c2, d2)
  {
    if |a| > 0 {
      SumFiatAdjusted(a[1..], r[1..], rates, c1, d1, c2, d2);
      var q := rates.Get(a[0].currency);
      assert q > 0.0;
      DivAdd(a[0].balance, Adjustment(a[0].currency, c1, d1, c2, d2), q);
    }
  }

  /**
   * When each adjusted currency is held in at most one account, the
   * adjustments are worth their USD value once per currency present.
   */
  lemma {:induction false} SumFiatDeltasOnce(a: seq<Account>, rates: ExchangeRates, c1: Currency, d1: real, c2: Currency, d2: real)
    requires RatesPositive(rates)
    requires Count(FiatKeys(a), c1) <= 1 && Count(FiatKeys(a), c2) <= 1
    ensures SumFiatDeltas(a, rates, c1, d1, c2, d2)
         == (if Count(FiatKeys(a), c1) == 1 then d1 / rates.Get(c1) else 0.0)
            + (if c2 != c1 && Count(FiatKeys(a), c2) == 1 then d2 / rates.Get(c2) else 0.0)
  {
    if |a| > 0 {
      var cur := a[0].currency;
      assert FiatKeys(a) == [cur] + FiatKeys(a[1..]);
      SumFiatDeltasOnce(a[1..], rates, c1, d1, c2, d2);
      if cur == c1 {
        assert FiatDelta(cur, rates, c1, d1, c2, d2) == d1 / rates.Get(c1);
      } else if cur == c2 {
        assert FiatDelta(cur, rates, c1, d1, c2, d2) == d2 / rates.Get(c2);
      } else {
        assert FiatDelta(cur, rates, c1, d1, c2, d2) == 0.0;
      }
    }
  }

  /** Division by a non-zero rate distributes over a sum. */
  lemma DivAdd(b: real, d: real, q: real)
    requires q != 0.0
    ensures (b + d) / q == b / q + d / q
  {
  }

  /**
   * Adjusting by `d` the balance of an asset held in at most one account
   * moves the crypto total by the adjustment's USD value `v`, if the asset
   * is held.
   */
  lemma {:induction false} SumCryptoAdjusted(a: seq<CryptoAccount>, r: seq<CryptoAccount>, prices: CryptoPrices,
                                             c: CryptoCurrency, d: real, v: real)
    requires |r| == |a|
    requires forall i :: 0 <= i < |a| ==>
               r[i].currency == a[i].currency && r[i].balance == a[i].balance + (if a[i].currency == c then d else 0.0)
    requires Count(CryptoKeys(a), c) <= 1
    requires v == d * prices.Get(c)
    ensures SumCrypto(r, prices) == SumCrypto(a, prices) + (if Count(CryptoKeys(a), c) == 1 then v else 0.0)
  {
    if |a| > 0 {
      assert CryptoKeys(a) == [a[0].currency] + CryptoKeys(a[1..]);
      SumCryptoAdjusted(a[1..], r[1..], prices, c, d, v);
      var p := prices.Get(a[0].currency);
      if a[0].currency == c {
        assert (a[0].balance + d) * p == a[0].balance * p + d * p;
      }
    }
  }

  /**
   * The fiat total after `handleExchange`, for any amounts and currencies
   * each held in at most one account: the debit is worth `fromAmount` of
   * `from`, the credit (lost when `to` is `from`) `toAmount` of `to`.
   */
  lemma FiatTotalAfterExchange(accounts: seq<Account>, rates: ExchangeRates, from: Currency, to: Currency,
                               fromAmount: real, toAmount: real)
    requires RatesPositive(rates)
    requires Count(FiatKeys(accounts), from) <= 1 && Count(FiatKeys(accounts), to) <= 1
    ensures TotalFiatBalanceUSD(ExchangeAccounts(accounts, from, to, fromAmount, toAmount), rates)
         == TotalFiatBalanceUSD(accounts, rates)
            + (if Count(FiatKeys(accounts), from) == 1 then (-fromAmount) / rates.Get(from) else 0.0)
            + (if to != from && Count(FiatKeys(accounts), to) == 1 then toAmount / rates.Get(to) else 0.0)
  {
    var r := ExchangeAccounts(accounts, from, to, fromAmount, toAmount);
    ExchangeAdjusts(accounts, from, to, fromAmount, toAmount);
    SumFiatAdjusted(accounts, r, rates, from, -fromAmount, to, toAmount);
    SumFiatDeltasOnce(accounts, rates, from, -fromAmount, to, toAmount);
  }

  /** `handleExchange` adjusts each balance by its `Adjustment` and keeps each currency. */
  lemma ExchangeAdjusts(accounts: seq<Account>, from: Currency, to: Currency, fromAmount: real, toAmount: real)
    ensures var r := ExchangeAccounts(accounts, from, to, fromAmount, toAmount);
            forall i :: 0 <= i < |accounts| ==>
              && r[i].currency == accounts[i].currency
              && r[i].balance == accounts[i].balance + Adjustment(accounts[i].currency, from, -fromAmount, to, toAmount)
  {
    var r := ExchangeAccounts(accounts, from, to, fromAmount, toAmount);
    forall i | 0 <= i < |accounts|
      ensures r[i].currency == accounts[i].currency
    {
      assert FiatKeys(r)[i] == FiatKeys(accounts)[i];
    }
  }

  /** A credit converted at the form's rate is worth, in USD, what the debit was. */
  lemma CreditOffsetsDebit(rates: ExchangeRates, from: Currency, to: Currency, x: real)
    requires RatesPositive(rates)
    ensures (-x) / rates.Get(from) + (x * ConversionRate(rates, from, to)) / rates.Get(to) == 0.0
  {
    var rf, rt, rate := rates.Get(from), rates.Get(to), ConversionRate(rates, from, to);
    assert rf > 0.0 && rt > 0.0 && rate * rf == rt;
    assert rate == rt / rf;
    assert (x * rate) / rt == x / rf;
  }

  /** A value within half a cent of `exact` is worth within half a cent of `to` of it. */
  lemma RoundingErrorBound(exact: real, rounded: real, rt: real)
    requires rt > 0.0 && exact - 0.005 <= rounded <= exact + 0.005
    ensures exact / rt - 0.005 / rt <= rounded / rt <= exact / rt + 0.005 / rt
  {
    assert rounded / rt - exact / rt == (rounded - exact) / rt;
  }

  /**
   * An exchange between two different currencies, each held in exactly one
   * account, crediting the unrounded `fromAmount * rates[to] / rates[from]`,
   * leaves the USD value of the fiat accounts unchanged.
   */
  lemma ExchangeConservesFiatTotal(accounts: seq<Account>, rates: ExchangeRates, from: Currency, to: Currency, fromAmount: real)
    requires RatesPositive(rates)
    requires from != to
    requires Count(FiatKeys(accounts), from) == 1 && Count(FiatKeys(accounts), to) == 1
    ensures TotalFiatBalanceUSD(ExchangeAccounts(accounts, from, to, fromAmount, fromAmount * ConversionRate(rates, from, to)), rates)
         == TotalFiatBalanceUSD(accounts, rates)
  {
    CreditOffsetsDebit(rates, from, to, fromAmount);
    FiatTotalAfterExchange(accounts, rates, from, to, fromAmount, fromAmount * ConversionRate(rates, from, to));
  }

  /**
   * With the credited amount rounded to cents, as the form passes it, the
   * fiat total moves by at most half a cent of the credited currency.
   */
  lemma RoundedExchangeNearlyConservesFiatTotal(accounts: seq<Account>, rates: ExchangeRates, from: Currency, to: Currency,
                                                fromAmount: real)
    requires RatesPositive(rates)
    requires from != to
    requires Count(FiatKeys(accounts), from) == 1 && Count(FiatKeys(accounts), to) == 1
    ensures var before := TotalFiatBalanceUSD(accounts, rates);
            var after := TotalFiatBalanceUSD(
              ExchangeAccounts(accounts, from, to, fromAmount, RoundCents(fromAmount * ConversionRate(rates, from, to))), rates);
            before - 0.005 / rates.Get(to) <= after <= before + 0.005 / rates.Get(to)
  {
    var exact := fromAmount * ConversionRate(rates, from, to);
    var rounded := RoundCents(exact);
    CreditOffsetsDebit(rates, from, to, fromAmount);
    RoundingErrorBound(exact, rounded, rates.Get(to));
    FiatTotalAfterExchange(accounts, rates, from, to, fromAmount, rounded);
  }

  /**
   * As written, exchanging a currency held in one account into itself
   * lowers the fiat total by the amount's USD value: the credit is lost.
   */
  lemma SameCurrencyExchangeLosesValue(accounts: seq<Account>, rates: ExchangeRates, c: Currency, fromAmount: real, toAmount: real)
    requires RatesPositive(rates)
    requires Count(FiatKeys(accounts), c) == 1
    ensures TotalFiatBalanceUSD(ExchangeAccounts(accounts, c, c, fromAmount, toAmount), rates)
         == TotalFiatBalanceUSD(accounts, rates) - fromAmount / rates.Get(c)
  {
    FiatTotalAfterExchange(accounts, rates, c, c, fromAmount, toAmount);
    NegateDiv(fromAmount, rates.Get(c));
  }

  /** Negation commutes with division by a positive rate. */
  lemma NegateDiv(x: real, q: real)
    requires q > 0.0
    ensures (-x) / q == -(x / q)
  {
  }

  /** A concrete instance: moving 100 USD into USD from the seed ledger leaves 14900.75 USD. */
  lemma SameCurrencyExchangeExample()
    ensures HandleExchange(Some(InitialUser), USD, USD, 100.0, 100.0).value.accounts[0].balance == 14900.75
  {
  }

  /**
   * The intended exchange conserves the fiat total for every pair of
   * currencies, the same currency included.
   */
  lemma IntendedExchangeConservesFiatTotal(accounts: seq<Account>, rates: ExchangeRates, from: Currency, to: Currency, fromAmount: real)
    requires RatesPositive(rates)
    requires Count(FiatKeys(accounts), from) == 1 && Count(FiatKeys(accounts), to) == 1
    ensures TotalFiatBalanceUSD(IntendedExchangeAccounts(accounts, from, to, fromAmount, fromAmount * ConversionRate(rates, from, to)), rates)
         == TotalFiatBalanceUSD(accounts, rates)
  {
    var toAmount := fromAmount * ConversionRate(rates, from, to);
    if from == to {
      IntendedSameCurrencyExchangeIsNoOp(accounts, from, fromAmount);
    } else {
      IntendedExchangeAgreesOnDistinctCurrencies(accounts, from, to, fromAmount, toAmount);
      ExchangeConservesFiatTotal(accounts, rates, from, to, fromAmount);
    }
  }

  /** Signed change a trade of `amount` makes to the side that pays on a buy (USD). */
  function Paid(kind: TradeType, amount: real): real
  {
    if kind == Buy then -amount else amount
  }

  /** Signed change a trade of `amount` makes to the side that is paid on a buy (the asset). */
  function Received(kind: TradeType, amount: real): real
  {
    if kind == Buy then amount else -amount
  }

  /** The fiat side of a trade adjusts each USD balance by the USD paid or received, and keeps each currency. */
  lemma TradeFiatAdjusts(accounts: seq<Account>, kind: TradeType, amountUSD: real)
    ensures var r := TradeFiatAccounts(accounts, kind, amountUSD);
            forall i :: 0 <= i < |accounts| ==>
              && r[i].currency == accounts[i].currency
              && r[i].balance == accounts[i].balance + Adjustment(accounts[i].currency, USD, Paid(kind, amountUSD), USD, 0.0)
  {
    var r := TradeFiatAccounts(accounts, kind, amountUSD);
    forall i | 0 <= i < |accounts|
      ensures r[i].currency == accounts[i].currency
    {
      assert FiatKeys(r)[i] == FiatKeys(accounts)[i];
    }
  }

  /** The crypto side of a trade adjusts each balance of the asset, and keeps each asset. */
  lemma TradeCryptoAdjusts(accounts: seq<CryptoAccount>, crypto: CryptoCurrency, kind: TradeType, cryptoAmount: real)
    ensures var r := TradeCryptoAccounts(accounts, crypto, kind, cryptoAmount);
            forall i :: 0 <= i < |accounts| ==>
              && r[i].currency == accounts[i].currency
              && r[i].balance == accounts[i].balance + (if accounts[i].currency == crypto then Received(kind, cryptoAmount) else 0.0)
  {
    var r := TradeCryptoAccounts(accounts, crypto, kind, cryptoAmount);
    forall i | 0 <= i < |accounts|
      ensures r[i].currency == accounts[i].currency
    {
      assert CryptoKeys(r)[i] == CryptoKeys(accounts)[i];
    }
  }

  /**
   * The fiat total after the fiat side of a trade, for one USD account
   * valued at rate 1: it moves by exactly the USD paid or received.
   */
  lemma FiatTotalAfterTrade(accounts: seq<Account>, rates: ExchangeRates, kind: TradeType, amountUSD: real)
    requires RatesPositive(rates) && rates.Get(USD) == 1.0
    requires Count(FiatKeys(accounts), USD) == 1
    ensures TotalFiatBalanceUSD(TradeFiatAccounts(accounts, kind, amountUSD), rates)
         == TotalFiatBalanceUSD(accounts, rates) + Paid(kind, amountUSD)
  {
    var d := Paid(kind, amountUSD);
    TradeFiatAdjusts(accounts, kind, amountUSD);
    SumFiatAdjusted(accounts, TradeFiatAccounts(accounts, kind, amountUSD), rates, USD, d, USD, 0.0);
    SumFiatDeltasOnce(accounts, rates, USD, d, USD, 0.0);
    assert d / 1.0 == d;
  }

  /**
   * The crypto side of a trade of `amountUSD` at a positive price, for one
   * account of the asset, moves the crypto total by the USD amount, against
   * the fiat side.
   */
  lemma CryptoTotalAfterTrade(accounts: seq<CryptoAccount>, prices: CryptoPrices, crypto: CryptoCurrency,
                              kind: TradeType, amountUSD: real)
    requires prices.Get(crypto) > 0.0
    requires Count(CryptoKeys(accounts), crypto) == 1
    ensures TotalCryptoBalanceUSD(TradeCryptoAccounts(accounts, crypto, kind, amountUSD / prices.Get(crypto)), prices)
         == TotalCryptoBalanceUSD(accounts, prices) - Paid(kind, amountUSD)
  {
    var q := amountUSD / prices.Get(crypto);
    ReceivedAtPrice(kind, amountUSD, prices.Get(crypto));
    TradeCryptoAdjusts(accounts, crypto, kind, q);
    SumCryptoAdjusted(accounts, TradeCryptoAccounts(accounts, crypto, kind, q), prices, crypto, Received(kind, q), -Paid(kind, amountUSD));
  }

  /** The asset bought or sold for `amountUSD` at price `p` is worth `amountUSD`. */
  lemma ReceivedAtPrice(kind: TradeType, amountUSD: real, p: real)
    requires p > 0.0
    ensures Received(kind, amountUSD / p) * p == -Paid(kind, amountUSD)
  {
    assert (amountUSD / p) * p == amountUSD;
  }

  /** When the fiat and crypto totals move by opposite amounts, the net worth is unchanged. */
  lemma NetWorthUnchanged(before: User, after: User, rates: ExchangeRates, prices: CryptoPrices, fiatGain: real, cryptoGain: real)
    requires RatesPositive(rates)
    requires TotalFiatBalanceUSD(after.accounts, rates) == TotalFiatBalanceUSD(before.accounts, rates) + fiatGain
    requires TotalCryptoBalanceUSD(after.cryptoAccounts, prices) == TotalCryptoBalanceUSD(before.cryptoAccounts, prices) + cryptoGain
    requires fiatGain + cryptoGain == 0.0
    ensures TotalBalanceUSD(after, rates, prices) == TotalBalanceUSD(before, rates, prices)
  {
  }

  /**
   * A trade at one price snapshot, for a user with one USD account and one
   * account of the traded asset, leaves the net worth unchanged: the USD
   * paid or received equals the value of the crypto moved.
   */
  lemma TradeConservesNetWorth(user: User, rates: ExchangeRates, prices: CryptoPrices, crypto: CryptoCurrency,
                               kind: TradeType, amountUSD: real)
    requires RatesPositive(rates) && rates.Get(USD) == 1.0
    requires prices.Get(crypto) > 0.0
    requires Count(FiatKeys(user.accounts), USD) == 1 && Count(CryptoKeys(user.cryptoAccounts), crypto) == 1
    ensures TotalBalanceUSD(HandleCryptoTrade(Some(user), prices, crypto, kind, amountUSD).value, rates, prices)
         == TotalBalanceUSD(user, rates, prices)
  {
    var after := HandleCryptoTrade(Some(user), prices, crypto, kind, amountUSD).value;
    FiatTotalAfterTrade(user.accounts, rates, kind, amountUSD);
    CryptoTotalAfterTrade(user.cryptoAccounts, prices, crypto, kind, amountUSD);
    NetWorthUnchanged(user, after, rates, prices, Paid(kind, amountUSD), -Paid(kind, amountUSD));
  }
}
