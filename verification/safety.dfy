/**
 * What the forms guarantee the ledger: the handlers themselves check
 * nothing, but a mutation that gets past the exchange form's submit guard
 * or the trade dialog's checks never drives a balance below zero, provided
 * every currency and asset is held in at most one account (the lookups find
 * the first matching account only, and the ledger debits every matching one).
 */
module Safety {
  import opened Types
  import opened Ledger
  import opened ExchangeForm
  import opened CryptoTrade

  /** The account `FindAccount` returns is the one at the key's only position. */
  lemma FoundAccountIsUnique(accounts: seq<Account>, c: Currency, i: nat)
    requires UniqueKeys(FiatKeys(accounts))
    requires i < |accounts| && accounts[i].currency == c
    ensures FindAccount(accounts, c) == Some(accounts[i])
  {
    var keys := FiatKeys(accounts);
    var found := FindAccount(accounts, c);
    var j :| 0 <= j < |accounts| && accounts[j] == found.value && accounts[j].currency == c;
    assert keys[i] == keys[j];
    UniqueKeyPosition(keys, i, j);
  }

  /** The crypto account `FindCryptoAccount` returns is the one at the key's only position. */
  lemma FoundCryptoAccountIsUnique(accounts: seq<CryptoAccount>, c: CryptoCurrency, i: nat)
    requires UniqueKeys(CryptoKeys(accounts))
    requires i < |accounts| && accounts[i].currency == c
    ensures FindCryptoAccount(accounts, c) == Some(accounts[i])
  {
    var keys := CryptoKeys(accounts);
    var found := FindCryptoAccount(accounts, c);
    var j :| 0 <= j < |accounts| && accounts[j] == found.value && accounts[j].currency == c;
    assert keys[i] == keys[j];
    UniqueKeyPosition(keys, i, j);
  }

  /**
   * An exchange the submit guard lets through, applied by `handleExchange`,
   * keeps every balance non-negative: the debit is covered by the `from`
   * balance and the credit is positive.
   */
  lemma {:induction false} AcceptedExchangeKeepsNonNegative(user: User, form: FormState, fromAmt: Parsed)
    requires UniqueKeys(FiatKeys(user.accounts)) && NonNegative(user)
    requires Submit(form, fromAmt, user).Exchange?
    ensures var o := Submit(form, fromAmt, user);
            NonNegative(HandleExchange(Some(user), o.from, o.to, o.fromAmount, o.toAmount).value)
  {
    var o := Submit(form, fromAmt, user);
    var after := HandleExchange(Some(user), o.from, o.to, o.fromAmount, o.toAmount).value;
    forall i | 0 <= i < |after.accounts|
      ensures after.accounts[i].balance >= 0.0
    {
      var a := user.accounts[i];
      if a.currency == o.from {
        FoundAccountIsUnique(user.accounts, o.from, i);
      }
    }
  }

  /**
   * A trade the dialog submits, applied by `handleCryptoTrade` at the same
   * positive prices, keeps every balance non-negative: a buy is covered by
   * the USD balance, a sell by the asset's holding at the current price.
   */
  lemma {:induction false} SubmittedTradeKeepsNonNegative(user: User, prices: CryptoPrices, selected: Option<CryptoCurrency>,
                                                          kind: TradeType, val: Parsed)
    requires UniqueKeys(FiatKeys(user.accounts)) && UniqueKeys(CryptoKeys(user.cryptoAccounts))
    requires NonNegative(user) && PricesPositive(prices)
    requires SubmitTrade(user, prices, selected, kind, val).Submitted?
    ensures var r := SubmitTrade(user, prices, selected, kind, val);
            NonNegative(HandleCryptoTrade(Some(user), prices, r.crypto, r.kind, r.amountUSD).value)
  {
    var r := SubmitTrade(user, prices, selected, kind, val);
    var p := prices.Get(r.crypto);
    assert p > 0.0;
    TradeFiatSideNonNegative(user.accounts, r.kind, r.amountUSD);
    TradeCryptoSideNonNegative(user.cryptoAccounts, r.crypto, r.kind, r.amountUSD, p);
  }

  /** The USD side of a positive trade, a buy covered by the USD account, keeps every fiat balance non-negative. */
  lemma TradeFiatSideNonNegative(accounts: seq<Account>, kind: TradeType, amountUSD: real)
    requires UniqueKeys(FiatKeys(accounts)) && NonNegativeAccounts(accounts) && amountUSD > 0.0
    requires kind == Buy ==> FindAccount(accounts, USD).Some? && amountUSD <= FindAccount(accounts, USD).value.balance
    ensures NonNegativeAccounts(TradeFiatAccounts(accounts, kind, amountUSD))
  {
    var after := TradeFiatAccounts(accounts, kind, amountUSD);
    forall i | 0 <= i < |after|
      ensures after[i].balance >= 0.0
    {
      if accounts[i].currency == USD {
        FoundAccountIsUnique(accounts, USD, i);
      }
    }
  }

  /** The asset side of a positive trade at price `p`, a sell covered by the holding, keeps every crypto balance non-negative. */
  lemma TradeCryptoSideNonNegative(accounts: seq<CryptoAccount>, crypto: CryptoCurrency, kind: TradeType, amountUSD: real, p: real)
    requires UniqueKeys(CryptoKeys(accounts)) && NonNegativeCryptoAccounts(accounts) && amountUSD > 0.0 && p > 0.0
    requires kind == Sell ==> FindCryptoAccount(accounts, crypto).Some?
                              && !ExceedsHolding(FindCryptoAccount(accounts, crypto).value.balance, amountUSD, p)
    ensures NonNegativeCryptoAccounts(TradeCryptoAccounts(accounts, crypto, kind, amountUSD / p))
  {
    var after := TradeCryptoAccounts(accounts, crypto, kind, amountUSD / p);
    forall i | 0 <= i < |after|
      ensures after[i].balance >= 0.0
    {
      if accounts[i].currency == crypto {
        FoundCryptoAccountIsUnique(accounts, crypto, i);
        assert amountUSD / p > 0.0;
      }
    }
  }

  /** `AcceptedExchangeKeepsNonNegative` as an implication, for use inside `ExchangeFlow`. */
  lemma ExchangeSafeWhenWellFormed(user: User, form: FormState, fromAmt: Parsed)
    requires Submit(form, fromAmt, user).Exchange?
    ensures var o := Submit(form, fromAmt, user);
            UniqueKeys(FiatKeys(user.accounts)) && NonNegative(user) ==>
              NonNegative(HandleExchange(Some(user), o.from, o.to, o.fromAmount, o.toAmount).value)
  {
    if UniqueKeys(FiatKeys(user.accounts)) && NonNegative(user) {
      AcceptedExchangeKeepsNonNegative(user, form, fromAmt);
    }
  }

  /** `SubmittedTradeKeepsNonNegative` as an implication, for use inside `TradeFlow`. */
  lemma TradeSafeWhenWellFormed(user: User, prices: CryptoPrices, selected: Option<CryptoCurrency>, kind: TradeType, val: Parsed)
    requires PricesPositive(prices)
    requires SubmitTrade(user, prices, selected, kind, val).Submitted?
    ensures var r := SubmitTrade(user, prices, selected, kind, val);
            UniqueKeys(FiatKeys(user.accounts)) && UniqueKeys(CryptoKeys(user.cryptoAccounts)) && NonNegative(user) ==>
              NonNegative(HandleCryptoTrade(Some(user), prices, r.crypto, r.kind, r.amountUSD).value)
  {
    if UniqueKeys(FiatKeys(user.accounts)) && UniqueKeys(CryptoKeys(user.cryptoAccounts)) && NonNegative(user) {
      SubmittedTradeKeepsNonNegative(user, prices, selected, kind, val);
    }
  }

  /**
   * Pressing "Confirm Exchange": the form's outcome, applied to the ledger.
   * Only an accepted exchange changes the user; every other outcome leaves
   * the ledger as it was.
   */
  function ExchangeFlow(user: User, form: FormState, fromAmt: Parsed): (r: User)
    ensures !Submit(form, fromAmt, user).Exchange? ==> r == user
    ensures var o := Submit(form, fromAmt, user);
            o.Exchange? ==> r == HandleExchange(Some(user), o.from, o.to, o.fromAmount, o.toAmount).value
    ensures r.name == user.name && r.cryptoAccounts == user.cryptoAccounts
    ensures FiatKeys(r.accounts) == FiatKeys(user.accounts)
    ensures UniqueKeys(FiatKeys(user.accounts)) && NonNegative(user) ==> NonNegative(r)
    ensures WellFormedUser(user) ==> WellFormedUser(r)
  {
    var o := Submit(form, fromAmt, user);
    if o.Exchange? then
      ExchangeSafeWhenWellFormed(user, form, fromAmt);
      HandleExchange(Some(user), o.from, o.to, o.fromAmount, o.toAmount).value
    else user
  }

  /**
   * Confirming a trade: the dialog's result, applied to the ledger at the
   * same prices. A refused or empty submission changes nothing.
   */
  function TradeFlow(user: User, prices: CryptoPrices, selected: Option<CryptoCurrency>, kind: TradeType, val: Parsed)
    : (r: User)
    requires PricesPositive(prices)
    ensures !SubmitTrade(user, prices, selected, kind, val).Submitted? ==> r == user
    ensures var t := SubmitTrade(user, prices, selected, kind, val);
            t.Submitted? ==> r == HandleCryptoTrade(Some(user), prices, t.crypto, t.kind, t.amountUSD).value
    ensures r.name == user.name
    ensures FiatKeys(r.accounts) == FiatKeys(user.accounts) && CryptoKeys(r.cryptoAccounts) == CryptoKeys(user.cryptoAccounts)
    ensures UniqueKeys(FiatKeys(user.accounts)) && UniqueKeys(CryptoKeys(user.cryptoAccounts)) && NonNegative(user)
            ==> NonNegative(r)
    ensures WellFormedUser(user) ==> WellFormedUser(r)
  {
    var s := SubmitTrade(user, prices, selected, kind, val);
    if s.Submitted? then
      assert prices.Get(s.crypto) > 0.0;
      TradeSafeWhenWellFormed(user, prices, selected, kind, val);
      HandleCryptoTrade(Some(user), prices, s.crypto, s.kind, s.amountUSD).value
    else user
  }
}
