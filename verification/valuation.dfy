/**
 * The dashboard's valuation of a user's holdings in USD: the fiat total
 * (every balance divided by its currency's rate), the crypto total (every
 * balance times its asset's price) and the net worth, their sum. The totals
 * are left folds over the account lists, as `reduce` computes them; each is
 * related to an independent recursive sum.
 */
module Valuation {
  import opened Types

  /** USD value of one fiat account. */
  function FiatValue(a: Account, rates: ExchangeRates): real
    requires RatesPositive(rates)
  {
    a.balance / rates.Get(a.currency)
  }

  /** USD value of one crypto account. */
  function CryptoValue(a: CryptoAccount, prices: CryptoPrices): real
  {
    a.balance * prices.Get(a.currency)
  }

  /** `accounts.reduce((total, account) => total + value(account), total)`. */
  function ReduceFiat(total: real, accounts: seq<Account>, rates: ExchangeRates): real
    requires RatesPositive(rates)
    decreases |accounts|
  {
    if |accounts| == 0 then total
    else ReduceFiat(total + FiatValue(accounts[0], rates), accounts[1..], rates)
  }

  function ReduceCrypto(total: real, accounts: seq<CryptoAccount>, prices: CryptoPrices): real
    decreases |accounts|
  {
    if |accounts| == 0 then total
    else ReduceCrypto(total + CryptoValue(accounts[0], prices), accounts[1..], prices)
  }

  /** Reference definition: Σ balance / rate, summed from the last account back. */
  function SumFiat(accounts: seq<Account>, rates: ExchangeRates): real
    requires RatesPositive(rates)
  {
    if |accounts| == 0 then 0.0
    else FiatValue(accounts[0], rates) + SumFiat(accounts[1..], rates)
  }

  /** Reference definition: Σ balance · price. */
  function SumCrypto(accounts: seq<CryptoAccount>, prices: CryptoPrices): real
  {
    if |accounts| == 0 then 0.0
    else CryptoValue(accounts[0], prices) + SumCrypto(accounts[1..], prices)
  }

  /** The left fold from `total` is `total` plus the sum. */
  lemma {:induction false} ReduceFiatIsSum(total: real, accounts: seq<Account>, rates: ExchangeRates)
    requires RatesPositive(rates)
    ensures ReduceFiat(total, accounts, rates) == total + SumFiat(accounts, rates)
    decreases |accounts|
  {
    if |accounts| > 0 {
      ReduceFiatIsSum(total + FiatValue(accounts[0], rates), accounts[1..], rates);
    }
  }

  lemma {:induction false} ReduceCryptoIsSum(total: real, accounts: seq<CryptoAccount>, prices: CryptoPrices)
    ensures ReduceCrypto(total, accounts, prices) == total + SumCrypto(accounts, prices)
    decreases |accounts|
  {
    if |accounts| > 0 {
      ReduceCryptoIsSum(total + CryptoValue(accounts[0], prices), accounts[1..], prices);
    }
  }

  /** With positive rates, no negative balance gives a negative fiat sum. */
  lemma {:induction false} SumFiatNonNegative(accounts: seq<Account>, rates: ExchangeRates)
    requires RatesPositive(rates)
    ensures NonNegativeAccounts(accounts) ==> SumFiat(accounts, rates) >= 0.0
  {
    if |accounts| > 0 && NonNegativeAccounts(accounts) {
      SumFiatNonNegative(accounts[1..], rates);
      var a := accounts[0];
      assert rates.Get(a.currency) > 0.0 && a.balance >= 0.0;
      assert FiatValue(a, rates) >= 0.0;
    }
  }

  /** With positive prices, no negative balance gives a negative crypto sum. */
  lemma {:induction false} SumCryptoNonNegative(accounts: seq<CryptoAccount>, prices: CryptoPrices)
    ensures PricesPositive(prices) && NonNegativeCryptoAccounts(accounts) ==> SumCrypto(accounts, prices) >= 0.0
  {
    if |accounts| > 0 && PricesPositive(prices) && NonNegativeCryptoAccounts(accounts) {
      SumCryptoNonNegative(accounts[1..], prices);
      var a := accounts[0];
      assert prices.Get(a.currency) > 0.0 && a.balance >= 0.0;
      assert CryptoValue(a, prices) >= 0.0;
    }
  }

  /**
   * `totalFiatBalanceUSD`: Σ over the accounts of balance / rate; 0 for no
   * accounts (see `NetWorthNonNegative` for its sign).
   */
  function TotalFiatBalanceUSD(accounts: seq<Account>, rates: ExchangeRates): (t: real)
    requires RatesPositive(rates)
    ensures t == SumFiat(accounts, rates)
    ensures |accounts| == 0 ==> t == 0.0
  {
    ReduceFiatIsSum(0.0, accounts, rates);
    ReduceFiat(0.0, accounts, rates)
  }

  /** `totalCryptoBalanceUSD`: Σ over the crypto accounts of balance · price. */
  function TotalCryptoBalanceUSD(accounts: seq<CryptoAccount>, prices: CryptoPrices): (t: real)
    ensures t == SumCrypto(accounts, prices)
    ensures |accounts| == 0 ==> t == 0.0
  {
    ReduceCryptoIsSum(0.0, accounts, prices);
    ReduceCrypto(0.0, accounts, prices)
  }

  /** `totalBalanceUSD`: the user's net worth, fiat and crypto together. */
  function TotalBalanceUSD(user: User, rates: ExchangeRates, prices: CryptoPrices): (t: real)
    requires RatesPositive(rates)
    ensures t == SumFiat(user.accounts, rates) + SumCrypto(user.cryptoAccounts, prices)
  {
    TotalFiatBalanceUSD(user.accounts, rates) + TotalCryptoBalanceUSD(user.cryptoAccounts, prices)
  }

  /** With positive rates and prices, a user with no negative balance has a non-negative net worth. */
  lemma NetWorthNonNegative(user: User, rates: ExchangeRates, prices: CryptoPrices)
    requires RatesPositive(rates) && PricesPositive(prices) && NonNegative(user)
    ensures TotalFiatBalanceUSD(user.accounts, rates) >= 0.0
    ensures TotalCryptoBalanceUSD(user.cryptoAccounts, prices) >= 0.0
    ensures TotalBalanceUSD(user, rates, prices) >= 0.0
  {
    SumFiatNonNegative(user.accounts, rates);
    SumCryptoNonNegative(user.cryptoAccounts, prices);
  }
}
