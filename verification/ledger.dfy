/**
 * The two ledger mutations of the app shell: `handleExchange`, which debits
 * one fiat account and credits another, and `handleCryptoTrade`, which swaps
 * USD against one crypto holding at the current price. Both are pure maps
 * over the account lists; the signed-in user is `None` when nobody is
 * logged in, and then neither operation changes anything. Neither handler
 * validates its arguments: the forms in front of them do (see `ExchangeForm`
 * and `CryptoTrade`, and `Safety` for the composition).
 */
module Ledger {
  import opened Types

  datatype TradeType = Buy | Sell

  /** The callback `handleExchange` maps over the fiat accounts: the debit test comes first. */
  function ExchangeEntry(a: Account, from: Currency, to: Currency, fromAmount: real, toAmount: real): Account
  {
    if a.currency == from then a.(balance := a.balance - fromAmount)
    else if a.currency == to then a.(balance := a.balance + toAmount)
    else a
  }

  /**
   * The fiat account list after an exchange. Every `from` account loses
   * `fromAmount`; when `to` differs from `from` every `to` account gains
   * `toAmount`; all other accounts are returned as they were. When the two
   * currencies coincide only the debit applies.
   */
  function ExchangeAccounts(accounts: seq<Account>, from: Currency, to: Currency, fromAmount: real, toAmount: real)
    : (r: seq<Account>)
    ensures |r| == |accounts| && FiatKeys(r) == FiatKeys(accounts)
    ensures forall i :: 0 <= i < |r| ==> r[i].symbol == accounts[i].symbol
    ensures forall i :: 0 <= i < |r| && accounts[i].currency == from ==>
              r[i].balance == accounts[i].balance - fromAmount
    ensures forall i :: 0 <= i < |r| && accounts[i].currency == to && to != from ==>
              r[i].balance == accounts[i].balance + toAmount
    ensures forall i :: 0 <= i < |r| && accounts[i].currency != from && accounts[i].currency != to ==>
              r[i] == accounts[i]
  {
    seq(|accounts|, i requires 0 <= i < |accounts| => ExchangeEntry(accounts[i], from, to, fromAmount, toAmount))
  }

  /**
   * `handleExchange(from, to, fromAmount, toAmount)`: with nobody signed in
   * nothing happens; otherwise only the fiat account list changes.
   */
  function HandleExchange(user: Option<User>, from: Currency, to: Currency, fromAmount: real, toAmount: real)
    : (r: Option<User>)
    ensures user.None? ==> r == user
    ensures user.Some? ==> (
      && r.Some?
      && r.value.name == user.value.name
      && r.value.cryptoAccounts == user.value.cryptoAccounts
      && r.value.accounts == ExchangeAccounts(user.value.accounts, from, to, fromAmount, toAmount))
  {
    match user
    case None => None
    case Some(u) => Some(u.(accounts := ExchangeAccounts(u.accounts, from, to, fromAmount, toAmount)))
  }

  /** The callback over the fiat accounts in `handleCryptoTrade`: only USD moves. */
  function TradeFiatEntry(a: Account, kind: TradeType, amountUSD: real): Account
  {
    if a.currency == USD then
      a.(balance := if kind == Buy then a.balance - amountUSD else a.balance + amountUSD)
    else a
  }

  /** The callback over the crypto accounts in `handleCryptoTrade`: only the traded asset moves. */
  function TradeCryptoEntry(a: CryptoAccount, crypto: CryptoCurrency, kind: TradeType, cryptoAmount: real): CryptoAccount
  {
    if a.currency == crypto then
      a.(balance := if kind == Buy then a.balance + cryptoAmount else a.balance - cryptoAmount)
    else a
  }

  /** Fiat side of a trade: a buy pays `amountUSD` from every USD account, a sell pays it in. */
  function TradeFiatAccounts(accounts: seq<Account>, kind: TradeType, amountUSD: real): (r: seq<Account>)
    ensures |r| == |accounts| && FiatKeys(r) == FiatKeys(accounts)
    ensures forall i :: 0 <= i < |r| ==> r[i].symbol == accounts[i].symbol
    ensures forall i :: 0 <= i < |r| && accounts[i].currency == USD ==>
              r[i].balance == accounts[i].balance + (if kind == Buy then -amountUSD else amountUSD)
    ensures forall i :: 0 <= i < |r| && accounts[i].currency != USD ==> r[i] == accounts[i]
  {
    seq(|accounts|, i requires 0 <= i < |accounts| => TradeFiatEntry(accounts[i], kind, amountUSD))
  }

  /** Crypto side of a trade: a buy adds `cryptoAmount` of the asset, a sell removes it. */
  function TradeCryptoAccounts(accounts: seq<CryptoAccount>, crypto: CryptoCurrency, kind: TradeType, cryptoAmount: real)
    : (r: seq<CryptoAccount>)
    ensures |r| == |accounts| && CryptoKeys(r) == CryptoKeys(accounts)
    ensures forall i :: 0 <= i < |r| ==> r[i].name == accounts[i].name && r[i].symbol == accounts[i].symbol
    ensures forall i :: 0 <= i < |r| && accounts[i].currency == crypto ==>
              r[i].balance == accounts[i].balance + (if kind == Buy then cryptoAmount else -cryptoAmount)
    ensures forall i :: 0 <= i < |r| && accounts[i].currency != crypto ==> r[i] == accounts[i]
  {
    seq(|accounts|, i requires 0 <= i < |accounts| => TradeCryptoEntry(accounts[i], crypto, kind, cryptoAmount))
  }

  /**
   * `handleCryptoTrade(crypto, kind, amountUSD)` at the price snapshot
   * `prices`: the USD amount is converted at `prices[crypto]` and both sides
   * are applied together. The handler checks nothing but the signed-in user.
   */
  function HandleCryptoTrade(user: Option<User>, prices: CryptoPrices, crypto: CryptoCurrency, kind: TradeType, amountUSD: real)
    : (r: Option<User>)
    requires prices.Get(crypto) != 0.0
    ensures user.None? ==> r == user
    ensures user.Some? ==> (
      && r.Some?
      && r.value.name == user.value.name
      && r.value.accounts == TradeFiatAccounts(user.value.accounts, kind, amountUSD)
      && r.value.cryptoAccounts == TradeCryptoAccounts(user.value.cryptoAccounts, crypto, kind, amountUSD / prices.Get(crypto)))
  {
    match user
    case None => None
    case Some(u) =>
      var cryptoAmount := amountUSD / prices.Get(crypto);
      Some(u.(accounts := TradeFiatAccounts(u.accounts, kind, amountUSD),
              cryptoAccounts := TradeCryptoAccounts(u.cryptoAccounts, crypto, kind, cryptoAmount)))
  }

  /** The opposite side of a trade. */
  function Opposite(kind: TradeType): TradeType
  {
    if kind == Buy then Sell else Buy
  }

  /**
   * At a fixed price, a trade followed by the opposite trade of the same USD
   * amount restores the user exactly: buy-then-sell and sell-then-buy are
   * both the identity.
   */
  lemma TradeRoundTrip(user: Option<User>, prices: CryptoPrices, crypto: CryptoCurrency, kind: TradeType, amountUSD: real)
    requires prices.Get(crypto) != 0.0
    ensures HandleCryptoTrade(HandleCryptoTrade(user, prices, crypto, kind, amountUSD),
                              prices, crypto, Opposite(kind), amountUSD) == user
  {
    if user.Some? {
      var u := user.value;
      var once := HandleCryptoTrade(user, prices, crypto, kind, amountUSD).value;
      var twice := HandleCryptoTrade(Some(once), prices, crypto, Opposite(kind), amountUSD).value;
      assert twice.accounts == u.accounts;
      assert twice.cryptoAccounts == u.cryptoAccounts;
    }
  }

  /** Exchanging back the amount just credited, with the same two amounts, restores the fiat accounts. */
  lemma ExchangeRoundTrip(user: Option<User>, from: Currency, to: Currency, fromAmount: real, toAmount: real)
    requires from != to
    ensures HandleExchange(HandleExchange(user, from, to, fromAmount, toAmount), to, from, toAmount, fromAmount) == user
  {
    if user.Some? {
      var u := user.value;
      var twice := HandleExchange(HandleExchange(user, from, to, fromAmount, toAmount), to, from, toAmount, fromAmount).value;
      assert twice.accounts == u.accounts;
    }
  }

  /**
   * The exchange as evidently intended: the debit and the credit are
   * applied independently, so that when `from` and `to` coincide the account
   * loses `fromAmount` and regains `toAmount`.
   */
  function IntendedExchangeEntry(a: Account, from: Currency, to: Currency, fromAmount: real, toAmount: real): Account
  {
    var debited := if a.currency == from then a.balance - fromAmount else a.balance;
    a.(balance := if a.currency == to then debited + toAmount else debited)
  }

  function IntendedExchangeAccounts(accounts: seq<Account>, from: Currency, to: Currency, fromAmount: real, toAmount: real)
    : (r: seq<Account>)
    ensures |r| == |accounts| && FiatKeys(r) == FiatKeys(accounts)
    ensures forall i :: 0 <= i < |r| ==> r[i].symbol == accounts[i].symbol
    ensures forall i :: 0 <= i < |r| ==>
              r[i].balance == accounts[i].balance
                              - (if accounts[i].currency == from then fromAmount else 0.0)
                              + (if accounts[i].currency == to then toAmount else 0.0)
  {
    seq(|accounts|, i requires 0 <= i < |accounts| => IntendedExchangeEntry(accounts[i], from, to, fromAmount, toAmount))
  }

  /** Both definitions agree whenever the two currencies differ. */
  lemma IntendedExchangeAgreesOnDistinctCurrencies(accounts: seq<Account>, from: Currency, to: Currency, fromAmount: real, toAmount: real)
    requires from != to
    ensures IntendedExchangeAccounts(accounts, from, to, fromAmount, toAmount)
         == ExchangeAccounts(accounts, from, to, fromAmount, toAmount)
  {
  }

  /** As intended, exchanging a currency into itself at rate 1 changes nothing. */
  lemma IntendedSameCurrencyExchangeIsNoOp(accounts: seq<Account>, c: Currency, amount: real)
    ensures IntendedExchangeAccounts(accounts, c, c, amount, amount) == accounts
  {
  }

  /** As written, exchanging a currency into itself debits it: every `c` account loses the amount. */
  lemma SameCurrencyExchangeDebits(accounts: seq<Account>, c: Currency, amount: real, i: nat)
    requires i < |accounts| && accounts[i].currency == c
    ensures ExchangeAccounts(accounts, c, c, amount, amount)[i].balance == accounts[i].balance - amount
  {
  }
}
