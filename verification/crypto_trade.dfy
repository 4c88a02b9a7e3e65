/**
 * The trade dialog of the crypto market view: the checks `handleSubmit`
 * makes before it calls `onTrade` (which is `handleCryptoTrade`). The amount
 * the user types is a USD amount for both sides of a trade; a sell is
 * checked against the crypto it takes at the current price.
 *
 * `parseFloat` is not modelled: the typed amount arrives as a `Parsed` value.
 */
module CryptoTrade {
  import opened Types
  import opened Ledger

  /** The error the dialog shows when it refuses a trade. */
  datatype TradeError = InvalidAmount | InsufficientUSD | InsufficientCrypto(crypto: CryptoCurrency)

  function ErrorText(e: TradeError): string
  {
    match e
    case InvalidAmount => "Please enter a valid amount."
    case InsufficientUSD => "Insufficient USD balance."
    case InsufficientCrypto(c) => "Insufficient " + CryptoCode(c) + " balance."
  }

  /** What pressing the confirm button does. */
  datatype SubmitResult =
    | NoSelection                                                      // no asset selected: nothing happens
    | Rejected(error: TradeError)                                      // the error is shown, `onTrade` is not called
    | Submitted(crypto: CryptoCurrency, kind: TradeType, amountUSD: real)  // `onTrade(crypto, kind, amountUSD)`

  /**
   * USD worth `val` exceeds the `crypto` balance `balance` at price `price`,
   * i.e. `balance < val / price`. A zero price makes the quotient +Infinity,
   * which every finite balance is below.
   */
  predicate ExceedsHolding(balance: real, val: real, price: real)
  {
    if price == 0.0 then true else balance < val / price
  }

  /**
   * `handleSubmit` of the trade dialog, with `selected` the asset whose
   * dialog is open, `kind` its side and `val` the parsed USD amount.
   */
  function SubmitTrade(user: User, prices: CryptoPrices, selected: Option<CryptoCurrency>, kind: TradeType, val: Parsed)
    : (r: SubmitResult)
    ensures selected.None? <==> r.NoSelection?
    ensures r == Rejected(InvalidAmount) <==> selected.Some? && (val.NaN? || val.value <= 0.0)
    ensures r == Rejected(InsufficientUSD) <==>
      && selected.Some? && val.Num? && val.value > 0.0 && kind == Buy
      && (|| FindAccount(user.accounts, USD).None?
          || FindAccount(user.accounts, USD).value.balance < val.value)
    ensures selected.Some? ==> (r == Rejected(InsufficientCrypto(selected.value)) <==>
      && val.Num? && val.value > 0.0 && kind == Sell
      && (|| FindCryptoAccount(user.cryptoAccounts, selected.value).None?
          || ExceedsHolding(FindCryptoAccount(user.cryptoAccounts, selected.value).value.balance,
                            val.value, prices.Get(selected.value))))
    ensures r.Submitted? ==>
      && selected == Some(r.crypto) && r.kind == kind && val == Num(r.amountUSD) && r.amountUSD > 0.0
    ensures (&& selected.Some? && val.Num? && val.value > 0.0
             && (kind == Buy ==> FindAccount(user.accounts, USD).Some?
                                 && val.value <= FindAccount(user.accounts, USD).value.balance)
             && (kind == Sell ==> FindCryptoAccount(user.cryptoAccounts, selected.value).Some?
                                  && !ExceedsHolding(FindCryptoAccount(user.cryptoAccounts, selected.value).value.balance,
                                                     val.value, prices.Get(selected.value))))
            ==> r == Submitted(selected.value, kind, val.value)
  {
    match selected
    case None => NoSelection
    case Some(crypto) =>
      var usdAccount := FindAccount(user.accounts, USD);
      var cryptoAccount := FindCryptoAccount(user.cryptoAccounts, crypto);
      var price := prices.Get(crypto);
      if val.NaN? || val.value <= 0.0 then Rejected(InvalidAmount)
      else match kind
        case Buy =>
          if usdAccount.None? || usdAccount.value.balance < val.value then Rejected(InsufficientUSD)
          else Submitted(crypto, kind, val.value)
        case Sell =>
          if cryptoAccount.None? || ExceedsHolding(cryptoAccount.value.balance, val.value, price) then
            Rejected(InsufficientCrypto(crypto))
          else Submitted(crypto, kind, val.value)
  }

  /** Each refusal reason has its own message. */
  lemma ErrorTextsDistinct(e1: TradeError, e2: TradeError)
    requires e1 != e2
    ensures ErrorText(e1) != ErrorText(e2)
  {
    if e1.InsufficientCrypto? && e2.InsufficientCrypto? {
      CryptoTextsDistinct(e1.crypto, e2.crypto);
    } else if e1.InsufficientCrypto? {
      CryptoTextNotOther(e1.crypto, e2);
    } else if e2.InsufficientCrypto? {
      CryptoTextNotOther(e2.crypto, e1);
    }
  }

  /** Two assets' messages differ where their codes are spelled out. */
  lemma CryptoTextsDistinct(c1: CryptoCurrency, c2: CryptoCurrency)
    requires c1 != c2
    ensures ErrorText(InsufficientCrypto(c1)) != ErrorText(InsufficientCrypto(c2))
  {
    var t1, t2 := ErrorText(InsufficientCrypto(c1)), ErrorText(InsufficientCrypto(c2));
    var k1, k2 := CryptoCode(c1), CryptoCode(c2);
    if |t1| == |t2| {
      assert t1[13..13 + |k1|] == k1;
      assert t2[13..13 + |k2|] == k2;
    }
  }

  /** An asset's message differs from the amount and USD messages. */
  lemma CryptoTextNotOther(c: CryptoCurrency, e: TradeError)
    requires !e.InsufficientCrypto?
    ensures ErrorText(InsufficientCrypto(c)) != ErrorText(e)
  {
    var t := ErrorText(InsufficientCrypto(c));
    if e == InsufficientUSD && |t| == |ErrorText(e)| {
      assert t[13..13 + |CryptoCode(c)|] == CryptoCode(c);
      assert ErrorText(e)[13..16] == "USD";
    }
  }
}
