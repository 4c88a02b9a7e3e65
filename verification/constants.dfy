/**
 * The seed data the ledger starts from: the demo user's accounts, the fixed
 * fiat exchange rates, the currency list shown in the exchange form and the
 * initial crypto price snapshot. The lemmas establish that the seed user is
 * well-formed (`WellFormedUser`), which gives the unique keys the safety and
 * conservation lemmas require (`WellFormedUserHasUniqueKeys`), and that the
 * rates and prices are positive.
 */
module Constants {
  import opened Types

  const InitialUser: User := User(
    "Alex Doe",
    [ Account(USD, 15000.75, "$"),
      Account(EUR, 8500.50, "€"),
      Account(JPY, 1250000.0, "¥"),
      Account(GBP, 5000.25, "£") ],
    [ CryptoAccount(BTC, "Bitcoin", "BTC", 0.05),
      CryptoAccount(ETH, "Ethereum", "ETH", 0.0),
      CryptoAccount(USDT, "Tether", "USDT", 0.0),
      CryptoAccount(BNB, "BNB", "BNB", 0.0),
      CryptoAccount(SOL, "Solana", "SOL", 0.0),
      CryptoAccount(XRP, "XRP", "XRP", 0.0),
      CryptoAccount(USDC, "USDC", "USDC", 0.0),
      CryptoAccount(ADA, "Cardano", "ADA", 0.0),
      CryptoAccount(AVAX, "Avalanche", "AVAX", 0.0),
      CryptoAccount(DOGE, "Dogecoin", "DOGE", 0.0) ])

  /** Units of each currency per 1 USD. */
  const FixedExchangeRates: ExchangeRates := ExchangeRates(usd := 1.0, eur := 0.92, jpy := 157.0, gbp := 0.79)

  /** `Object.values(Currency)`: the enum members in declaration order. */
  const Currencies: seq<Currency> := [USD, EUR, JPY, GBP]

  const InitialCryptoPrices: CryptoPrices := CryptoPrices(
    btc := 97540.50, eth := 3650.20, usdt := 1.00, bnb := 720.10, sol := 245.80,
    xrp := 2.45, usdc := 1.00, ada := 1.15, avax := 48.20, doge := 0.42)

  /** The seed user holds one fiat account per currency and one crypto account per asset. */
  lemma InitialUserWellFormed()
    ensures WellFormedUser(InitialUser)
  {
    InitialFiatKeysOnce();
    InitialCryptoKeysOnce();
  }

  /** Each fiat currency is seeded exactly once. */
  lemma InitialFiatKeysOnce()
    ensures ExactlyOnce(FiatKeys(InitialUser.accounts))
  {
    var fiat := FiatKeys(InitialUser.accounts);
    assert fiat == [USD, EUR, JPY, GBP];
    forall c: Currency ensures Count(fiat, c) == 1 {
      assert c in fiat by { assert c.USD? || c.EUR? || c.JPY? || c.GBP?; }
      DistinctCountAtMostOne(fiat, c);
    }
  }

  /** Each crypto asset is seeded exactly once: its position identifies it. */
  lemma InitialCryptoKeysOnce()
    ensures ExactlyOnce(CryptoKeys(InitialUser.cryptoAccounts))
  {
    var crypto := CryptoKeys(InitialUser.cryptoAccounts);
    assert crypto == [BTC, ETH, USDT, BNB, SOL, XRP, USDC, ADA, AVAX, DOGE];
    assert Distinct(crypto) by {
      forall i | 0 <= i < |crypto| ensures Position(crypto[i]) == i {
      }
    }
    forall c: CryptoCurrency ensures Count(crypto, c) == 1 {
      assert crypto[Position(c)] == c;
      DistinctCountAtMostOne(crypto, c);
    }
  }

  /** Where each asset sits in the seed ledger's list. */
  function Position(c: CryptoCurrency): (i: nat)
    ensures i < 10
  {
    match c
    case BTC => 0
    case ETH => 1
    case USDT => 2
    case BNB => 3
    case SOL => 4
    case XRP => 5
    case USDC => 6
    case ADA => 7
    case AVAX => 8
    case DOGE => 9
  }

  /** Every seeded balance is non-negative. */
  lemma InitialUserNonNegative()
    ensures NonNegative(InitialUser)
  {
  }

  /** USD is the base currency and every rate is strictly positive. */
  lemma FixedExchangeRatesWellFormed()
    ensures FixedExchangeRates.Get(USD) == 1.0
    ensures RatesPositive(FixedExchangeRates)
  {
  }

  /** Every initial crypto price is strictly positive. */
  lemma InitialCryptoPricesPositive()
    ensures PricesPositive(InitialCryptoPrices)
  {
  }

  /** The currency list names every currency exactly once. */
  lemma CurrenciesEnumerateAll()
    ensures ExactlyOnce(Currencies)
  {
    forall c: Currency ensures Count(Currencies, c) == 1 {
      assert c in Currencies by { assert c.USD? || c.EUR? || c.JPY? || c.GBP?; }
      DistinctCountAtMostOne(Currencies, c);
    }
  }
}
