/**
 * Data model of the banking demo's ledger: the closed fiat and crypto
 * currency enumerations, the account records a user owns, and the rate and
 * price tables, which are total over their enumeration.
 *
 * Also holds the keyed-lookup helpers every component shares: the key
 * sequence of an account list, the number of entries under a key, and the
 * first-match search that `Array.prototype.find` performs.
 */
module Types {

  datatype Option<+T> = None | Some(value: T)

  /** What `parseFloat` yields: NaN, or a finite number. */
  datatype Parsed = NaN | Num(value: real)

  /** Fiat currencies; the declaration order is the order `Object.values` reports. */
  datatype Currency = USD | EUR | JPY | GBP

  datatype CryptoCurrency = BTC | ETH | USDT | BNB | SOL | XRP | USDC | ADA | AVAX | DOGE

  /** The string value of each crypto enum member. */
  function CryptoCode(c: CryptoCurrency): string
  {
    match c
    case BTC => "BTC"
    case ETH => "ETH"
    case USDT => "USDT"
    case BNB => "BNB"
    case SOL => "SOL"
    case XRP => "XRP"
    case USDC => "USDC"
    case ADA => "ADA"
    case AVAX => "AVAX"
    case DOGE => "DOGE"
  }

  datatype Account = Account(currency: Currency, balance: real, symbol: string)

  datatype CryptoAccount = CryptoAccount(currency: CryptoCurrency, name: string, symbol: string, balance: real)

  datatype User = User(name: string, accounts: seq<Account>, cryptoAccounts: seq<CryptoAccount>)

  /** Rate of each fiat currency relative to USD: a record with one entry per currency. */
  datatype ExchangeRates = ExchangeRates(usd: real, eur: real, jpy: real, gbp: real)
  {
    /** `rates[c]`; defined for every currency. */
    function Get(c: Currency): real
    {
      match c
      case USD => usd
      case EUR => eur
      case JPY => jpy
      case GBP => gbp
    }
  }

  /** USD price of each crypto asset: a record with one entry per asset. */
  datatype CryptoPrices = CryptoPrices(btc: real, eth: real, usdt: real, bnb: real, sol: real,
                                       xrp: real, usdc: real, ada: real, avax: real, doge: real)
  {
    /** `prices[c]`; defined for every asset. */
    function Get(c: CryptoCurrency): real
    {
      match c
      case BTC => btc
      case ETH => eth
      case USDT => usdt
      case BNB => bnb
      case SOL => sol
      case XRP => xrp
      case USDC => usdc
      case ADA => ada
      case AVAX => avax
      case DOGE => doge
    }
  }

  ghost predicate RatesPositive(rates: ExchangeRates)
  {
    forall c :: rates.Get(c) > 0.0
  }

  ghost predicate PricesPositive(prices: CryptoPrices)
  {
    forall c :: prices.Get(c) > 0.0
  }

  /** The currency keys of a fiat account list, in list order. */
  function FiatKeys(accounts: seq<Account>): (keys: seq<Currency>)
    ensures |keys| == |accounts|
    ensures forall i :: 0 <= i < |accounts| ==> keys[i] == accounts[i].currency
  {
    seq(|accounts|, i requires 0 <= i < |accounts| => accounts[i].currency)
  }

  /** The currency keys of a crypto account list, in list order. */
  function CryptoKeys(accounts: seq<CryptoAccount>): (keys: seq<CryptoCurrency>)
    ensures |keys| == |accounts|
    ensures forall i :: 0 <= i < |accounts| ==> keys[i] == accounts[i].currency
  {
    seq(|accounts|, i requires 0 <= i < |accounts| => accounts[i].currency)
  }

  /** Number of entries of `keys` equal to `k`. */
  function Count<K(==)>(keys: seq<K>, k: K): nat
  {
    if |keys| == 0 then 0
    else (if keys[0] == k then 1 else 0) + Count(keys[1..], k)
  }

  /** Index of the first entry equal to `k`, as `find` / `findIndex` locate it. */
  function IndexOf<K(==)>(keys: seq<K>, k: K): (r: Option<nat>)
    ensures r.Some? ==> r.value < |keys| && keys[r.value] == k
    ensures r.Some? ==> forall j :: 0 <= j < r.value ==> keys[j] != k
    ensures r.None? <==> forall j :: 0 <= j < |keys| ==> keys[j] != k
  {
    if |keys| == 0 then None
    else if keys[0] == k then Some(0)
    else match IndexOf(keys[1..], k)
      case None => None
      case Some(i) => Some(i + 1)
  }

  /** `accounts.find(acc => acc.currency === c)`. */
  function FindAccount(accounts: seq<Account>, c: Currency): (r: Option<Account>)
    ensures r.None? <==> forall i :: 0 <= i < |accounts| ==> accounts[i].currency != c
    ensures r.Some? ==> exists i :: 0 <= i < |accounts| && accounts[i] == r.value && accounts[i].currency == c
  {
    match IndexOf(FiatKeys(accounts), c)
    case None => None
    case Some(i) => Some(accounts[i])
  }

  /** `cryptoAccounts.find(acc => acc.currency === c)`. */
  function FindCryptoAccount(accounts: seq<CryptoAccount>, c: CryptoCurrency): (r: Option<CryptoAccount>)
    ensures r.None? <==> forall i :: 0 <= i < |accounts| ==> accounts[i].currency != c
    ensures r.Some? ==> exists i :: 0 <= i < |accounts| && accounts[i] == r.value && accounts[i].currency == c
  {
    match IndexOf(CryptoKeys(accounts), c)
    case None => None
    case Some(i) => Some(accounts[i])
  }

  /** `find` returns the first fiat account holding the currency: no earlier account holds it. */
  lemma FindAccountIsFirst(accounts: seq<Account>, c: Currency)
    ensures FindAccount(accounts, c).Some? ==>
              exists i :: 0 <= i < |accounts| && accounts[i] == FindAccount(accounts, c).value && accounts[i].currency == c
                          && forall j :: 0 <= j < i ==> accounts[j].currency != c
  {
    var keys := FiatKeys(accounts);
    if IndexOf(keys, c).Some? {
      var i := IndexOf(keys, c).value;
      assert accounts[i] == FindAccount(accounts, c).value;
      assert forall j :: 0 <= j < i ==> keys[j] != c;
    }
  }

  /** `find` returns the first crypto account holding the asset: no earlier account holds it. */
  lemma FindCryptoAccountIsFirst(accounts: seq<CryptoAccount>, c: CryptoCurrency)
    ensures FindCryptoAccount(accounts, c).Some? ==>
              exists i :: 0 <= i < |accounts| && accounts[i] == FindCryptoAccount(accounts, c).value && accounts[i].currency == c
                          && forall j :: 0 <= j < i ==> accounts[j].currency != c
  {
    var keys := CryptoKeys(accounts);
    if IndexOf(keys, c).Some? {
      var i := IndexOf(keys, c).value;
      assert accounts[i] == FindCryptoAccount(accounts, c).value;
      assert forall j :: 0 <= j < i ==> keys[j] != c;
    }
  }

  /** No key occurs twice. */
  ghost predicate UniqueKeys<K(!new)>(keys: seq<K>)
  {
    forall k :: Count(keys, k) <= 1
  }

  /** Every value of the enumeration occurs exactly once. */
  ghost predicate ExactlyOnce<K(!new)>(keys: seq<K>)
  {
    forall k :: Count(keys, k) == 1
  }

  /** One fiat account per currency and one crypto account per asset. */
  ghost predicate WellFormedUser(u: User)
  {
    ExactlyOnce(FiatKeys(u.accounts)) && ExactlyOnce(CryptoKeys(u.cryptoAccounts))
  }

  /** A well-formed user holds each currency and each asset in at most one account. */
  lemma WellFormedUserHasUniqueKeys(u: User)
    requires WellFormedUser(u)
    ensures UniqueKeys(FiatKeys(u.accounts)) && UniqueKeys(CryptoKeys(u.cryptoAccounts))
  {
  }

  ghost predicate NonNegativeAccounts(accounts: seq<Account>)
  {
    forall i :: 0 <= i < |accounts| ==> accounts[i].balance >= 0.0
  }

  ghost predicate NonNegativeCryptoAccounts(accounts: seq<CryptoAccount>)
  {
    forall i :: 0 <= i < |accounts| ==> accounts[i].balance >= 0.0
  }

  ghost predicate NonNegative(u: User)
  {
    NonNegativeAccounts(u.accounts) && NonNegativeCryptoAccounts(u.cryptoAccounts)
  }

  /** A key occurs in a list iff it is counted there. */
  lemma {:induction false} CountPositiveIffPresent<K>(keys: seq<K>, k: K)
    ensures Count(keys, k) > 0 <==> exists i :: 0 <= i < |keys| && keys[i] == k
  {
    if |keys| > 0 {
      CountPositiveIffPresent(keys[1..], k);
      if keys[0] != k && exists i :: 0 <= i < |keys| && keys[i] == k {
        var i :| 0 <= i < |keys| && keys[i] == k;
        assert keys[1..][i - 1] == k;
      }
    }
  }

  /** Under unique keys, two positions holding the same key are the same position. */
  lemma {:induction false} UniqueKeyPosition<K>(keys: seq<K>, i: nat, j: nat)
    requires i < |keys| && j < |keys|
    requires keys[i] == keys[j]
    requires Count(keys, keys[i]) <= 1
    ensures i == j
  {
    var k := keys[i];
    if i != 0 && j != 0 {
      UniqueKeyPosition(keys[1..], i - 1, j - 1);
    } else if i != j {
      CountPositiveIffPresent(keys[1..], k);
      assert false;
    }
  }

  /** Keys at distinct positions differ. */
  ghost predicate Distinct<K>(keys: seq<K>)
  {
    forall i, j :: 0 <= i < j < |keys| ==> keys[i] != keys[j]
  }

  /** In a list with no repeated entries each key is counted at most once. */
  lemma {:induction false} DistinctCountAtMostOne<K>(keys: seq<K>, k: K)
    requires Distinct(keys)
    ensures Count(keys, k) <= 1
    ensures k in keys ==> Count(keys, k) == 1
  {
    if |keys| > 0 {
      assert Distinct(keys[1..]) by {
        forall i, j | 0 <= i < j < |keys[1..]| ensures keys[1..][i] != keys[1..][j] {
          assert keys[1..][i] == keys[i + 1] && keys[1..][j] == keys[j + 1];
        }
      }
      DistinctCountAtMostOne(keys[1..], k);
      CountPositiveIffPresent(keys[1..], k);
      if keys[0] == k {
        assert k !in keys[1..];
      } else if k in keys {
        var i :| 0 <= i < |keys| && keys[i] == k;
        assert keys[1..][i - 1] == k;
      }
    }
  }
}
