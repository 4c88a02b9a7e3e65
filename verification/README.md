# Banking demo ledger, modelled in Dafny

This project models the ledger core of a small single-user banking demo
written in TypeScript/React. It covers four parts:

- the user record and its fiat and crypto accounts, with the seed data the
  app starts from;
- the two ledger mutations of the app shell: `handleExchange` moves money
  between two fiat accounts, and `handleCryptoTrade` swaps USD against a
  crypto holding at the current price;
- the validation in front of them: the exchange form (conversion rate,
  amount filter, revalidation effect, swap button, submit guard) and the
  crypto trade dialog's submit checks;
- the dashboard's valuation: the fiat total, the crypto total and the net
  worth, all in USD.

Balances, rates and prices are exact `real`s. `parseFloat` results arrive
as an already parsed `Parsed` value (`NaN` or a number). The price snapshot
is a parameter.

Modules, one per source file:

- `Types`: the records and enums of `types.ts`. Also the key lists, counting
  and first-match lookup (`Array.prototype.find`) that the components share.
- `Constants`: `constants.ts`.
- `Ledger`: the handlers of `App.tsx`.
- `ExchangeForm`: `components/Exchange.tsx`.
- `CryptoTrade`: `components/CryptoView.tsx`.
- `Valuation`: `components/Dashboard.tsx`.

Two modules relate several files:

- `Conservation`: the value-conservation properties of the mutations,
  measured by the valuation.
- `Safety`: each form composed with the mutation behind it.

Two points about how the ledger is driven:

- The credited amount of an exchange is not computed by the ledger. The
  exchange form converts the typed amount, rounds it with `toFixed(2)`, and
  passes it to `handleExchange` as an independent argument.
  `Ledger.HandleExchange` takes both amounts, as the code does.
  `Conservation.RoundedExchangeNearlyConservesFiatTotal` bounds the drift
  that the rounding causes.
- An exchange of a currency into itself debits the account and never
  credits it, although the rate of 1 makes it evidently meant as a no-op
  (see Findings).

## Model

| member | source | states |
|---|---|---|
| `Types.FindAccount` | components/Exchange.tsx:19 | `find` on the fiat accounts: none iff no account has the currency, otherwise an account of the list holding it (the first one: `Types.FindAccountIsFirst`) |
| `Types.FindAccountIsFirst` | components/Exchange.tsx:19 | the account `find` returns holds the currency and no earlier account does |
| `Types.FindCryptoAccount` | components/CryptoView.tsx:31 | `find` on the crypto accounts: none iff no account holds the asset, otherwise an account of the list holding it (the first one: `Types.FindCryptoAccountIsFirst`) |
| `Types.FindCryptoAccountIsFirst` | components/CryptoView.tsx:31 | the crypto account `find` returns holds the asset and no earlier account does |
| `Constants.InitialUserWellFormed` | constants.ts:4-24 | the seed user holds exactly one account per fiat currency and exactly one per crypto asset |
| `Types.WellFormedUserHasUniqueKeys` | types.ts:30-34 | a user with one account per currency and per asset has unique keys on both lists, as the safety and conservation lemmas require |
| `Constants.InitialUserNonNegative` | constants.ts:4-24 | every seeded balance is non-negative |
| `Constants.FixedExchangeRatesWellFormed` | constants.ts:26-32 | USD has rate 1 and every rate is positive, so every division by a rate is defined |
| `Constants.InitialCryptoPricesPositive` | constants.ts:37-48 | every initial price is positive |
| `Constants.CurrenciesEnumerateAll` | constants.ts:34 | the currency list offered by the form names every currency exactly once |
| `Ledger.ExchangeAccounts` | App.tsx:56-64 | the list keeps its length, currencies and symbols; every `from` account loses `fromAmount`; when `to` differs, every `to` account gains `toAmount`; every other account is unchanged |
| `Ledger.HandleExchange` | App.tsx:53-68 | with nobody signed in nothing changes; otherwise only the fiat accounts change, as `ExchangeAccounts` says |
| `Ledger.TradeFiatAccounts` | App.tsx:77-85 | USD accounts move by the USD amount, paid on a buy and received on a sell; other accounts are unchanged |
| `Ledger.TradeCryptoAccounts` | App.tsx:88-96 | accounts of the traded asset move by the crypto amount, the opposite way to USD; other accounts are unchanged; names and symbols are kept |
| `Ledger.HandleCryptoTrade` | App.tsx:70-103 | with nobody signed in nothing changes; otherwise the user keeps their name, and both account lists change at the crypto amount `amountUSD / price` |
| `Ledger.TradeRoundTrip` | App.tsx:70-103 | at a fixed price, a trade followed by the opposite trade of the same USD amount restores the user exactly |
| `Ledger.ExchangeRoundTrip` | App.tsx:53-68 | exchanging between two different currencies and then back, with the amounts swapped, restores the user |
| `Ledger.SameCurrencyExchangeDebits` | App.tsx:57-62 | as written, an exchange of a currency into itself debits every account of that currency |
| `Ledger.IntendedExchangeAccounts` | App.tsx:56-64 | corrected exchange: each balance loses `fromAmount` if it is in `from` and gains `toAmount` if it is in `to`, independently |
| `Ledger.IntendedExchangeAgreesOnDistinctCurrencies` | App.tsx:56-64 | the corrected exchange equals the written one whenever the two currencies differ |
| `Ledger.IntendedSameCurrencyExchangeIsNoOp` | App.tsx:56-64 | the corrected exchange of a currency into itself at rate 1 changes nothing |
| `ExchangeForm.ConversionRate` | components/Exchange.tsx:21-25 | the rate is positive, converts the `from` rate into the `to` rate, and is 1 for the same currency |
| `ExchangeForm.ConversionRateReciprocal` | components/Exchange.tsx:21-25 | the rates in the two directions multiply to 1 |
| `ExchangeForm.PatternIsDigitsWithAtMostOneDot` | components/Exchange.tsx:46 | the pattern `^\d*\.?\d*$` accepts exactly the strings of digits and dots with at most one dot |
| `ExchangeForm.AcceptsAmountInput` | components/Exchange.tsx:46 | the scanner accepts a string iff the pattern does, and iff it is digits with at most one dot |
| `ExchangeForm.HandleFromAmountChange` | components/Exchange.tsx:44-49 | accepted text replaces the amount field, rejected text leaves the form unchanged, so the field always matches the pattern |
| `ExchangeForm.RoundCents` | components/Exchange.tsx:36 | `toFixed(2)` gives a whole number of cents within half a cent of the input, and a half-cent tie goes to the larger magnitude (strictly above `x - 0.005` for `x >= 0`, strictly below `x + 0.005` for `x <= 0`); it is non-negative for non-negative input and exact on cents |
| `ExchangeForm.RoundCentsTieAwayFromZero` | components/Exchange.tsx:36 | at an exact half cent the larger magnitude wins: 0.125 gives 0.13 and -0.125 gives -0.13 |
| `ExchangeForm.RoundCentsIdempotent` | components/Exchange.tsx:36 | rounding an already rounded amount changes nothing |
| `ExchangeForm.Revalidate` | components/Exchange.tsx:27-42 | the error is 'Insufficient funds' exactly when a positive amount exceeds an existing `from` balance, or it was already set and the field is empty; a credited amount is shown exactly when the amount is positive and there is no error, and then it is the converted amount in whole cents, strictly above it minus half a cent and at most it plus half a cent, so a tie rounds up as `toFixed(2)` does |
| `ExchangeForm.Swap` | components/Exchange.tsx:51-55 | the two currencies trade places and nothing else changes |
| `ExchangeForm.SwapInvolutive` | components/Exchange.tsx:51-55 | swapping twice restores the form |
| `ExchangeForm.SwapInvertsRate` | components/Exchange.tsx:51-55 | after a swap the rate is the reciprocal of the rate before it |
| `ExchangeForm.Submit` | components/Exchange.tsx:57-66 | `onExchange` is called, with the typed and credited amounts unchanged, iff there is no error, both amounts are positive and a `from` account covers the amount; otherwise a missing `from` account throws, and an amount above the balance reports insufficient funds |
| `ExchangeForm.ErrorShownIffInsufficient` | components/Exchange.tsx:27-66 | the error string is non-empty exactly when it is 'Insufficient funds', so the guard's `!error` is the absence of that error |
| `ExchangeForm.RevalidatedSubmit` | components/Exchange.tsx:27-66 | after the effect has run on the typed amount, confirming exchanges iff the amount is positive, an existing `from` account covers it and the credited amount the effect computed is present and positive; `onExchange` then gets the typed amount and that credited amount |
| `ExchangeForm.RevalidatedOverdraftReported` | components/Exchange.tsx:27-66 | after the effect, confirming an amount above an existing `from` balance reports insufficient funds |
| `ExchangeForm.InitialFormIsQuiet` | components/Exchange.tsx:13-66 | the form as first shown (USD to EUR, fields empty, no error) is left unchanged by the effect, shows no error, and confirming it exchanges nothing; it throws only for a user without a USD account |
| `ExchangeForm.SubmitWithCredit` | components/Exchange.tsx:57-66 | with no error and a credited amount `v`, confirming exchanges iff the typed amount is positive and covered and `v` is positive, passing `v` on |
| `ExchangeForm.SubmitWithError` | components/Exchange.tsx:61 | a form showing an error never exchanges |
| `ExchangeForm.SubmitWithoutCredit` | components/Exchange.tsx:60-61 | a form with an empty credited field (`parseFloat('')` is NaN) never exchanges |
| `CryptoTrade.SubmitTrade` | components/CryptoView.tsx:25-56 | nothing happens without a selected asset; the amount is refused as invalid iff it is NaN or non-positive; a buy is refused iff there is no USD account or it holds less than the amount; a sell is refused iff there is no holding or it holds less than `amount / price`; a positive, covered trade (equality included) is submitted with the selected asset, side and the amount unchanged |
| `CryptoTrade.ErrorTextsDistinct` | components/CryptoView.tsx:35-49 | every refusal reason shows its own message |
| `Valuation.ReduceFiatIsSum` | components/Dashboard.tsx:32-36 | the left fold from any start value is that value plus the sum of balance / rate |
| `Valuation.ReduceCryptoIsSum` | components/Dashboard.tsx:38-41 | the left fold from any start value is that value plus the sum of balance × price |
| `Valuation.SumFiatNonNegative` | components/Dashboard.tsx:32-36 | with positive rates, no negative balance gives a negative fiat total |
| `Valuation.SumCryptoNonNegative` | components/Dashboard.tsx:38-41 | with positive prices, no negative balance gives a negative crypto total |
| `Valuation.TotalFiatBalanceUSD` | components/Dashboard.tsx:32-36 | the fold equals the reference sum, and is 0 for no accounts |
| `Valuation.TotalCryptoBalanceUSD` | components/Dashboard.tsx:38-41 | the fold equals the reference sum, and is 0 for no accounts |
| `Valuation.TotalBalanceUSD` | components/Dashboard.tsx:43 | the net worth is the fiat sum plus the crypto sum |
| `Valuation.NetWorthNonNegative` | components/Dashboard.tsx:32-43 | with positive rates and prices and no negative balance, both totals and the net worth are non-negative |
| `Conservation.SumFiatAdjusted` | components/Dashboard.tsx:32-36 | adjusting balances moves the fiat total by the USD value of the adjustments |
| `Conservation.ExchangeAdjusts` | App.tsx:56-64 | an exchange keeps every currency and shifts each balance by its debit or credit |
| `Conservation.FiatTotalAfterExchange` | App.tsx:53-68 | with each currency held at most once, the fiat total after an exchange moves by the debit's USD value and, unless `to` is `from`, by the credit's USD value |
| `Conservation.CreditOffsetsDebit` | components/Exchange.tsx:21-25 | an amount converted at the form's rate has the same USD value as the amount debited |
| `Conservation.ExchangeConservesFiatTotal` | App.tsx:53-68 | an exchange between two different currencies, held once each, at the unrounded converted amount leaves the fiat total unchanged |
| `Conservation.RoundedExchangeNearlyConservesFiatTotal` | components/Exchange.tsx:35-36 | with the credited amount rounded as the form passes it, the fiat total moves by at most half a cent of the credited currency |
| `Conservation.SameCurrencyExchangeLosesValue` | App.tsx:56-64 | as written, exchanging a currency into itself lowers the fiat total by the amount's USD value |
| `Conservation.SameCurrencyExchangeExample` | App.tsx:57-62 | from the seed data, moving 100 USD into USD leaves 14900.75 USD |
| `Conservation.IntendedExchangeConservesFiatTotal` | App.tsx:56-64 | the corrected exchange conserves the fiat total for every pair of currencies, the same one included |
| `Conservation.TradeFiatAdjusts` | App.tsx:77-85 | the fiat side of a trade keeps every currency and shifts each USD balance by the USD paid or received |
| `Conservation.TradeCryptoAdjusts` | App.tsx:88-96 | the crypto side of a trade keeps every asset and shifts each balance of the traded asset by the crypto amount |
| `Conservation.FiatTotalAfterTrade` | App.tsx:77-85 | with one USD account at rate 1, the fiat total moves by exactly the USD paid or received |
| `Conservation.CryptoTotalAfterTrade` | App.tsx:73-96 | with one account of the asset and a positive price, the crypto total moves by the USD amount, the opposite way to the fiat total |
| `Conservation.TradeConservesNetWorth` | App.tsx:70-103 | a trade at one price snapshot leaves the net worth unchanged |
| `Safety.FoundAccountIsUnique` | components/Exchange.tsx:19 | under unique currencies, `find` returns the one account that holds the currency |
| `Safety.FoundCryptoAccountIsUnique` | components/CryptoView.tsx:31 | under unique assets, `find` returns the one account that holds the asset |
| `Safety.AcceptedExchangeKeepsNonNegative` | components/Exchange.tsx:57-66 | an exchange the submit guard accepts, applied by `handleExchange`, keeps every balance non-negative |
| `Safety.SubmittedTradeKeepsNonNegative` | components/CryptoView.tsx:25-56 | a trade the dialog submits, applied by `handleCryptoTrade` at the same positive prices, keeps every balance non-negative |
| `Safety.TradeFiatSideNonNegative` | App.tsx:77-85 | the USD side of a positive trade, with a buy covered by the only USD account, leaves every fiat balance non-negative |
| `Safety.TradeCryptoSideNonNegative` | App.tsx:73-96 | the asset side of a positive trade at a positive price, with a sell covered by the only holding, leaves every crypto balance non-negative |
| `Safety.ExchangeFlow` | components/Exchange.tsx:57-66 | pressing "Confirm Exchange" applies `handleExchange` to the guard's amounts exactly when the guard accepts and changes nothing otherwise; it keeps the name, the crypto accounts and the currencies, keeps a well-formed user well-formed, and keeps a non-negative ledger with unique currencies non-negative |
| `Safety.TradeFlow` | components/CryptoView.tsx:25-56 | confirming a trade applies `handleCryptoTrade` to the submitted asset, side and amount exactly when the dialog submits, and changes nothing otherwise; it keeps the name and the account keys, keeps a well-formed user well-formed, and keeps a non-negative ledger with unique keys non-negative |

## Left out

- Number semantics: every number is an exact real. The model has no IEEE
  doubles, no rounding error in `/` and `*`, and no `Infinity`. `toFixed(2)`
  is modelled as exact round-half-away-from-zero on reals, so ties that the
  binary value of a double would round the other way are not modelled.
- `parseFloat` is not modelled. Its result is a parameter (`NaN` or a
  number), so text such as "1.5abc" is not parsed here.
- The random walk of the crypto prices (App.tsx:32-47) is left out, because
  it depends on a timer and on `Math.random`. Prices are a snapshot
  parameter. The trade lemmas assume the same snapshot for the dialog and
  the handler.
- Sign-in and sign-out (App.tsx:20-29) are left out. So is view switching,
  both `handleNavigate` and the `setCurrentView('dashboard')` after an
  exchange (App.tsx:49-51, 67). The signed-in user is `Option<User>`.
- The disabled state of the submit button (components/Exchange.tsx:135) is
  left out. `ExchangeForm.Submit` models the handler itself, which re-checks
  everything the button checks.
- Opening the trade dialog (components/CryptoView.tsx:18-23) and closing it
  after a trade (components/CryptoView.tsx:55) are left out. They only reset
  or clear view state.
- React's effect scheduling is not modelled. `ExchangeForm.Revalidate` is one
  run of the effect, for the inputs it is given.
- Login, Header, Chatbot, Icons and the Gemini chat service are not part of
  this model. They do not touch the ledger.
- Ledger.HandleCryptoTrade: requires a non-zero price. With a zero price the
  source divides by zero and credits `Infinity`, which reals cannot express.
  The app's prices start positive, and the random walk keeps them positive.
- ExchangeForm.ConversionRate: requires every rate to be positive, and so do
  `ExchangeForm.Revalidate` and the valuation. The source divides by the
  rates without checking them. The fixed table satisfies this requirement
  (`Constants.FixedExchangeRatesWellFormed`).
- Conservation.TradeConservesNetWorth: is stated for a user with exactly
  one USD account and one account of the traded asset, with the USD rate at
  1, as in the seed data and the fixed table. With duplicate accounts, every
  duplicate is adjusted.

## Findings

| source | as written | input that shows it | evidently intended | confidence | as-written member | corrected member |
|---|---|---|---|---|---|---|
| App.tsx:57-62 | The callback tests `from` first and returns early, so when `to` equals `from` the account is debited and never credited. | The seed user exchanging 100 USD into USD: the rate is 1, the form credits 100, and the USD balance becomes 14900.75. The net worth drops by 100. | A same-currency exchange leaves the balance unchanged: the debit and the credit are applied to the account independently. | medium, not executed | `Conservation.SameCurrencyExchangeLosesValue` | `Conservation.IntendedExchangeConservesFiatTotal` |

The flow lemmas (`Safety.ExchangeFlow`) keep the handler as written, because
they describe the app's actual behaviour. `Ledger.IntendedExchangeAccounts`
is the corrected ledger update. It agrees with the written one whenever the
two currencies differ (`Ledger.IntendedExchangeAgreesOnDistinctCurrencies`).
