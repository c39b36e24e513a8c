# Mortgage arithmetic of the ValorHomes listing site

ValorHomes lists homes whose VA-backed mortgage a buyer can assume, keeping the
seller's locked-in rate. The site's loan economics sit in `utils/mortgage.ts`:
the monthly payment of a fixed-rate amortizing loan, the monthly savings of the
assumable rate over the market rate, the total interest over the loan's life,
the equity (cash) a buyer must bring, and two display formatters.

This project models that module in Dafny with exact `real` arithmetic and
proves what the formulas mean:

- `power.dfy` (module `Power`): `Pow(x, n)` for a natural exponent, which models
  `Math.pow(1 + r, n)` once the term is a whole number of months, and the
  geometric sum `Geo(x, n) = 1 + x + ... + x^(n-1)`, with the facts the payment
  proofs rest on.
- `mortgage.dfy` (module `Mortgage`): the payment, savings, total interest and
  equity functions, the market-rate constant (7.0), and an independent month-by-
  month amortization schedule (`Balance`, `InterestCharged`). The payment is
  proved to be the one and only monthly amount that brings the schedule's
  balance to zero after the last payment. It is also proved to rise strictly
  with the rate, which gives the sign of the savings. The total interest is
  proved to be the sum of the monthly interest charges.
- `format.dfy` (module `CurrencyFormat`): `Math.round` as `floor(x + 1/2)`,
  en-US digit grouping for `toLocaleString`, the "$…" and "$…/mo" formatters,
  and a parser that reads a formatted amount back.

The loan term `years` is a `nat`. The payment requires
`principal <= 0 || annualRate < 0 || years >= 1`: the guard answers 0 before any
division, whatever the term, and with a term of 0 the source divides by zero on
every other input.

## Model

| member | source | states |
|---|---|---|
| `Mortgage.MonthlyPayment` | utils/mortgage.ts:12-33 | The payment is never negative. It is positive exactly when principal > 0 and the rate is >= 0, so it is 0 on the guard path (principal <= 0 or rate < 0) for any term. |
| `Mortgage.ZeroRatePayment` | utils/mortgage.ts:24-27 | At 0% on a positive principal, the payment times the number of payments, 12·years, equals the principal. |
| `Mortgage.PaymentExceedsInterest` | utils/mortgage.ts:29-32 | At a positive rate the payment is more than the first month's interest, principal × r, so every payment also repays principal. |
| `Power.PowAboveOne` | utils/mortgage.ts:29-32 | (1 + r)^n > 1 for r > 0 and n >= 1, so the denominator of the closed form is strictly positive. |
| `Mortgage.PaymentAnnuityForm` | utils/mortgage.ts:21-32 | For principal > 0 and rate >= 0, payment × (1 + x + … + x^(n-1)) = principal × x^n with x = 1 + r. This covers both the 0% branch and the closed-form branch. |
| `Mortgage.PaymentAmortizes` | utils/mortgage.ts:21-32 | The month-by-month balance (interest accrued, then the payment taken off) is zero after n = 12·years payments of m if and only if m is the computed payment. |
| `Mortgage.PaymentIncreasesWithRate` | utils/mortgage.ts:21-32 | For principal > 0, a higher non-negative rate gives a strictly higher payment. |
| `Mortgage.MonthlySavings` | utils/mortgage.ts:42-51 | The savings are 0 when the loan balance is <= 0 and 0 when the market rate equals the assumable rate. |
| `Mortgage.MarketRate` | utils/mortgage.ts:58-61 | The current market rate is the fixed value 7.0, a percentage like every other rate here. |
| `Mortgage.SavingsDefaultMarketRate` | utils/mortgage.ts:58-61 | Omitting the market rate is the same as passing 7.0. |
| `Mortgage.SavingsSign` | utils/mortgage.ts:42-51 | On a positive balance with non-negative rates, the savings are > 0, = 0 and < 0 exactly when the market rate is above, equal to and below the assumable rate. |
| `Mortgage.TotalInterest` | utils/mortgage.ts:70-78 | The total interest is −principal whenever the payment guard answers 0, for example at a negative rate. |
| `Mortgage.TotalInterestSign` | utils/mortgage.ts:70-78 | On a positive principal, the total interest is 0 at a 0% rate and positive at any positive rate. |
| `Mortgage.TotalInterestIsScheduleInterest` | utils/mortgage.ts:70-78 | The total interest equals the sum of the interest charged each month on the amortization schedule. |
| `Mortgage.BalanceClosedForm` | utils/mortgage.ts:29-32 | After k months the schedule's balance is principal × x^k − m × (1 + x + … + x^(k-1)), with x = 1 + r the monthly growth factor. |
| `Mortgage.InterestChargedTelescopes` | utils/mortgage.ts:75-77 | Over k months, the interest charged equals the payments made less the principal repaid. |
| `Mortgage.EquityNeeded` | utils/mortgage.ts:86-91 | The equity needed is never negative and covers the gap to the sale price when added to the loan balance. It equals salePrice − loanBalance exactly when salePrice >= loanBalance. It is 0 exactly when salePrice <= loanBalance. |
| `Mortgage.EquityIsLeastTopUp` | utils/mortgage.ts:86-91 | No smaller non-negative cash amount covers the sale price together with the loan. |
| `CurrencyFormat.Round` | utils/mortgage.ts:99 | `Math.round` gives the integer n with n − 1/2 <= x < n + 1/2: the nearest integer, with halves going up. |
| `CurrencyFormat.Digits` | utils/mortgage.ts:99 | The decimal form of a whole number is a non-empty string of digits with no leading zero. |
| `CurrencyFormat.Group` | utils/mortgage.ts:99 | en-US grouping of n >= 1 digits adds (n − 1) / 3 commas. |
| `CurrencyFormat.GroupLayout` | utils/mortgage.ts:99 | In grouped digits a character is a comma exactly when its distance from the end is 3 modulo 4, and every other character is a digit. |
| `CurrencyFormat.StripCommasOfGroup` | utils/mortgage.ts:99 | Removing the grouping commas gives back the digits. |
| `CurrencyFormat.LocaleString` | utils/mortgage.ts:99 | The en-US text of a whole number starts with a minus sign exactly when the number is negative, as when negative monthly savings are shown. The rest has the grouped shape of `GroupLayout`. With its commas removed, the rest reads back as the magnitude. |
| `CurrencyFormat.FormatCurrency` | utils/mortgage.ts:98-100 | The formatted amount starts with "$" and has at least one character after it. |
| `CurrencyFormat.FormatCurrencyRoundTrip` | utils/mortgage.ts:98-100 | Reading the formatted string back gives exactly the rounded amount, so the display loses nothing beyond the rounding. |
| `CurrencyFormat.FormatMonthlyPayment` | utils/mortgage.ts:107-109 | The result is the currency form followed by "/mo", so it starts with "$" and ends with "/mo". |

## Left out

- IEEE-754 doubles: amounts and rates are exact reals, so rounding error, `Infinity` and `NaN` are not modelled. This includes `principal / 0` when years = 0 at a 0% rate, and the zero denominator when years = 0 at a positive rate. The payment's precondition excludes those inputs instead.
- Fractional or negative loan terms: `years` is a natural number, so `Math.pow` with a non-integer exponent is not modelled. Neither is the negative payment the source computes for a negative term, for example 1200 / −12 = −100 at 0%.
- `toLocaleString` is modelled for the en-US locale only (comma grouping, a leading minus sign). Other runtime locales group and sign differently.
- CurrencyFormat.FormatCurrency: does not model that `Math.round` of a small negative amount is −0, which `toLocaleString` shows as "-0". The model shows "$0" there.
- The default term of 30 years is modelled as the constant `DefaultTermYears`, which `MonthlySavings` passes. `MonthlyPayment` and `TotalInterest` always take the term explicitly; Dafny has no default arguments.
- `app/(app)/listings/ListingItem.tsx` carries its own copy of the payment formula without the guards. It is a UI component outside this model.
