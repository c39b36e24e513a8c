/** Loan economics for VA loan assumptions: the monthly payment of a fixed-rate
    amortizing loan, the monthly savings of an assumable rate over the market
    rate, the interest paid over the loan's life and the equity a buyer must
    bring. Amounts and rates are exact reals; a loan term is a whole number of
    years. */
module Mortgage {
  import opened Power

  datatype Option<T> = None | Some(value: T)

  /** Loan term, in years, used when the caller gives none. */
  const DefaultTermYears: nat := 30

  /** An annual percentage rate (5.5 for 5.5%) as a monthly fraction. */
  function MonthlyRate(annualRate: real): real
  {
    annualRate / 100.0 / 12.0
  }

  function NumPayments(years: nat): nat
  {
    years * 12
  }

  /** Monthly payment by the standard amortization formula
      P * r * (1 + r)^n / ((1 + r)^n - 1), with r the monthly rate and n the
      number of monthly payments. A non-positive principal or a negative rate
      gives 0 whatever the term; a 0% rate gives P / n. The term must be at
      least a year unless the guard answers first. */
  function MonthlyPayment(principal: real, annualRate: real, years: nat): (m: real)
    requires principal <= 0.0 || annualRate < 0.0 || years >= 1
    ensures m >= 0.0
    ensures m > 0.0 <==> principal > 0.0 && annualRate >= 0.0
  {
    if principal <= 0.0 || annualRate < 0.0 then 0.0
    else
      var r := MonthlyRate(annualRate);
      var n := NumPayments(years);
      if r == 0.0 then principal / (n as real)
      else
        var g := Pow(1.0 + r, n);
        PowAboveOne(1.0 + r, n);
        ExceedsInterestAlgebra(principal, r, g);
        principal * r * g / (g - 1.0)
  }

  /** At 0% the payments add up to exactly the principal. */
  lemma ZeroRatePayment(principal: real, years: nat)
    requires principal > 0.0 && years >= 1
    ensures MonthlyPayment(principal, 0.0, years) * (NumPayments(years) as real) == principal
  {
  }

  /** At a positive rate the payment is more than the first month's interest,
      so every payment also repays some principal. */
  lemma PaymentExceedsInterest(principal: real, annualRate: real, years: nat)
    requires principal > 0.0 && annualRate > 0.0 && years >= 1
    ensures MonthlyPayment(principal, annualRate, years) > principal * MonthlyRate(annualRate)
  {
    var r := MonthlyRate(annualRate);
    var g := Pow(1.0 + r, NumPayments(years));
    PowAboveOne(1.0 + r, NumPayments(years));
    ExceedsInterestAlgebra(principal, r, g);
  }

  /** P * r * g / (g - 1) > P * r, because g / (g - 1) > 1 for g > 1. */
  lemma ExceedsInterestAlgebra(p: real, r: real, g: real)
    requires p > 0.0 && r > 0.0 && g > 1.0
    ensures p * r * g / (g - 1.0) > p * r
  {
    var pr, d := p * r, g - 1.0;
    var q := pr * g / d;
    assert pr > 0.0 && d > 0.0;
    assert q * d == pr * g;
    assert (q - pr) * d == pr;
  }

  /** Outstanding balance after k monthly payments of m on a principal p,
      the balance growing by the factor x = 1 + r each month: interest
      accrues, then the payment is taken off. */
  function Balance(p: real, x: real, m: real, k: nat): real
  {
    if k == 0 then p else Balance(p, x, m, k - 1) * x - m
  }

  /** Interest charged over the first k months of that schedule at monthly
      rate r. */
  function InterestCharged(p: real, r: real, m: real, k: nat): real
  {
    if k == 0 then 0.0 else InterestCharged(p, r, m, k - 1) + r * Balance(p, 1.0 + r, m, k - 1)
  }

  /** The balance is the principal grown for k months less the payments grown
      from the month each was made. */
  lemma {:induction false} BalanceClosedForm(p: real, x: real, m: real, k: nat)
    ensures Balance(p, x, m, k) == p * Pow(x, k) - m * Geo(x, k)
  {
    if k == 0 {
    } else {
      BalanceClosedForm(p, x, m, k - 1);
    }
  }

  /** Everything paid is either interest or principal: over k months the
      interest charged is the payments made less the principal repaid. */
  lemma {:induction false} InterestChargedTelescopes(p: real, r: real, m: real, k: nat)
    ensures InterestCharged(p, r, m, k) == (k as real) * m - (p - Balance(p, 1.0 + r, m, k))
  {
    if k > 0 {
      InterestChargedTelescopes(p, r, m, k - 1);
    }
  }

  /** For a positive principal and a non-negative rate the payment is
      P * (1 + r)^n / (1 + (1 + r) + ... + (1 + r)^(n-1)), the annuity form,
      which also covers the 0% case. */
  lemma PaymentAnnuityForm(principal: real, annualRate: real, years: nat)
    requires principal > 0.0 && annualRate >= 0.0 && years >= 1
    ensures MonthlyPayment(principal, annualRate, years) * Geo(1.0 + MonthlyRate(annualRate), NumPayments(years))
         == principal * Pow(1.0 + MonthlyRate(annualRate), NumPayments(years))
  {
    if annualRate == 0.0 {
      PowOfOne(NumPayments(years));
      GeoOfOne(NumPayments(years));
    } else {
      AnnuityFormPositiveRate(principal, annualRate, years);
    }
  }

  lemma AnnuityFormPositiveRate(principal: real, annualRate: real, years: nat)
    requires principal > 0.0 && annualRate > 0.0 && years >= 1
    ensures MonthlyPayment(principal, annualRate, years) * Geo(1.0 + MonthlyRate(annualRate), NumPayments(years))
         == principal * Pow(1.0 + MonthlyRate(annualRate), NumPayments(years))
  {
    var r := MonthlyRate(annualRate);
    var n := NumPayments(years);
    GeoTelescopes(1.0 + r, n);
    PowAboveOne(1.0 + r, n);
    AnnuityAlgebra(principal, r, Pow(1.0 + r, n), Geo(1.0 + r, n), MonthlyPayment(principal, annualRate, years));
  }

  /** From r * G = g - 1: (P * r * g / (g - 1)) * G = P * g. */
  lemma AnnuityAlgebra(p: real, r: real, g: real, geo: real, m: real)
    requires g > 1.0 && r * geo == g - 1.0 && m == p * r * g / (g - 1.0)
    ensures m * geo == p * g
  {
    var d := g - 1.0;
    assert m * d == p * r * g;
    assert m * d * geo == p * g * (r * geo);
    assert m * geo * d == p * g * d;
  }

  /** The payment pays the loan off exactly: the balance after the last
      scheduled payment is zero, and no other monthly amount does that. */
  lemma PaymentAmortizes(principal: real, annualRate: real, years: nat, m: real)
    requires principal > 0.0 && annualRate >= 0.0 && years >= 1
    ensures Balance(principal, 1.0 + MonthlyRate(annualRate), m, NumPayments(years)) == 0.0
        <==> m == MonthlyPayment(principal, annualRate, years)
  {
    var n := NumPayments(years);
    var x := 1.0 + MonthlyRate(annualRate);
    var pay := MonthlyPayment(principal, annualRate, years);
    BalanceClosedForm(principal, x, m, n);
    PaymentAnnuityForm(principal, annualRate, years);
    GeoAtLeastOne(x, n);
    AmortizesAlgebra(principal, m, pay, Pow(x, n), Geo(x, n), Balance(principal, x, m, n));
  }

  /** The arithmetic of PaymentAmortizes on plain reals. */
  lemma AmortizesAlgebra(p: real, m: real, pay: real, pw: real, geo: real, balance: real)
    requires geo >= 1.0 && pay * geo == p * pw && balance == p * pw - m * geo
    ensures balance == 0.0 <==> m == pay
  {
    assert balance == (pay - m) * geo;
    if balance == 0.0 {
      assert (pay - m) * geo == 0.0;
    }
  }

  /** Division-free comparison behind PaymentIncreasesWithRate. */
  lemma RatioLess(p: real, m1: real, m2: real, g1: real, g2: real, geo1: real, geo2: real)
    requires p > 0.0 && geo1 > 0.0 && geo2 > 0.0
    requires m1 * geo1 == p * g1 && m2 * geo2 == p * g2
    requires g1 * geo2 < g2 * geo1
    ensures m1 < m2
  {
    assert p * (g1 * geo2) < p * (g2 * geo1);
    assert (m1 * geo1) * geo2 < (m2 * geo2) * geo1;
    assert (m1 * geo1 * geo2) < (m2 * geo1 * geo2);
  }

  /** For a positive principal, a higher non-negative rate always means a
      strictly higher monthly payment. */
  lemma PaymentIncreasesWithRate(principal: real, lowRate: real, highRate: real, years: nat)
    requires principal > 0.0 && 0.0 <= lowRate < highRate && years >= 1
    ensures MonthlyPayment(principal, lowRate, years) < MonthlyPayment(principal, highRate, years)
  {
    var n := NumPayments(years);
    var x1, x2 := 1.0 + MonthlyRate(lowRate), 1.0 + MonthlyRate(highRate);
    PaymentAnnuityForm(principal, lowRate, years);
    PaymentAnnuityForm(principal, highRate, years);
    PowOverGeoIncreasing(x1, x2, n);
    GeoAtLeastOne(x1, n);
    GeoAtLeastOne(x2, n);
    RatioLess(principal, MonthlyPayment(principal, lowRate, years), MonthlyPayment(principal, highRate, years),
              Pow(x1, n), Pow(x2, n), Geo(x1, n), Geo(x2, n));
  }

  /** The reference market rate used when the caller gives none, as a
      percentage. */
  function MarketRate(): (rate: real)
    ensures rate == 7.0
  {
    7.0
  }

  /** Monthly savings of the assumable rate over the market rate on the same
      balance and the default term: the market payment less the assumable
      payment. An absent market rate means MarketRate(). */
  function MonthlySavings(loanBalance: real, assumableRate: real, marketRate: Option<real>): (s: real)
    ensures loanBalance <= 0.0 ==> s == 0.0
    ensures marketRate == Some(assumableRate) ==> s == 0.0
  {
    var currentMarketRate := if marketRate.Some? then marketRate.value else MarketRate();
    MonthlyPayment(loanBalance, currentMarketRate, DefaultTermYears)
      - MonthlyPayment(loanBalance, assumableRate, DefaultTermYears)
  }

  /** Leaving the market rate out is the same as passing 7.0. */
  lemma SavingsDefaultMarketRate(loanBalance: real, assumableRate: real)
    ensures MonthlySavings(loanBalance, assumableRate, None) == MonthlySavings(loanBalance, assumableRate, Some(7.0))
  {
  }

  /** On a positive balance with non-negative rates, the savings are positive
      exactly when the market rate is above the assumable rate, zero exactly
      when they are equal and negative exactly when it is below. */
  lemma SavingsSign(loanBalance: real, assumableRate: real, marketRate: real)
    requires loanBalance > 0.0 && assumableRate >= 0.0 && marketRate >= 0.0
    ensures MonthlySavings(loanBalance, assumableRate, Some(marketRate)) > 0.0 <==> marketRate > assumableRate
    ensures MonthlySavings(loanBalance, assumableRate, Some(marketRate)) == 0.0 <==> marketRate == assumableRate
    ensures MonthlySavings(loanBalance, assumableRate, Some(marketRate)) < 0.0 <==> marketRate < assumableRate
  {
    if assumableRate < marketRate {
      PaymentIncreasesWithRate(loanBalance, assumableRate, marketRate, DefaultTermYears);
    } else if marketRate < assumableRate {
      PaymentIncreasesWithRate(loanBalance, marketRate, assumableRate, DefaultTermYears);
    }
  }

  /** Interest over the life of the loan: everything paid less the principal.
      When the payment guard answers 0 this is -principal. */
  function TotalInterest(principal: real, annualRate: real, years: nat): (t: real)
    requires principal <= 0.0 || annualRate < 0.0 || years >= 1
    ensures principal <= 0.0 || annualRate < 0.0 ==> t == -principal
  {
    MonthlyPayment(principal, annualRate, years) * (years as real) * 12.0 - principal
  }

  /** On a positive principal, a 0% loan costs no interest and any positive
      rate costs some. */
  lemma TotalInterestSign(principal: real, annualRate: real, years: nat)
    requires principal > 0.0 && annualRate >= 0.0 && years >= 1
    ensures annualRate == 0.0 ==> TotalInterest(principal, annualRate, years) == 0.0
    ensures annualRate > 0.0 ==> TotalInterest(principal, annualRate, years) > 0.0
  {
    ZeroRatePayment(principal, years);
    if annualRate > 0.0 {
      PaymentIncreasesWithRate(principal, 0.0, annualRate, years);
      var n := NumPayments(years) as real;
      var m0, m := MonthlyPayment(principal, 0.0, years), MonthlyPayment(principal, annualRate, years);
      assert m0 * n == principal;
      assert m * n > m0 * n;
    }
  }

  /** The total interest is the sum of the interest charged month by month
      on the amortization schedule. */
  lemma TotalInterestIsScheduleInterest(principal: real, annualRate: real, years: nat)
    requires principal > 0.0 && annualRate >= 0.0 && years >= 1
    ensures TotalInterest(principal, annualRate, years)
         == InterestCharged(principal, MonthlyRate(annualRate), MonthlyPayment(principal, annualRate, years), NumPayments(years))
  {
    var m := MonthlyPayment(principal, annualRate, years);
    var r, n := MonthlyRate(annualRate), NumPayments(years);
    PaymentAmortizes(principal, annualRate, years, m);
    InterestChargedTelescopes(principal, r, m, n);
    ScheduleAlgebra(principal, m, years, Balance(principal, 1.0 + r, m, n), InterestCharged(principal, r, m, n));
  }

  /** The arithmetic of TotalInterestIsScheduleInterest on plain reals. */
  lemma ScheduleAlgebra(p: real, m: real, years: nat, balance: real, interest: real)
    requires balance == 0.0 && interest == (NumPayments(years) as real) * m - (p - balance)
    ensures interest == m * (years as real) * 12.0 - p
  {
  }

  /** Cash a buyer must bring on top of the assumed loan: the sale price less
      the loan balance, never below zero. */
  function EquityNeeded(salePrice: real, loanBalance: real): (e: real)
    ensures e >= 0.0
    ensures loanBalance + e >= salePrice
    ensures e == salePrice - loanBalance <==> salePrice >= loanBalance
    ensures e == 0.0 <==> salePrice <= loanBalance
  {
    if 0.0 >= salePrice - loanBalance then 0.0 else salePrice - loanBalance
  }

  /** EquityNeeded is the least non-negative amount that, with the loan,
      covers the sale price. */
  lemma EquityIsLeastTopUp(salePrice: real, loanBalance: real, cash: real)
    requires cash >= 0.0 && loanBalance + cash >= salePrice
    ensures EquityNeeded(salePrice, loanBalance) <= cash
  {
  }
}
