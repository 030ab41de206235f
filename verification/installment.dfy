/**
 The monthly installment of a loan under the French (annuity) amortization
 method, computed from the amount lent, the annual interest rate in percent and
 the term in months.

 The service computes the power term in double precision and the rest in
 decimal; the model states the formula exactly over `real`. Because the term is
 a positive whole number of months, (1 + r)^-n is written 1 / (1 + r)^n.
 */
module Installment {
  import opened Results

  /** x raised to the natural power n. */
  function Pow(x: real, n: nat): real
  {
    if n == 0 then 1.0 else x * Pow(x, n - 1)
  }

  lemma {:induction false} PowPositive(x: real, n: nat)
    requires x > 0.0
    ensures Pow(x, n) > 0.0
  {
    if n > 0 {
      PowPositive(x, n - 1);
      assert x * Pow(x, n - 1) > 0.0;
    }
  }

  /** A base above one raised to a positive power stays above one. */
  lemma {:induction false} PowAboveOne(x: real, n: nat)
    requires x > 1.0 && n >= 1
    ensures Pow(x, n) > 1.0
  {
    if n > 1 {
      PowAboveOne(x, n - 1);
      var p := Pow(x, n - 1);
      assert x * p - p == (x - 1.0) * p;
      assert (x - 1.0) * p > 0.0;
    }
  }

  /** A product of two positive reals is positive. */
  lemma MulPositive(a: real, b: real)
    requires a > 0.0 && b > 0.0
    ensures a * b > 0.0
  {
  }

  /** A positive product with a positive factor has a positive other factor. */
  lemma PositiveFactor(a: real, b: real)
    requires a * b > 0.0 && b > 0.0
    ensures a > 0.0
  {
    if a < 0.0 {
      MulPositive(-a, b);
    }
  }

  /** A zero product has a zero factor. */
  lemma MulZero(a: real, b: real)
    requires a * b == 0.0
    ensures a == 0.0 || b == 0.0
  {
    if a != 0.0 {
      assert b == (a * b) / a;
    }
  }

  /** The monthly rate as a fraction, from an annual rate given in percent. */
  function MonthlyRate(annualRate: real): (r: real)
    ensures r > 0.0 <==> annualRate > 0.0
    ensures 1200.0 * r == annualRate
  {
    annualRate / 100.0 / 12.0
  }

  /** The inputs the calculator accepts: all three strictly positive. */
  predicate ValidTerms(amount: real, annualRate: real, termMonths: int)
  {
    amount > 0.0 && annualRate > 0.0 && termMonths > 0
  }

  /**
   The installment calculator. Any non-positive amount, rate or term is
   refused before anything is computed; otherwise the result is
   P * r / (1 - 1 / (1 + r)^n) with r the monthly rate.
   */
  function MonthlyInstallment(amount: real, annualRate: real, termMonths: int): (r: Result<real>)
    ensures r.Failure? <==> amount <= 0.0 || annualRate <= 0.0 || termMonths <= 0
    ensures r.Failure? ==> r.error == InvalidInput
    ensures r.Success? ==> r.value > 0.0
  {
    if amount <= 0.0 || annualRate <= 0.0 || termMonths <= 0 then
      Failure(InvalidInput)
    else
      var i := MonthlyRate(annualRate);
      var growth := Pow(1.0 + i, termMonths);
      PowAboveOne(1.0 + i, termMonths);
      assert 1.0 / growth < 1.0;
      assert amount * i > 0.0;
      Success(amount * i / (1.0 - 1.0 / growth))
  }

  /**
   The amortization schedule: the balance still owed after k monthly payments
   of q, where each month the balance first accrues interest at the monthly
   rate i and then the payment is deducted.
   */
  function Balance(principal: real, i: real, q: real, k: nat): real
  {
    if k == 0 then principal else Balance(principal, i, q, k - 1) * (1.0 + i) - q
  }

  /**
   The closed form of the schedule, kept free of division: b is the balance
   left of principal P at rate i by payments q once the debt has grown by g.
   */
  predicate ClosedForm(b: real, principal: real, i: real, q: real, g: real)
  {
    i * b == i * principal * g - q * (g - 1.0)
  }

  /** q is the annuity payment for principal P at rate i, g being the growth over the term. */
  predicate AnnuityRoot(q: real, principal: real, i: real, g: real)
  {
    q * (g - 1.0) == principal * i * g
  }

  lemma {:induction false} BalanceClosedForm(principal: real, i: real, q: real, k: nat)
    ensures ClosedForm(Balance(principal, i, q, k), principal, i, q, Pow(1.0 + i, k))
  {
    if k > 0 {
      BalanceClosedForm(principal, i, q, k - 1);
      ClosedFormStep(Balance(principal, i, q, k - 1), principal, i, q, Pow(1.0 + i, k - 1));
    }
  }

  /** One month of the schedule keeps the closed form. */
  lemma ClosedFormStep(b: real, principal: real, i: real, q: real, p: real)
    requires ClosedForm(b, principal, i, q, p)
    ensures ClosedForm(b * (1.0 + i) - q, principal, i, q, (1.0 + i) * p)
  {
    var a := 1.0 + i;
    calc {
      i * (b * a - q);
      (i * b) * a - i * q;
      (i * principal * p - q * (p - 1.0)) * a - i * q;
      i * principal * (a * p) - q * (a * p) + q * (a - i);
      i * principal * (a * p) - q * (a * p - 1.0);
    }
  }

  /**
   The installment, written against G = (1 + r)^n: it is the payment q with
   q * (G - 1) == P * r * G.
   */
  lemma InstallmentEquation(amount: real, annualRate: real, termMonths: int)
    requires ValidTerms(amount, annualRate, termMonths)
    ensures var i := MonthlyRate(annualRate);
            var g := Pow(1.0 + i, termMonths);
            && g > 1.0
            && AnnuityRoot(MonthlyInstallment(amount, annualRate, termMonths).value, amount, i, g)
  {
    var i := MonthlyRate(annualRate);
    var g := Pow(1.0 + i, termMonths);
    PowAboveOne(1.0 + i, termMonths);
    var d := 1.0 - 1.0 / g;
    var q := MonthlyInstallment(amount, annualRate, termMonths).value;
    assert q == amount * i / d;
    assert d > 0.0;
    assert q * d == amount * i;
    assert d * g == g - 1.0;
    calc {
      q * (g - 1.0);
      q * (d * g);
      (q * d) * g;
      amount * i * g;
    }
  }

  /**
   The French method's promise: paying the computed installment every month
   leaves nothing owed after the last month.
   */
  lemma InstallmentRepaysLoan(amount: real, annualRate: real, termMonths: int)
    requires ValidTerms(amount, annualRate, termMonths)
    ensures MonthlyInstallment(amount, annualRate, termMonths).Success?
    ensures Balance(amount, MonthlyRate(annualRate),
                    MonthlyInstallment(amount, annualRate, termMonths).value, termMonths) == 0.0
  {
    var i := MonthlyRate(annualRate);
    var q := MonthlyInstallment(amount, annualRate, termMonths).value;
    InstallmentEquation(amount, annualRate, termMonths);
    ZeroBalanceIffRoot(amount, i, q, q, termMonths);
  }

  /**
   The installment is the only constant payment that repays the loan exactly
   over the term.
   */
  lemma OnlyInstallmentRepaysLoan(amount: real, annualRate: real, termMonths: int, q: real)
    requires ValidTerms(amount, annualRate, termMonths)
    ensures Balance(amount, MonthlyRate(annualRate), q, termMonths) == 0.0
        <==> q == MonthlyInstallment(amount, annualRate, termMonths).value
  {
    var i := MonthlyRate(annualRate);
    var g := Pow(1.0 + i, termMonths);
    var q0 := MonthlyInstallment(amount, annualRate, termMonths).value;
    InstallmentEquation(amount, annualRate, termMonths);
    ZeroBalanceIffRoot(amount, i, q, q0, termMonths);
  }

  /**
   Over a term of n months at monthly rate i, a payment q clears the balance
   exactly when it is the root q0 of q0 * (G - 1) == P * i * G, G = (1 + i)^n.
   */
  lemma ZeroBalanceIffRoot(amount: real, i: real, q: real, q0: real, n: nat)
    requires i > 0.0 && n >= 1
    requires AnnuityRoot(q0, amount, i, Pow(1.0 + i, n))
    ensures Balance(amount, i, q, n) == 0.0 <==> q == q0
  {
    PowAboveOne(1.0 + i, n);
    BalanceClosedForm(amount, i, q, n);
    ZeroBalanceIffInstallment(amount, i, Pow(1.0 + i, n), q, q0, Balance(amount, i, q, n));
  }

  /** The arithmetic step of OnlyInstallmentRepaysLoan, with the power as a plain number g. */
  lemma ZeroBalanceIffInstallment(amount: real, i: real, g: real, q: real, q0: real, b: real)
    requires i > 0.0 && g > 1.0
    requires ClosedForm(b, amount, i, q, g)
    requires AnnuityRoot(q0, amount, i, g)
    ensures b == 0.0 <==> q == q0
  {
    var d := g - 1.0;
    assert i * amount * g == amount * i * g;
    assert i * b == q0 * d - q * d;
    assert q0 * d - q * d == (q0 - q) * d;
    if b == 0.0 {
      MulZero(q0 - q, d);
    } else if q == q0 {
      MulZero(i, b);
    }
  }

  /** (1 + i)^n * (1 - n * i) never exceeds one, and falls below it once n >= 1. */
  lemma {:induction false} GrowthBound(i: real, n: nat)
    requires i > 0.0
    ensures Pow(1.0 + i, n) * (1.0 - (n as real) * i) <= 1.0
    ensures n >= 1 ==> Pow(1.0 + i, n) * (1.0 - (n as real) * i) < 1.0
  {
    if n > 0 {
      GrowthBound(i, n - 1);
      PowPositive(1.0 + i, n - 1);
      GrowthStep(i, Pow(1.0 + i, n - 1), (n - 1) as real);
      assert (n as real) == ((n - 1) as real) + 1.0;
      assert Pow(1.0 + i, n) == (1.0 + i) * Pow(1.0 + i, n - 1);
    }
  }

  /** One month's step of GrowthBound, with (1 + i)^m as a plain number p. */
  lemma GrowthStep(i: real, p: real, m: real)
    requires i > 0.0 && p > 0.0 && m >= 0.0
    requires p * (1.0 - m * i) <= 1.0
    ensures (1.0 + i) * p * (1.0 - (m + 1.0) * i) < 1.0
  {
    var x := p * (m + 1.0) * i * i;
    MulPositive(p, m + 1.0);
    MulPositive(p * (m + 1.0), i);
    MulPositive(p * (m + 1.0) * i, i);
    assert (1.0 + i) * p * (1.0 - (m + 1.0) * i) == p * (1.0 - m * i) - x;
  }

  /**
   For any positive rate the borrower pays back strictly more than was lent:
   term times installment exceeds the amount.
   */
  lemma TotalRepaidExceedsAmount(amount: real, annualRate: real, termMonths: int)
    requires ValidTerms(amount, annualRate, termMonths)
    ensures MonthlyInstallment(amount, annualRate, termMonths).value * (termMonths as real) > amount
  {
    var i := MonthlyRate(annualRate);
    var g := Pow(1.0 + i, termMonths);
    var q := MonthlyInstallment(amount, annualRate, termMonths).value;
    InstallmentEquation(amount, annualRate, termMonths);
    GrowthBound(i, termMonths);
    ScaledAboveAmount(amount, i, g, termMonths as real, q);
  }

  /** The arithmetic step of TotalRepaidExceedsAmount, with the power as a plain number g. */
  lemma ScaledAboveAmount(amount: real, i: real, g: real, n: real, q: real)
    requires amount > 0.0 && g > 1.0
    requires g * (1.0 - n * i) < 1.0
    requires AnnuityRoot(q, amount, i, g)
    ensures q * n > amount
  {
    assert q * (g - 1.0) == amount * i * g;
    assert n * i * g - (g - 1.0) > 0.0;
    MulPositive(amount, n * i * g - (g - 1.0));
    assert (q * n - amount) * (g - 1.0) == amount * (n * i * g - (g - 1.0));
    assert (q * n - amount) * (g - 1.0) > 0.0;
    PositiveFactor(q * n - amount, g - 1.0);
  }

  /** The worked example: 10000 lent at 12% a year over 12 months costs about 888.49 a month. */
  lemma ExampleInstallment()
    ensures MonthlyInstallment(10000.0, 12.0, 12).Success?
    ensures 888.48 < MonthlyInstallment(10000.0, 12.0, 12).value < 888.50
  {
    assert MonthlyRate(12.0) == 0.01;
    assert Pow(1.01, 12) == 1.126825030131969720661201;
    var q := MonthlyInstallment(10000.0, 12.0, 12).value;
    assert q == 100.0 / (1.0 - 1.0 / 1.126825030131969720661201);
  }
}
