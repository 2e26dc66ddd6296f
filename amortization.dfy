/**
 * The amortization engine inside `LoanBuilder::build`: the annuity payment
 * and the schedule that the loop of `build` produces, over exact `real`
 * arithmetic. The loop itself is `Loaner.LoanBuilder.Build`; this module
 * states what it computes (`IsSchedule`) and proves what such a schedule
 * means: the balance left after the last month, the total interest, the
 * single-month and zero-principal cases, and that the schedule is unique.
 */
module Amortization {

  /** One month of the schedule: `Payment` in the source. */
  datatype Payment = Payment(
    monthIndex: nat,
    startPrincipal: real,
    interestsPart: real,
    principalPart: real,
    amount: real)

  /** The principal left once the month's principal part is paid. */
  function EndPrincipal(p: Payment): real
  {
    p.startPrincipal - p.principalPart
  }

  /** x^n for a natural exponent: `powf` applied to `n as f64`. */
  function Pow(x: real, n: nat): real
  {
    if n == 0 then 1.0 else x * Pow(x, n - 1)
  }

  /** The annuity formula divides by (1 + i)^n - 1, where i = annualRate / 12. */
  predicate PaymentDefined(annualRate: real, n: nat)
  {
    Pow(1.0 + annualRate / 12.0, n) != 1.0
  }

  /** The fixed monthly payment P * (i * (1 + i)^n / ((1 + i)^n - 1)). */
  function MonthlyPayment(principal: real, annualRate: real, n: nat): real
    requires PaymentDefined(annualRate, n)
  {
    var i := annualRate / 12.0;
    principal * (i * Pow(1.0 + i, n) / (Pow(1.0 + i, n) - 1.0))
  }

  /** The annuity payment m solves m * ((1 + i)^n - 1) == P * i * (1 + i)^n. */
  lemma MonthlyPaymentEquation(principal: real, annualRate: real, n: nat)
    requires PaymentDefined(annualRate, n)
    ensures var i := annualRate / 12.0;
      MonthlyPayment(principal, annualRate, n) * (Pow(1.0 + i, n) - 1.0) == principal * i * Pow(1.0 + i, n)
  {
  }

  /** A positive principal at a positive rate gives a positive payment, and the formula is defined there. */
  lemma MonthlyPaymentPositive(principal: real, annualRate: real, n: nat)
    requires principal > 0.0 && annualRate > 0.0 && n >= 1
    ensures PaymentDefined(annualRate, n) && MonthlyPayment(principal, annualRate, n) > 0.0
  {
    var i := annualRate / 12.0;
    var xn := Pow(1.0 + i, n);
    PowAboveOne(1.0 + i, n);
    assert i * xn > 0.0;
    assert i * xn / (xn - 1.0) > 0.0;
  }

  /**
   * What the loop of `build` produces for a fixed monthly payment m:
   * months numbered from 0, the first one starting from the principal,
   * each one starting from the previous one's end principal, and each
   * split the same way into interest and principal.
   */
  ghost predicate IsSchedule(ps: seq<Payment>, principal: real, annualRate: real, m: real)
  {
    && (|ps| > 0 ==> ps[0].startPrincipal == principal)
    && (forall k :: 0 <= k < |ps| ==> ps[k].monthIndex == k)
    && (forall k :: 0 <= k < |ps| ==> MonthSplit(ps[k], annualRate, m))
    && (forall k :: 0 <= k < |ps| - 1 ==> ps[k + 1].startPrincipal == EndPrincipal(ps[k]))
  }

  /** One month's split of the payment m into interest on the start principal and principal. */
  predicate MonthSplit(pay: Payment, annualRate: real, m: real)
    ensures MonthSplit(pay, annualRate, m) ==> pay.amount == m
  {
    && pay.interestsPart == annualRate / 12.0 * pay.startPrincipal
    && pay.principalPart == m - pay.interestsPart
    && pay.amount == pay.principalPart + pay.interestsPart
  }

  /** The principal left after the whole schedule (the principal itself when it is empty). */
  function FinalPrincipal(ps: seq<Payment>, principal: real): real
  {
    if ps == [] then principal else EndPrincipal(ps[|ps| - 1])
  }

  /** The fold `0 + p0.interestsPart + p1.interestsPart + ...`, evaluated left to right. */
  function SumInterests(ps: seq<Payment>): (total: real)
  {
    if ps == [] then 0.0 else SumInterests(ps[..|ps| - 1]) + ps[|ps| - 1].interestsPart
  }

  /** The fold is nonnegative when every interest part is, and zero when every interest part is. */
  lemma {:induction false} SumInterestsSigns(ps: seq<Payment>)
    ensures (forall k :: 0 <= k < |ps| ==> ps[k].interestsPart >= 0.0) ==> SumInterests(ps) >= 0.0
    ensures (forall k :: 0 <= k < |ps| ==> ps[k].interestsPart == 0.0) ==> SumInterests(ps) == 0.0
  {
    if ps != [] {
      var front := ps[..|ps| - 1];
      assert forall k :: 0 <= k < |front| ==> front[k] == ps[k];
      SumInterestsSigns(front);
    }
  }

  /** The remaining principal after k months of paying m, by the loop's recurrence. */
  ghost function Balance(principal: real, annualRate: real, m: real, k: nat): real
  {
    if k == 0 then principal
    else
      var b := Balance(principal, annualRate, m, k - 1);
      b - (m - annualRate / 12.0 * b)
  }

  /** 1 + x + ... + x^(k-1). */
  ghost function Geometric(x: real, k: nat): real
  {
    if k == 0 then 0.0 else x * Geometric(x, k - 1) + 1.0
  }

  // ---------------------------------------------------------------------
  // When the annuity formula is defined

  lemma {:induction false} PowOfOne(n: nat)
    ensures Pow(1.0, n) == 1.0
  {
    if n > 0 {
      PowOfOne(n - 1);
    }
  }

  lemma {:induction false} PowAboveOne(x: real, n: nat)
    requires x > 1.0
    ensures n == 0 ==> Pow(x, n) == 1.0
    ensures n > 0 ==> Pow(x, n) > 1.0
  {
    if n > 0 {
      PowAboveOne(x, n - 1);
      var y := Pow(x, n - 1);
      assert y >= 1.0;
      assert x * y - y == (x - 1.0) * y;
      assert (x - 1.0) * y > 0.0;
    }
  }

  /**
   * For a rate the setters accept and a term of at least one month, the
   * annuity formula is defined exactly when the rate is not zero: at rate 0
   * the source divides 0 by 0.
   */
  lemma PaymentDefinedIffPositiveRate(annualRate: real, n: nat)
    requires 0.0 <= annualRate && n >= 1
    ensures PaymentDefined(annualRate, n) <==> annualRate > 0.0
  {
    if annualRate == 0.0 {
      PowOfOne(n);
    } else {
      PowAboveOne(1.0 + annualRate / 12.0, n);
    }
  }

  // ---------------------------------------------------------------------
  // The remaining principal

  /** A schedule follows the balance recurrence month by month. */
  lemma {:induction false} ScheduleFollowsBalance(ps: seq<Payment>, principal: real, annualRate: real, m: real, k: nat)
    requires IsSchedule(ps, principal, annualRate, m)
    requires k < |ps|
    ensures ps[k].startPrincipal == Balance(principal, annualRate, m, k)
    ensures EndPrincipal(ps[k]) == Balance(principal, annualRate, m, k + 1)
  {
    if k > 0 {
      ScheduleFollowsBalance(ps, principal, annualRate, m, k - 1);
      assert ps[k].startPrincipal == EndPrincipal(ps[k - 1]);
    }
  }

  lemma {:induction false} GeometricSum(x: real, k: nat)
    ensures (x - 1.0) * Geometric(x, k) == Pow(x, k) - 1.0
  {
    if k > 0 {
      GeometricSum(x, k - 1);
      var g := Geometric(x, k - 1);
      calc {
        (x - 1.0) * Geometric(x, k);
        (x - 1.0) * (x * g + 1.0);
        x * ((x - 1.0) * g) + x - 1.0;
        x * (Pow(x, k - 1) - 1.0) + x - 1.0;
        x * Pow(x, k - 1) - 1.0;
      }
    }
  }

  /** One month of the recurrence, on the closed form. */
  lemma ClosedFormStep(principal: real, i: real, m: real, b: real, xs: real, g: real, b': real, xs': real, g': real)
    requires b == principal * xs - m * g
    requires b' == b - (m - i * b) && xs' == (1.0 + i) * xs && g' == (1.0 + i) * g + 1.0
    ensures b' == principal * xs' - m * g'
  {
  }

  /** Closed form of the balance: P * x^k - m * (1 + x + ... + x^(k-1)), with x = 1 + i. */
  lemma {:induction false} BalanceClosedForm(principal: real, annualRate: real, m: real, k: nat)
    ensures Balance(principal, annualRate, m, k)
         == principal * Pow(1.0 + annualRate / 12.0, k) - m * Geometric(1.0 + annualRate / 12.0, k)
  {
    if k > 0 {
      var i := annualRate / 12.0;
      var b, xs, g := Balance(principal, annualRate, m, k - 1), Pow(1.0 + i, k - 1), Geometric(1.0 + i, k - 1);
      var b', xs', g' := Balance(principal, annualRate, m, k), Pow(1.0 + i, k), Geometric(1.0 + i, k);
      assert b == principal * xs - m * g by {
        BalanceClosedForm(principal, annualRate, m, k - 1);
      }
      assert b' == b - (m - i * b);
      assert xs' == (1.0 + i) * xs;
      assert g' == (1.0 + i) * g + 1.0;
      ClosedFormStep(principal, i, m, b, xs, g, b', xs', g');
    }
  }

  /** m * g == P * xn exactly when m is the payment mp with mp * (xn - 1) == P * i * xn, given xn - 1 == i * g != 0. */
  lemma AnnuityAlgebra(principal: real, i: real, xn: real, g: real, m: real, mp: real)
    requires i * g == xn - 1.0 && xn - 1.0 != 0.0
    requires mp * (xn - 1.0) == principal * i * xn
    ensures m * g == principal * xn <==> m == mp
  {
    var d := xn - 1.0;
    assert i != 0.0;
    assert m * d == m * i * g;
    if m * g == principal * xn {
      assert m * d == principal * i * xn;
      assert m * d == mp * d;
    }
    if m == mp {
      assert m * i * g == principal * i * xn;
      assert i * (m * g) == i * (principal * xn);
    }
  }

  /**
   * After n months the balance is zero exactly when m is the annuity
   * payment: the formula is the one constant payment that repays the loan.
   */
  lemma AnnuityRepaysLoan(principal: real, annualRate: real, m: real, n: nat)
    requires PaymentDefined(annualRate, n)
    ensures Balance(principal, annualRate, m, n) == 0.0 <==> m == MonthlyPayment(principal, annualRate, n)
  {
    var i := annualRate / 12.0;
    var xn := Pow(1.0 + i, n);
    var g := Geometric(1.0 + i, n);
    var mp := MonthlyPayment(principal, annualRate, n);
    assert mp * (xn - 1.0) == principal * i * xn by {
      MonthlyPaymentEquation(principal, annualRate, n);
    }
    assert i * g == xn - 1.0 by {
      GeometricSum(1.0 + i, n);
      assert (1.0 + i - 1.0) * g == i * g;
    }
    assert Balance(principal, annualRate, m, n) == principal * xn - m * g by {
      BalanceClosedForm(principal, annualRate, m, n);
    }
    AnnuityAlgebra(principal, i, xn, g, m, mp);
  }

  /**
   * The schedule `build` produces repays the loan exactly when its monthly
   * payment is the annuity payment; in exact arithmetic the last month ends
   * with nothing left to pay.
   */
  lemma ScheduleRepaysLoan(ps: seq<Payment>, principal: real, annualRate: real, m: real)
    requires IsSchedule(ps, principal, annualRate, m)
    requires |ps| >= 1 && PaymentDefined(annualRate, |ps|)
    ensures EndPrincipal(ps[|ps| - 1]) == 0.0 <==> m == MonthlyPayment(principal, annualRate, |ps|)
  {
    ScheduleFollowsBalance(ps, principal, annualRate, m, |ps| - 1);
    AnnuityRepaysLoan(principal, annualRate, m, |ps|);
  }

  /** Appending the next month, computed as the loop computes it, keeps a schedule a schedule. */
  lemma ScheduleExtend(ps: seq<Payment>, principal: real, annualRate: real, m: real, next: Payment)
    requires IsSchedule(ps, principal, annualRate, m)
    requires next.monthIndex == |ps| && next.startPrincipal == FinalPrincipal(ps, principal)
    requires MonthSplit(next, annualRate, m)
    ensures IsSchedule(ps + [next], principal, annualRate, m)
    ensures FinalPrincipal(ps + [next], principal) == EndPrincipal(next)
  {
  }

  // ---------------------------------------------------------------------
  // Total interest

  lemma SchedulePrefix(ps: seq<Payment>, principal: real, annualRate: real, m: real, k: nat)
    requires IsSchedule(ps, principal, annualRate, m) && k <= |ps|
    ensures IsSchedule(ps[..k], principal, annualRate, m)
  {
  }

  /**
   * The interest paid is what was paid in all minus the principal repaid:
   * SumInterests(ps) == |ps| * m - (principal - FinalPrincipal(ps)).
   */
  lemma {:induction false} InterestsArePaymentsMinusRepaid(ps: seq<Payment>, principal: real, annualRate: real, m: real)
    requires IsSchedule(ps, principal, annualRate, m)
    ensures SumInterests(ps) == |ps| as real * m - (principal - FinalPrincipal(ps, principal))
  {
    if ps != [] {
      var n := |ps|;
      var front := ps[..n - 1];
      SchedulePrefix(ps, principal, annualRate, m, n - 1);
      InterestsArePaymentsMinusRepaid(front, principal, annualRate, m);
      var last := ps[n - 1];
      assert last.startPrincipal == FinalPrincipal(front, principal) by {
        if n > 1 {
          assert front[n - 2] == ps[n - 2];
        }
      }
      assert last.principalPart == m - last.interestsPart by {
        assert MonthSplit(last, annualRate, m);
      }
      assert SumInterests(ps) == SumInterests(front) + last.interestsPart;
      assert FinalPrincipal(ps, principal) == last.startPrincipal - last.principalPart;
      assert (n - 1) as real * m + m == n as real * m;
    }
  }

  /** With the annuity payment the total interest is n * m - P. */
  lemma TotalInterestsOfAnnuity(ps: seq<Payment>, principal: real, annualRate: real, m: real)
    requires |ps| >= 1 && PaymentDefined(annualRate, |ps|)
    requires m == MonthlyPayment(principal, annualRate, |ps|)
    requires IsSchedule(ps, principal, annualRate, m)
    ensures SumInterests(ps) == |ps| as real * m - principal
  {
    ScheduleRepaysLoan(ps, principal, annualRate, m);
    InterestsArePaymentsMinusRepaid(ps, principal, annualRate, m);
  }

  // ---------------------------------------------------------------------
  // Particular loans

  /** A one-month loan is paid off at once: the payment is the principal plus one month of interest. */
  lemma SingleMonthPaysOff(ps: seq<Payment>, principal: real, annualRate: real, m: real)
    requires |ps| == 1 && PaymentDefined(annualRate, 1)
    requires m == MonthlyPayment(principal, annualRate, 1)
    requires IsSchedule(ps, principal, annualRate, m)
    ensures ps[0].principalPart == principal
    ensures ps[0].interestsPart == annualRate / 12.0 * principal
    ensures ps[0].amount == principal + ps[0].interestsPart
  {
    ScheduleRepaysLoan(ps, principal, annualRate, m);
    assert MonthSplit(ps[0], annualRate, m);
  }

  /** A loan of principal 0 has every part of every month equal to 0. */
  lemma {:induction false} ZeroPrincipalPaysNothing(ps: seq<Payment>, annualRate: real, m: real, k: nat)
    requires |ps| >= 1 && PaymentDefined(annualRate, |ps|)
    requires m == MonthlyPayment(0.0, annualRate, |ps|)
    requires IsSchedule(ps, 0.0, annualRate, m)
    requires k < |ps|
    ensures ps[k].startPrincipal == 0.0 && ps[k].interestsPart == 0.0
    ensures ps[k].principalPart == 0.0 && ps[k].amount == 0.0
  {
    assert MonthSplit(ps[k], annualRate, m);
    if k > 0 {
      ZeroPrincipalPaysNothing(ps, annualRate, m, k - 1);
      assert ps[k].startPrincipal == EndPrincipal(ps[k - 1]);
    }
  }

  /**
   * The schedule is determined by its length, principal, rate and payment:
   * two runs on the same parameters give the same payments.
   */
  lemma {:induction false} ScheduleUnique(ps: seq<Payment>, qs: seq<Payment>, principal: real, annualRate: real, m: real)
    requires IsSchedule(ps, principal, annualRate, m)
    requires IsSchedule(qs, principal, annualRate, m)
    requires |ps| == |qs|
    ensures ps == qs
  {
    forall k | 0 <= k < |ps|
      ensures ps[k] == qs[k]
    {
      ScheduleFollowsBalance(ps, principal, annualRate, m, k);
      ScheduleFollowsBalance(qs, principal, annualRate, m, k);
    }
  }
}
