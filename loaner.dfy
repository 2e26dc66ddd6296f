/**
 * The loan builder of src/lib.rs: three optional fields, three validating
 * setters that return an updated copy or an error, and `Build`, which
 * checks for unset fields in a fixed order and then runs the amortization
 * loop. Floating-point values are modelled as `real`, `usize` as `nat`.
 */
module Loaner {
  import opened Wrappers
  import opened Amortization

  datatype LoanBuilderError =
    | InvalidPrincipal(principal: real)
    | InvalidAnnualRate(annualRate: real)
    | InvalidDuration(durationInMonths: nat)
    | MissingPrincipal
    | MissingAnnualRate
    | MissingDuration

  /** A computed loan: its parameters, the schedule and the interest paid over it. */
  datatype Loan = Loan(
    principal: real,
    annualRate: real,
    durationInMonths: nat,
    payments: seq<Payment>,
    totalPaidInterests: real)

  /** `Loan::builder()`: every field unset. */
  function Builder(): (b: LoanBuilder)
    ensures b.principal.None? && b.annualRate.None? && b.durationInMonths.None?
  {
    LoanBuilder(None, None, None)
  }

  datatype LoanBuilder = LoanBuilder(
    principal: Option<real>,
    annualRate: Option<real>,
    durationInMonths: Option<nat>)
  {
    /** Every field that is set holds a value its setter accepts. */
    predicate Valid()
    {
      && (principal.Some? ==> principal.value >= 0.0)
      && (annualRate.Some? ==> 0.0 <= annualRate.value <= 1.0)
      && (durationInMonths.Some? ==> durationInMonths.value >= 1)
    }

    predicate Complete()
    {
      principal.Some? && annualRate.Some? && durationInMonths.Some?
    }

    /**
     * What `Build` needs beyond the source's own checks: whenever a month is
     * computed, the annuity formula's denominator (1 + i)^n - 1 is not zero.
     * The source divides regardless: at rate 0 the payment is NaN, and so
     * is every principal part and amount.
     */
    predicate PaymentComputable()
    {
      Complete() && durationInMonths.value > 0 ==> PaymentDefined(annualRate.value, durationInMonths.value)
    }

    /** Rejects a negative principal; zero is accepted. */
    function WithPrincipal(p: real): (r: Result<LoanBuilder, LoanBuilderError>)
      ensures r.Err? <==> p < 0.0
      ensures r.Err? ==> r.error == InvalidPrincipal(p)
      ensures r.Ok? ==> r.value.principal == Some(p)
      ensures r.Ok? ==> r.value.annualRate == annualRate && r.value.durationInMonths == durationInMonths
      ensures r.Ok? && Valid() ==> r.value.Valid()
    {
      if p < 0.0 then Err(InvalidPrincipal(p))
      else Ok(this.(principal := Some(p)))
    }

    /** Accepts a rate in the closed interval [0, 1]. */
    function WithAnnualRate(rate: real): (r: Result<LoanBuilder, LoanBuilderError>)
      ensures r.Ok? <==> 0.0 <= rate <= 1.0
      ensures r.Err? ==> r.error == InvalidAnnualRate(rate)
      ensures r.Ok? ==> r.value.annualRate == Some(rate)
      ensures r.Ok? ==> r.value.principal == principal && r.value.durationInMonths == durationInMonths
      ensures r.Ok? && Valid() ==> r.value.Valid()
    {
      if !(0.0 <= rate <= 1.0) then Err(InvalidAnnualRate(rate))
      else Ok(this.(annualRate := Some(rate)))
    }

    /** Rejects a duration below one month, that is, zero. */
    function WithDurationInMonths(d: nat): (r: Result<LoanBuilder, LoanBuilderError>)
      ensures r.Err? <==> d == 0
      ensures r.Err? ==> r.error == InvalidDuration(d)
      ensures r.Ok? ==> r.value.durationInMonths == Some(d)
      ensures r.Ok? ==> r.value.principal == principal && r.value.annualRate == annualRate
      ensures r.Ok? && Valid() ==> r.value.Valid()
    {
      if d < 1 then Err(InvalidDuration(d))
      else Ok(this.(durationInMonths := Some(d)))
    }

    /**
     * Reports the first unset field (principal, then rate, then duration);
     * otherwise computes the annuity payment, the schedule month by month
     * and the total interest.
     */
    method Build() returns (r: Result<Loan, LoanBuilderError>)
      requires PaymentComputable()
      ensures principal.None? ==> r == Err(MissingPrincipal)
      ensures principal.Some? && annualRate.None? ==> r == Err(MissingAnnualRate)
      ensures principal.Some? && annualRate.Some? && durationInMonths.None? ==> r == Err(MissingDuration)
      ensures r.Ok? <==> Complete()
      ensures r.Ok? ==> && r.value.principal == principal.value
                        && r.value.annualRate == annualRate.value
                        && r.value.durationInMonths == durationInMonths.value
      ensures r.Ok? ==> |r.value.payments| == r.value.durationInMonths
      ensures r.Ok? && r.value.durationInMonths > 0 ==>
        var m := MonthlyPayment(r.value.principal, r.value.annualRate, r.value.durationInMonths);
        && IsSchedule(r.value.payments, r.value.principal, r.value.annualRate, m)
        && forall k :: 0 <= k < |r.value.payments| ==> r.value.payments[k].amount == m
      ensures r.Ok? ==> r.value.totalPaidInterests == SumInterests(r.value.payments)
    {
      if principal.None? {
        return Err(MissingPrincipal);
      }
      if annualRate.None? {
        return Err(MissingAnnualRate);
      }
      if durationInMonths.None? {
        return Err(MissingDuration);
      }
      var p := principal.value;
      var rate := annualRate.value;
      var n := durationInMonths.value;

      // With no month to compute, the source's payment (NaN or infinite) is never used.
      var monthlyPayment := if n == 0 then 0.0 else MonthlyPayment(p, rate, n);
      var payments: seq<Payment> := [];
      var remainingPrincipal := p;

      for monthIndex := 0 to n
        invariant |payments| == monthIndex
        invariant IsSchedule(payments, p, rate, monthlyPayment)
        invariant remainingPrincipal == FinalPrincipal(payments, p)
      {
        var startPrincipal := remainingPrincipal;
        var interestsPart := rate / 12.0 * remainingPrincipal;
        var principalPart := monthlyPayment - interestsPart;
        var endPrincipal := remainingPrincipal - principalPart;
        var payment := Payment(monthIndex, startPrincipal, interestsPart, principalPart, principalPart + interestsPart);
        ScheduleExtend(payments, p, rate, monthlyPayment, payment);
        payments := payments + [payment];
        remainingPrincipal := endPrincipal;
      }

      var totalPaidInterests := SumInterests(payments);
      r := Ok(Loan(p, rate, n, payments, totalPaidInterests));
    }
  }

  /** A setter call of a builder chain, as the terminal front end issues them. */
  datatype Setter = SetPrincipal(p: real) | SetAnnualRate(rate: real) | SetDurationInMonths(d: nat)

  /** The setters report only invalid values, never a missing field. */
  predicate InvalidValue(e: LoanBuilderError)
  {
    e.InvalidPrincipal? || e.InvalidAnnualRate? || e.InvalidDuration?
  }

  /** One setter call: it fails only on an invalid value, and a field once set stays set. */
  function Step(b: LoanBuilder, s: Setter): (r: Result<LoanBuilder, LoanBuilderError>)
    ensures r.Err? ==> InvalidValue(r.error)
    ensures r.Ok? ==> && (b.principal.Some? ==> r.value.principal.Some?)
                      && (b.annualRate.Some? ==> r.value.annualRate.Some?)
                      && (b.durationInMonths.Some? ==> r.value.durationInMonths.Some?)
  {
    match s
    case SetPrincipal(p) => b.WithPrincipal(p)
    case SetAnnualRate(rate) => b.WithAnnualRate(rate)
    case SetDurationInMonths(d) => b.WithDurationInMonths(d)
  }

  /** Applies setters in order, stopping at the first error (Rust's `?`). */
  function Apply(b: LoanBuilder, steps: seq<Setter>): (r: Result<LoanBuilder, LoanBuilderError>)
    ensures r.Err? ==> InvalidValue(r.error)
    ensures r.Ok? ==> && (b.principal.Some? ==> r.value.principal.Some?)
                      && (b.annualRate.Some? ==> r.value.annualRate.Some?)
                      && (b.durationInMonths.Some? ==> r.value.durationInMonths.Some?)
    decreases |steps|
  {
    if steps == [] then Ok(b)
    else
      match Step(b, steps[0])
      case Err(e) => Err(e)
      case Ok(next) => Apply(next, steps[1..])
  }

  /** No partially valid builder escapes the setters: every field reached through them is in range. */
  lemma {:induction false} SettersKeepValid(b: LoanBuilder, steps: seq<Setter>)
    requires b.Valid()
    ensures Apply(b, steps).Ok? ==> Apply(b, steps).value.Valid()
    decreases |steps|
  {
    if steps != [] && Step(b, steps[0]).Ok? {
      SettersKeepValid(Step(b, steps[0]).value, steps[1..]);
    }
  }

  /**
   * Setting principal, rate and duration on a fresh builder succeeds exactly
   * for accepted values, and the resulting builder can be built exactly when
   * the rate is not zero: at rate 0 the annuity formula divides by zero.
   */
  lemma FullChainBuilds(p: real, rate: real, d: nat)
    ensures var r := Apply(Builder(), [SetPrincipal(p), SetAnnualRate(rate), SetDurationInMonths(d)]);
      && (r.Ok? <==> p >= 0.0 && 0.0 <= rate <= 1.0 && d >= 1)
      && (r.Ok? ==> r.value == LoanBuilder(Some(p), Some(rate), Some(d)) && r.value.Complete())
      && (r.Ok? ==> (r.value.PaymentComputable() <==> rate > 0.0))
  {
    var steps := [SetPrincipal(p), SetAnnualRate(rate), SetDurationInMonths(d)];
    var b0 := Builder();
    assert steps[1..] == [SetAnnualRate(rate), SetDurationInMonths(d)];
    assert steps[1..][1..] == [SetDurationInMonths(d)];
    assert steps[1..][1..][1..] == [];
    if p >= 0.0 {
      var b1 := LoanBuilder(Some(p), None, None);
      assert Apply(b0, steps) == Apply(b1, steps[1..]);
      if 0.0 <= rate <= 1.0 {
        var b2 := LoanBuilder(Some(p), Some(rate), None);
        assert Apply(b1, steps[1..]) == Apply(b2, steps[1..][1..]);
        if d >= 1 {
          var b3 := LoanBuilder(Some(p), Some(rate), Some(d));
          assert Apply(b2, steps[1..][1..]) == Apply(b3, []);
          PaymentDefinedIffPositiveRate(rate, d);
        }
      }
    }
  }
}
