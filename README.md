# loaner: a verified model of the loan builder and its amortization schedule

`loaner` computes a fixed-rate, fixed-term amortization schedule. You set a
principal, an annual rate (a fraction) and a duration in months on a
`LoanBuilder`. Each setter checks its value and returns the updated builder
or a typed `LoanBuilderError`. `build` then reports the first field that was
never set, checking principal, then annual rate, then duration. If all three
are set, it computes the annuity payment
`M = P * (i * (1 + i)^n / ((1 + i)^n - 1))` with `i = annual_rate / 12`, and
then builds the schedule one month at a time. It carries the remaining
principal forward and splits each payment into interest and principal. A
left fold then sums the interest parts.

The model has three modules:

- `Wrappers` (`wrappers.dfy`): Rust's `Option` and `Result`.
- `Amortization` (`amortization.dfy`): the `Payment` record, `(1 + x)^n` as
  a recursive `Pow` over a natural exponent, the annuity payment, the
  schedule specification `IsSchedule`, the fold `SumInterests`, and the
  lemmas about what a schedule means, in exact arithmetic. After the last
  month nothing is left to pay. The annuity payment is the only constant
  payment with that property. The total interest is `n * M - P`. A
  one-month loan is paid off at once, and a zero principal gives an
  all-zero schedule. The schedule is unique.
- `Loaner` (`loaner.dfy`): the builder as a datatype of three `Option`
  fields. The three setters are functions that return a `Result`.
  `Build` is a method whose `for` loop mirrors the source's loop. Its
  invariants keep the payments built so far an `IsSchedule` prefix and the
  running principal equal to the last month's end principal. There are
  also lemmas about chains of setter calls.

`f64` values are modelled as `real` and `usize` as `nat`. The setters keep
the source's value semantics: each takes the builder by value and returns a
new one, and only the field it sets changes.

A zero rate is not special-cased: `src/lib.rs` divides `0 * 1` by `1 - 1`
there, and the model adds no fallback. See `## Left out`.

## Model

| member | source | states |
|---|---|---|
| `Loaner.Builder` | src/lib.rs:4-9 | `Loan::builder()` is the default builder, with principal, rate and duration all unset. So `Build` on it returns `MissingPrincipal`. |
| `Loaner.LoanBuilder.WithPrincipal` | src/lib.rs:33-40 | Fails exactly when `p < 0`, with `InvalidPrincipal(p)`. Zero is accepted. On success the principal becomes `Some(p)`, the rate and duration are unchanged, and a valid builder stays valid. |
| `Loaner.LoanBuilder.WithAnnualRate` | src/lib.rs:42-49 | Succeeds exactly when `0 <= rate <= 1`, both bounds included. Otherwise it fails with `InvalidAnnualRate(rate)`. On success only the rate changes. |
| `Loaner.LoanBuilder.WithDurationInMonths` | src/lib.rs:51-61 | Fails exactly when `d < 1` (that is, `d == 0`), with `InvalidDuration(d)`. On success only the duration changes. |
| `Loaner.LoanBuilder.Build` | src/lib.rs:63-110 | Reports a missing principal, then a missing rate, then a missing duration, and succeeds exactly when all three are set. On success the loan echoes the three parameters and has exactly `n` payments. For `n > 0` the payments form an `IsSchedule` for the annuity payment: month `k` has index `k`, month 0 starts from the principal, and each later month starts from the previous month's end principal. Each month's interest is `rate / 12` times its start principal, its principal part is the payment minus that interest, and its amount is their sum, which equals the payment. The total is the left fold of the interest parts. |
| `Amortization.MonthlyPaymentPositive` | src/lib.rs:74-78 | `MonthlyPayment` is the formula `P * (i * (1 + i)^n / ((1 + i)^n - 1))` with `i = rate / 12`. For a positive principal and a positive rate and `n >= 1`, the formula is defined and the payment is positive. |
| `Amortization.MonthlyPaymentEquation` | src/lib.rs:74-78 | The payment `M` of the formula solves `M * ((1 + i)^n - 1) == P * i * (1 + i)^n`. |
| `Amortization.PaymentDefinedIffPositiveRate` | src/lib.rs:74-78 | For a rate `>= 0` and `n >= 1`, the formula's denominator `(1 + i)^n - 1` is nonzero exactly when the rate is positive. A rate of 0, which the setter accepts, divides by zero. |
| `Amortization.MonthSplit` | src/lib.rs:82-96 | One month of the loop: the interest is `rate / 12` times the start principal, the principal part is the payment minus the interest, and the amount is their sum, so a split month always pays exactly the payment. `IsSchedule` asks this of every month, together with the numbering from 0, month 0 starting from the principal and each later month starting from the previous end principal. `ScheduleExtend`, `ScheduleFollowsBalance` and `ScheduleUnique` show that the loop's output is such a schedule and the only one. |
| `Amortization.ScheduleExtend` | src/lib.rs:82-97 | One loop iteration appends a month that starts from the running principal and is split as the loop splits it. The result is still a schedule, and the running principal becomes that month's end principal. |
| `Amortization.ScheduleFollowsBalance` | src/lib.rs:80-96 | In any schedule, month `k` starts from the balance after `k` applications of the loop's update `r := r - (M - rate / 12 * r)`, and ends at the balance after `k + 1`. |
| `Amortization.BalanceClosedForm` | src/lib.rs:80-96 | The balance after `k` months is `P * x^k - M * (1 + x + ... + x^(k-1))`, with `x = 1 + rate / 12`. |
| `Amortization.AnnuityRepaysLoan` | src/lib.rs:78-96 | When the formula is defined, the balance after `n` months is zero exactly when the monthly payment is the formula's payment (both directions). |
| `Amortization.ScheduleRepaysLoan` | src/lib.rs:78-96 | The last month of an `n`-month schedule ends with zero principal exactly when its payment is the annuity payment for `n` months. |
| `Amortization.SumInterestsSigns` | src/lib.rs:99-101 | `SumInterests` is the fold `0 + p0.interests_part + p1.interests_part + ...`. The fold is nonnegative when every interest part is, and zero when every interest part is zero. `InterestsArePaymentsMinusRepaid` gives its value on a schedule. |
| `Amortization.InterestsArePaymentsMinusRepaid` | src/lib.rs:84-101 | For any constant payment `M`, the fold of the interest parts equals `n * M` minus the principal repaid (the principal minus the final principal). |
| `Amortization.TotalInterestsOfAnnuity` | src/lib.rs:78-101 | With the annuity payment, the total paid interest is `n * M - P`. |
| `Amortization.SingleMonthPaysOff` | src/lib.rs:78-96 | A one-month loan repays the whole principal in its single payment. That payment's amount is the principal plus `rate / 12` of it. |
| `Amortization.ZeroPrincipalPaysNothing` | src/lib.rs:78-96 | With principal 0, which the setter accepts, every start principal, interest part, principal part and amount is 0. |
| `Amortization.ScheduleUnique` | src/lib.rs:79-97 | Two schedules with the same length, principal, rate and payment are equal. So building the same parameters twice gives the same payments. |
| `Loaner.Step` | src/main.rs:60-91 | One setter call of the chain the front end builds. It fails only with an invalid-value error, never with a missing-field error, and a field that was set stays set. |
| `Loaner.Apply` | src/main.rs:60-91 | The setter calls in order, stopped at the first error as Rust's `?` does. It fails only with an invalid-value error, and each field that was set before is still set afterwards. `SettersKeepValid` and `FullChainBuilds` say more about its result. |
| `Loaner.SettersKeepValid` | src/lib.rs:33-61 | Any chain of setter calls, stopped at the first error, takes a valid builder to a valid builder: every field that is set holds a value its setter accepts. |
| `Loaner.FullChainBuilds` | src/lib.rs:33-78 | Setting principal, rate and duration on a fresh builder succeeds exactly when `p >= 0`, `0 <= rate <= 1` and `d >= 1`. It then yields the builder holding those three values. That builder meets `Build`'s precondition exactly when the rate is positive. |

## Left out

- `Loaner.LoanBuilder.Build`: requires that the annuity denominator `(1 + i)^n - 1` be nonzero whenever a month is computed (`PaymentComputable`). The source divides regardless. At rate 0, which `WithAnnualRate` accepts, the payment is NaN. Month 0 still starts from the principal with interest 0, but every `principal_part` and `amount` is NaN, as is every later month. This model does not represent that schedule. `FullChainBuilds` and `PaymentDefinedIffPositiveRate` state exactly which accepted inputs fall outside.
- `Loaner.LoanBuilder.Build`: when the duration field holds 0, the source computes a NaN or infinite payment that no month ever uses and returns an empty schedule. The model returns the same empty schedule and uses a placeholder payment that nothing reads. Only a builder whose public fields are written directly can hold 0; the setter refuses it.
- No straight-line `P / n` payment for a zero rate: the source has none.
- IEEE-754 behaviour is not modelled: rounding drift (so `amount` is exactly the payment and the final balance exactly 0 here), NaN and infinities. This includes `principal < 0.` accepting NaN and `contains` rejecting it in the setters, and the exactness of the `usize as f64` cast.
- `usize` is modelled as `nat`: its upper bound is not represented. Month indices run from 0 to `n - 1`, so the loop's own counter never overflows.
- The `thiserror`/`miette` derives and the error message strings: only the error variants and their payloads are modelled.
- `Vec::with_capacity(duration)`: the capacity-overflow panic and the allocation failure for absurdly large durations are not modelled.
- Consuming `self`: Rust moves the builder into each setter and into `build`. Dafny datatypes are values, which gives the same observable behaviour.
- src/main.rs is modelled only in its chaining of setter calls with `?` (`Loaner.Step`, `Loaner.Apply`). Terminal prompting, the conversion of a percentage to a fraction at input time, the wrapping of errors into diagnostics, and table rendering with two-decimal formatting are I/O and are left out.
