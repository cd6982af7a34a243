# Mortgage amortization and escrow engine, in Dafny

This project models the computation core of easy_mortgage_comparison. The core
turns a loan's terms into a month-by-month amortization schedule. Each month it
charges interest on the standing principal. It takes the rest of a fixed, rounded
annuity payment as principal, and a payoff guard clamps the final month. It then
subtracts a recurring extra payment on cadence months and a one-off special payment
by month index. Beside the schedule it projects an escrow amount that grows once per
cycle. It joins the two into one table, one escrow value per schedule row.

Modules:

- `Periods` (`periods.dfy`): the `Period` cadence enum (YEAR, HALF_YEAR, TRIMESTER,
  MONTH) and its cycle lengths in months.
- `Numerics` (`numerics.dfy`): exact-arithmetic stand-ins for numpy's rounding to
  the cent (half to even) and for `**` with an integer exponent, plus the
  arithmetic facts the proofs need.
- `Payments` (`payments.dfy`): the engine.
  - `ComputeRawPayments` computes the fixed payment and runs the schedule loop
    (`AmortizationLoop`, a `while` loop over a growing sequence of rows). Both are
    proved equal to the specification functions `RawPayments` and `Schedule`.
  - `EscrowSeries` is the flattened, rounded escrow series.
  - `ComputeMonthlyPayment` composes the two.

Money is a whole number of cents (`int`). A quantity the source rounds to two
decimals is rounded with `RoundHalfEven` on exact reals, measured in cents. Rounding
an amount that is already whole cents changes nothing. So the source's re-rounding
of the balance and of the principal part is the identity here.

The monthly rate is an input: `Loan.monthlyRate`. The fixed payment is the annuity
formula, computed in exact reals from that rate and the duration. The source divides
by `(1 + rate)^duration - 1`. When that divisor is zero, the source raises, and the
model returns `Err(ZeroDivision)`. For a rate of at least -1, this happens exactly
when the rate or the duration is zero (`FixedPaymentFails`).

Points where the code behaves other than its names or docstrings suggest; the model
follows the code:

- **Terminal balance.** The terminal row's standing principal is in general not zero. In the
  code (payments.py lines 38-41), the guard sets the
  principal part to the balance plus one cent. That leaves the balance at minus one
  cent before that month's extra and special payments, which are subtracted after
  the guard (lines 41-49). Without prepayments, an early payoff ends at exactly -1
  cent and the total principal expense is the principal plus one cent
  (`EarlyPayoffOvershoots`). When the final month's prepayments alone bring the
  balance to zero or below, the guard does not fire and the balance ends wherever
  they leave it.
- **Escrow growth.** Escrow does not compound from the previous cycle's rounded
  value. The code computes every cycle from the initial amount:
  `round(initial * (1 + g)^c)` (lines 89-94). The model follows the code
  (`EscrowEntry`).
- **Escrow length.** The escrow docstring promises a series of shape
  `duration * 12` (lines 75-76) or `duration` (lines 86-87). The code returns
  ceil(duration / p) * p entries for a cycle of p months (`EscrowLength`).
  `compute_monthly_payment` slices that series to the schedule's length, which it
  never falls short of (`MonthlyPaymentAligned`).
- **Validation.** The code validates none of its inputs. Its only failure is the
  division by zero above. A cadence outside the enum cannot be expressed, because
  the cadence is a `Period`. Looking a cadence up by its length (`FromMonths`)
  rejects every length other than 1, 3, 6 and 12.

## Model

| member | source | states |
|---|---|---|
| `Periods.Months` | src/computations/constants/periods.py:4-7 | every cycle length is positive, divides 12 and is one of 1, 3, 6, 12 |
| `Periods.FromMonths` | src/computations/constants/periods.py:3-7 | looking a cadence up by its length succeeds exactly for 1, 3, 6 and 12, and returns the cadence with that length |
| `Periods.ExactlyFourPeriods` | src/computations/constants/periods.py:3-7 | every cadence is one of four pairwise distinct values |
| `Periods.FromMonthsRoundTrip` | src/computations/constants/periods.py:4-7 | a cadence is recovered from its cycle length |
| `Periods.MonthsInjective` | src/computations/constants/periods.py:4-7 | two cadences with the same cycle length are equal |
| `Numerics.RoundHalfEven` | src/computations/payments.py:36 | the rounded amount is within half a cent of the exact one, and a tie goes to the even cent |
| `Payments.FixedPaymentFails` | src/computations/payments.py:27-30 | for a rate of at least -1, the payment formula divides by zero exactly when the rate or the duration is zero |
| `Payments.PaymentCoversInterest` | src/computations/payments.py:27-36 | for a positive rate and duration, the payment exists and is at least the first month's interest |
| `Payments.InterestMonotone` | src/computations/payments.py:36 | for a non-negative rate, a larger balance is charged no less rounded interest |
| `Payments.RowsNumbering` | src/computations/payments.py:50-57 | from month k on, row i is numbered k + i and leaves (months left) - (i + 1) months |
| `Payments.ScheduleShape` | src/computations/payments.py:35-67 | the schedule has at most `duration` rows; row i has month_number i and n_months_remaining duration - (i + 1) |
| `Payments.AmortizationLoop` | src/computations/payments.py:32-57 | the while loop appending one row per month yields exactly the schedule |
| `Payments.ComputeRawPayments` | src/computations/payments.py:7-67 | the fixed payment followed by the loop yields exactly the raw schedule, or the division-by-zero error |
| `Payments.ScheduleMonth` | src/computations/payments.py:35-57 | every row is the month computed from a positive opening balance: the principal for row 0, else the previous row's standing principal |
| `Payments.MonthSplit` | src/computations/payments.py:28-37 | each row's interest is the rounded interest on its opening balance; when the guard does not fire, interest plus principal equals the fixed payment |
| `Payments.PayoffGuard` | src/computations/payments.py:38-41 | when the balance is at most the scheduled principal, the principal part is the balance plus one cent, leaving -1 cent before prepayments |
| `Payments.NonFinalRowsSplit` | src/computations/payments.py:35-49 | with no negative prepayment, every row before the last has interest plus principal equal to the fixed payment |
| `Payments.NegativePrepaymentAfterGuard` | src/computations/payments.py:38-49 | the restriction to non-negative prepayments is needed: a negative special payment after the guard fires in month 0 gives a longer schedule whose first row does not add up to the payment |
| `Payments.MonthBalance` | src/computations/payments.py:41-49 | the closing balance is the opening balance less the principal part, less the extra payment exactly when the 1-based month is a multiple of the cycle, less the special payment exactly when the 0-based month is a key |
| `Payments.ScheduleTermination` | src/computations/payments.py:35 | every row opens on a positive balance; every row but the last closes positive; a schedule shorter than the duration closes at or below zero |
| `Payments.StandingNonIncreasing` | src/computations/payments.py:35-57 | for a positive rate and duration and non-negative prepayments, no row's standing principal exceeds the balance before it |
| `Payments.MorePrepaymentNeverLengthens` | src/computations/payments.py:41-49 | with the same other terms, larger extra and special payments never give a longer schedule |
| `Payments.PrincipalConservation` | src/computations/payments.py:41-57 | scheduled principal plus extra and special payments over the schedule equals the principal less the final balance |
| `Payments.EarlyPayoffOvershoots` | src/computations/payments.py:38-41 | without prepayments, a schedule shorter than the duration ends at -1 cent, and its principal expenses sum to the principal plus one cent |
| `Payments.OneMonthPayment` | src/computations/payments.py:27-37 | over one month with a non-zero rate, the payment exists and the payment less the interest is within a cent of the principal |
| `Payments.SingleMonth` | src/computations/payments.py:21-57 | a one-month loan with a non-zero rate and no prepayment has exactly one row; its balance is within a cent of zero and its principal part within a cent of the principal |
| `Payments.CycleCount` | src/computations/payments.py:91 | the number of cycles times the cycle length covers the duration with less than one cycle to spare |
| `Payments.EscrowLength` | src/computations/payments.py:89-92 | the escrow series has ceil(duration / p) * p entries, at least the duration and less than duration + p |
| `Payments.EscrowEntry` | src/computations/payments.py:89-94 | entry i is round(initial * (1 + g)^(i div p)) |
| `Payments.EscrowConstantWithinCycle` | src/computations/payments.py:89-92 | all entries of one cycle are equal |
| `Payments.EscrowStartsAtInitial` | src/computations/payments.py:89-94 | for a positive duration, the first entry is the initial escrow |
| `Payments.CycleEscrowMonotone` | src/computations/payments.py:90-94 | with non-negative initial amount and growth, a later cycle's escrow is never smaller |
| `Payments.EscrowNonDecreasing` | src/computations/payments.py:89-94 | with non-negative initial amount and growth, the escrow series never decreases |
| `Payments.AttachEscrow` | src/computations/payments.py:117-122 | the escrow column has one entry per row, entry i going to row i |
| `Payments.ComputeMonthlyPayment` | src/computations/payments.py:97-124 | the composition yields exactly the raw schedule with the escrow series for the same duration attached |
| `Payments.MonthlyPaymentAligned` | src/computations/payments.py:108-122 | the composition fails exactly when the schedule does; the slice never runs short; row i keeps schedule row i and gets escrow of cycle i div p |

## Left out

- Floating point: amounts are exact integer cents and rates exact reals. The model
  has no IEEE-754 representation error. numpy's half-to-even rounding is applied to
  exact values, so a value that is a tie in exact arithmetic may not be one in
  doubles, and the reverse.
- Conversion from the yearly rate to the monthly rate, `(1 + y)^(1/12) - 1`: it is
  irrational in general, so the monthly rate is an input.
- Sub-cent principal: the principal is a whole number of cents, so the first
  month's `round(remaining, 2)` in the guard is the identity.
- The first, dead computation of the payment (payments.py lines 22-25) is
  overwritten by lines 27-30. Its only effect, the same division by zero, is
  modelled.
- Negative durations: the duration is a `nat`.
- pandas DataFrame construction, `reset_index` and column assignment: rows are a
  datatype with a `monthNumber` field, and the escrow column is a pairing of each
  row with its escrow value. The pandas error for a column of the wrong length
  cannot occur, as `MonthlyPaymentAligned` shows.
- The mutable default `dict()` for special payments: the map is an immutable
  `map<int, int>`, which the code only reads.
- The `__main__` demo (payments.py lines 127-150), src/plotting/plots.py (chart
  construction) and src/main.py (web app, argument parsing) are not part of this
  model.
- The `__main__` demo's scenario (principal 140000 at 2.25 % yearly, payments.py
  lines 131-144) is not modelled: it depends on the floating-point monthly rate.
- Total principal repaid is not claimed to equal the principal within one cent in
  general. `PrincipalConservation` gives the exact total, the principal less the
  final balance. Without prepayments and with an early payoff, the total is exactly
  one cent more (`EarlyPayoffOvershoots`). When the months run out first, the
  payment rounding can leave a larger balance.
- Default arguments (`yearly_rate=0.0225`, `duration=180`, `extra_payment=0.0`,
  `Period.MONTH`, `initial_escrow=200`, `escrow_growth_rate=0.01`, `Period.YEAR`,
  payments.py lines 8-12 and 99-106): `Loan` and `Escrow` take every term
  explicitly.
