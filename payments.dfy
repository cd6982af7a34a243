/**
 * The amortization and escrow engine: the month-by-month payment schedule of
 * a loan, the escrow series that grows once per cycle, and the table that
 * joins the two. Every amount of money is a whole number of cents.
 */
module Payments {
  import opened Periods
  import opened Numerics

  /** The only failure of the engine: the annuity formula divides by zero. */
  datatype Error = ZeroDivision

  datatype Result<T> = Ok(value: T) | Err(error: Error)

  /**
   * The terms of one loan. `monthlyRate` is the effective monthly rate (the
   * conversion from the yearly rate is done by the caller); `specialPayments`
   * maps a zero-based month index to a one-off payment.
   */
  datatype Loan = Loan(
    principal: int,
    monthlyRate: real,
    duration: nat,
    extraPayment: int,
    extraPeriod: Period,
    specialPayments: map<int, int>)

  /** One month of the raw schedule. */
  datatype Row = Row(
    monthNumber: nat,
    monthsRemaining: nat,
    standingPrincipal: int,
    interestExpense: int,
    principalExpense: int)

  /** One month of the composed schedule: the raw row and that month's escrow. */
  datatype PaymentRow = PaymentRow(row: Row, escrow: int)

  /** The escrow terms: the first cycle's amount, its growth per cycle and the cycle's cadence. */
  datatype Escrow = Escrow(initial: int, growthRate: real, period: Period)

  // ---------------------------------------------------------------------------
  // The fixed monthly payment

  /** (1 + monthly rate) raised to the duration. */
  function RateFactor(rate: real, duration: nat): real
  {
    Pow(1.0 + rate, duration)
  }

  /** The exact annuity payment, in cents, for a rate factor other than one. */
  function Annuity(principal: int, rate: real, factor: real): real
    requires factor != 1.0
  {
    principal as real * rate * factor / (factor - 1.0)
  }

  /** The annuity payment rounded to the cent; Err when the rate factor is one. */
  function FixedPayment(principal: int, rate: real, duration: nat): (r: Result<int>)
    ensures r.Err? <==> RateFactor(rate, duration) == 1.0
  {
    var factor := RateFactor(rate, duration);
    if factor == 1.0 then Err(ZeroDivision)
    else Ok(RoundHalfEven(Annuity(principal, rate, factor)))
  }

  /** One month's interest on an opening balance, rounded to the cent. */
  function MonthInterest(balance: int, rate: real): int
  {
    RoundScaled(balance, rate)
  }

  // ---------------------------------------------------------------------------
  // The schedule, as a specification

  /** The recurring extra payment due in zero-based month k: only when k + 1 is a multiple of the cycle. */
  function ExtraDue(loan: Loan, k: int): int
  {
    if (k + 1) % Months(loan.extraPeriod) == 0 then loan.extraPayment else 0
  }

  /** The one-off payment due in zero-based month k, zero when the map has no entry. */
  function SpecialDue(loan: Loan, k: int): int
  {
    if k in loan.specialPayments then loan.specialPayments[k] else 0
  }

  /** The row of zero-based month k, given the balance standing when the month opens. */
  function MonthRow(loan: Loan, payment: int, k: nat, opening: int, monthsLeft: nat): Row
    requires monthsLeft > 0
  {
    var interest := MonthInterest(opening, loan.monthlyRate);
    var scheduled := payment - interest;
    var principalPart := if opening <= scheduled then opening + 1 else scheduled;
    var closing := opening - principalPart - ExtraDue(loan, k) - SpecialDue(loan, k);
    Row(k, monthsLeft - 1, closing, interest, principalPart)
  }

  /** The rows from month k on, while months remain and the balance is positive. */
  function Rows(loan: Loan, payment: int, k: nat, opening: int, monthsLeft: nat): (rows: seq<Row>)
    ensures |rows| <= monthsLeft
    decreases monthsLeft
  {
    if monthsLeft > 0 && opening > 0 then
      var row := MonthRow(loan, payment, k, opening, monthsLeft);
      [row] + Rows(loan, payment, k + 1, row.standingPrincipal, monthsLeft - 1)
    else
      []
  }

  /** While months remain and the balance is positive, the rows are this month's row and the rest. */
  lemma RowsUnfold(loan: Loan, payment: int, k: nat, opening: int, monthsLeft: nat)
    requires monthsLeft > 0 && opening > 0
    ensures var row := MonthRow(loan, payment, k, opening, monthsLeft);
      Rows(loan, payment, k, opening, monthsLeft)
        == [row] + Rows(loan, payment, k + 1, row.standingPrincipal, monthsLeft - 1)
  {
  }

  /** Row i is numbered k + i and leaves monthsLeft - (i + 1) months. */
  predicate NumberedFrom(rows: seq<Row>, k: nat, monthsLeft: nat)
  {
    forall i :: 0 <= i < |rows| ==>
      rows[i].monthNumber == k + i && rows[i].monthsRemaining == monthsLeft - (i + 1)
  }

  /** The rows from month k on are numbered consecutively from k, counting the months left down. */
  lemma {:induction false} RowsNumbering(loan: Loan, payment: int, k: nat, opening: int, monthsLeft: nat)
    ensures NumberedFrom(Rows(loan, payment, k, opening, monthsLeft), k, monthsLeft)
    decreases monthsLeft
  {
    if monthsLeft > 0 && opening > 0 {
      var row := MonthRow(loan, payment, k, opening, monthsLeft);
      RowsNumbering(loan, payment, k + 1, row.standingPrincipal, monthsLeft - 1);
      var rows := Rows(loan, payment, k, opening, monthsLeft);
      var tail := Rows(loan, payment, k + 1, row.standingPrincipal, monthsLeft - 1);
      assert rows == [row] + tail;
      forall i | 0 <= i < |rows|
        ensures rows[i].monthNumber == k + i && rows[i].monthsRemaining == monthsLeft - (i + 1)
      {
        if i == 0 {
          assert rows[0] == row;
        } else {
          assert rows[i] == tail[i - 1];
          assert tail[i - 1].monthNumber == k + 1 + (i - 1);
        }
      }
    }
  }

  /** The schedule of a loan under a given fixed payment. */
  function Schedule(loan: Loan, payment: int): (s: seq<Row>)
    ensures |s| <= loan.duration
  {
    Rows(loan, payment, 0, loan.principal, loan.duration)
  }

  /** The schedule has at most `duration` rows; row i is month i and leaves duration - (i + 1) months. */
  lemma ScheduleShape(loan: Loan, payment: int)
    ensures var s := Schedule(loan, payment);
      && |s| <= loan.duration
      && forall i :: 0 <= i < |s| ==> s[i].monthNumber == i && s[i].monthsRemaining == loan.duration - (i + 1)
  {
    RowsNumbering(loan, payment, 0, loan.principal, loan.duration);
    assert NumberedFrom(Schedule(loan, payment), 0, loan.duration);
  }

  /** The raw schedule of a loan: its fixed payment, then its rows. */
  function RawPayments(loan: Loan): Result<seq<Row>>
  {
    match FixedPayment(loan.principal, loan.monthlyRate, loan.duration)
    case Err(e) => Err(e)
    case Ok(payment) => Ok(Schedule(loan, payment))
  }

  /** The balance standing when month i of s opens: the principal, then the previous row's balance. */
  function Opening(loan: Loan, s: seq<Row>, i: nat): int
    requires i <= |s|
  {
    if i == 0 then loan.principal else s[i - 1].standingPrincipal
  }

  // ---------------------------------------------------------------------------
  // The schedule loop

  /** Computes the fixed payment, then builds the raw schedule from it. */
  method ComputeRawPayments(loan: Loan) returns (r: Result<seq<Row>>)
    ensures r == RawPayments(loan)
  {
    var fixed := FixedPayment(loan.principal, loan.monthlyRate, loan.duration);
    if fixed.Err? {
      return Err(fixed.error);
    }
    var rows := AmortizationLoop(loan, fixed.value);
    return Ok(rows);
  }

  /** Appending the month's row to the rows built so far keeps them a prefix of the schedule. */
  lemma LoopStep(loan: Loan, payment: int, done: seq<Row>, opening: int, monthsLeft: nat)
    requires monthsLeft > 0 && opening > 0
    requires done + Rows(loan, payment, |done|, opening, monthsLeft) == Schedule(loan, payment)
    ensures var row := MonthRow(loan, payment, |done|, opening, monthsLeft);
      (done + [row]) + Rows(loan, payment, |done| + 1, row.standingPrincipal, monthsLeft - 1)
        == Schedule(loan, payment)
  {
    var row := MonthRow(loan, payment, |done|, opening, monthsLeft);
    var rest := Rows(loan, payment, |done| + 1, row.standingPrincipal, monthsLeft - 1);
    RowsUnfold(loan, payment, |done|, opening, monthsLeft);
    assert (done + [row]) + rest == done + ([row] + rest);
  }

  /** The schedule loop: one row per month until the months run out or the balance is paid off. */
  method AmortizationLoop(loan: Loan, payment: int) returns (monthlyData: seq<Row>)
    ensures monthlyData == Schedule(loan, payment)
  {
    monthlyData := [];
    var remaining := loan.principal;
    var duration: nat := loan.duration;
    while duration > 0 && remaining > 0
      invariant duration + |monthlyData| == loan.duration
      invariant monthlyData + Rows(loan, payment, |monthlyData|, remaining, duration)
             == Schedule(loan, payment)
      decreases duration
    {
      var k := |monthlyData|;
      ghost var opening := remaining;
      var interest := MonthInterest(remaining, loan.monthlyRate);
      var principalPart := payment - interest;
      if remaining <= principalPart {
        principalPart := remaining + 1;
      }
      remaining := remaining - principalPart;
      if (k + 1) % Months(loan.extraPeriod) == 0 {
        remaining := remaining - loan.extraPayment;
      }
      if k in loan.specialPayments {
        remaining := remaining - loan.specialPayments[k];
      }
      // rounding the balance to the cent leaves a whole number of cents as it is
      var row := Row(k, duration - 1, remaining, interest, principalPart);
      assert row == MonthRow(loan, payment, k, opening, duration);
      LoopStep(loan, payment, monthlyData, opening, duration);
      monthlyData := monthlyData + [row];
      duration := duration - 1;
    }
    assert Rows(loan, payment, |monthlyData|, remaining, duration) == [];
  }

  // ---------------------------------------------------------------------------
  // Escrow

  /** Concatenation of a sequence of sequences. */
  function Flatten<T>(xss: seq<seq<T>>): seq<T>
  {
    if xss == [] then [] else xss[0] + Flatten(xss[1..])
  }

  /** The number of growth cycles needed to cover the duration: its quotient by the cycle, rounded up. */
  function CycleCount(duration: nat, cycle: nat): (n: nat)
    requires cycle > 0
    ensures n * cycle >= duration
    ensures n * cycle < duration + cycle
  {
    (duration + cycle - 1) / cycle
  }

  /** The growth factor (1 + g)^c of every month of cycle c, one row per cycle. */
  function GrowthFactors(escrow: Escrow, duration: nat): seq<seq<real>>
  {
    var p := Months(escrow.period);
    var n := CycleCount(duration, p);
    seq(n, c requires 0 <= c < n => seq(p, _ => Pow(1.0 + escrow.growthRate, c)))
  }

  /** The escrow series: the flattened factors times the initial amount, each rounded to the cent. */
  function EscrowSeries(escrow: Escrow, duration: nat): seq<int>
  {
    var factors := Flatten(GrowthFactors(escrow, duration));
    seq(|factors|, i requires 0 <= i < |factors| => RoundScaled(escrow.initial, factors[i]))
  }

  /** The escrow amount of every month of cycle c. */
  function CycleEscrow(escrow: Escrow, c: nat): int
  {
    RoundScaled(escrow.initial, Pow(1.0 + escrow.growthRate, c))
  }

  // ---------------------------------------------------------------------------
  // Composition

  /** Pairs each row with the escrow entry of the same month. */
  function AttachEscrow(rows: seq<Row>, series: seq<int>): (r: seq<PaymentRow>)
    requires |rows| == |series|
    ensures |r| == |rows|
    ensures forall i :: 0 <= i < |r| ==> r[i].row == rows[i] && r[i].escrow == series[i]
  {
    if rows == [] then [] else [PaymentRow(rows[0], series[0])] + AttachEscrow(rows[1..], series[1..])
  }

  /** The composed schedule: the raw schedule with the escrow series cut to its length. */
  function MonthlyPayment(loan: Loan, escrow: Escrow): Result<seq<PaymentRow>>
  {
    match RawPayments(loan)
    case Err(e) => Err(e)
    case Ok(rows) =>
      var series := EscrowSeries(escrow, loan.duration);
      assert |rows| <= |series| by { EscrowLength(escrow, loan.duration); }
      Ok(AttachEscrow(rows, series[..|rows|]))
  }

  /** Runs the schedule loop, then attaches the escrow series for the same duration. */
  method ComputeMonthlyPayment(loan: Loan, escrow: Escrow) returns (r: Result<seq<PaymentRow>>)
    ensures r == MonthlyPayment(loan, escrow)
  {
    var payments := ComputeRawPayments(loan);
    if payments.Err? {
      return Err(payments.error);
    }
    var rows := payments.value;
    var series := EscrowSeries(escrow, loan.duration);
    EscrowLength(escrow, loan.duration);
    return Ok(AttachEscrow(rows, series[..|rows|]));
  }

  // ---------------------------------------------------------------------------
  // Lemmas: escrow

  /** Flattening rows of equal width p gives |xss| * p entries. */
  lemma {:induction false} FlattenLength<T>(xss: seq<seq<T>>, p: nat)
    requires forall c :: 0 <= c < |xss| ==> |xss[c]| == p
    ensures |Flatten(xss)| == |xss| * p
  {
    if xss != [] {
      FlattenLength(xss[1..], p);
      assert |xss| * p == p + (|xss| - 1) * p;
    }
  }

  /** Flattening rows of equal width p puts column m of row c at index c * p + m. */
  lemma {:induction false} FlattenAt<T>(xss: seq<seq<T>>, p: nat, c: nat, m: nat)
    requires forall c' :: 0 <= c' < |xss| ==> |xss[c']| == p
    requires c < |xss| && m < p
    ensures c * p + m < |Flatten(xss)|
    ensures Flatten(xss)[c * p + m] == xss[c][m]
  {
    FlattenLength(xss, p);
    if c > 0 {
      FlattenAt(xss[1..], p, c - 1, m);
      assert c * p + m == p + ((c - 1) * p + m);
      assert Flatten(xss) == xss[0] + Flatten(xss[1..]);
    }
  }

  /** The series covers whole cycles: ceil(duration / p) * p entries, never fewer than the duration. */
  lemma EscrowLength(escrow: Escrow, duration: nat)
    ensures |EscrowSeries(escrow, duration)| == CycleCount(duration, Months(escrow.period)) * Months(escrow.period)
    ensures duration <= |EscrowSeries(escrow, duration)| < duration + Months(escrow.period)
  {
    FlattenLength(GrowthFactors(escrow, duration), Months(escrow.period));
  }

  /** Entry i of the series is the rounded product of the initial amount and the i-th flattened factor. */
  lemma EscrowSeriesAt(escrow: Escrow, duration: nat, i: nat)
    requires i < |EscrowSeries(escrow, duration)|
    ensures EscrowSeries(escrow, duration)[i]
         == RoundScaled(escrow.initial, Flatten(GrowthFactors(escrow, duration))[i])
  {
  }

  /** Entry i of the series is the amount of cycle i / p. */
  lemma EscrowEntry(escrow: Escrow, duration: nat, i: nat)
    requires i < |EscrowSeries(escrow, duration)|
    ensures EscrowSeries(escrow, duration)[i] == CycleEscrow(escrow, i / Months(escrow.period))
  {
    var p := Months(escrow.period);
    var rows := GrowthFactors(escrow, duration);
    FlattenLength(rows, p);
    var q := i / p;
    DivMod(i, p);
    if q >= |rows| {
      MulMonotone(|rows|, q, p);
      assert false;
    }
    FlattenAt(rows, p, q, i % p);
    assert rows[q] == seq(p, _ => Pow(1.0 + escrow.growthRate, q));
    assert Flatten(rows)[i] == Pow(1.0 + escrow.growthRate, q);
    EscrowSeriesAt(escrow, duration, i);
  }

  /** All months of one cycle share one escrow amount. */
  lemma EscrowConstantWithinCycle(escrow: Escrow, duration: nat, i: nat, j: nat)
    requires i < |EscrowSeries(escrow, duration)| && j < |EscrowSeries(escrow, duration)|
    requires i / Months(escrow.period) == j / Months(escrow.period)
    ensures EscrowSeries(escrow, duration)[i] == EscrowSeries(escrow, duration)[j]
  {
    EscrowEntry(escrow, duration, i);
    EscrowEntry(escrow, duration, j);
  }

  /** The first month pays the initial amount. */
  lemma EscrowStartsAtInitial(escrow: Escrow, duration: nat)
    requires duration > 0
    ensures |EscrowSeries(escrow, duration)| > 0
    ensures EscrowSeries(escrow, duration)[0] == escrow.initial
  {
    EscrowLength(escrow, duration);
    EscrowEntry(escrow, duration, 0);
    RoundWhole(escrow.initial);
    assert Pow(1.0 + escrow.growthRate, 0) == 1.0;
  }

  /** With a non-negative amount and growth rate, a later cycle's amount is never smaller. */
  lemma CycleEscrowMonotone(escrow: Escrow, c: nat, d: nat)
    requires escrow.initial >= 0 && escrow.growthRate >= 0.0
    requires c <= d
    ensures CycleEscrow(escrow, c) <= CycleEscrow(escrow, d)
  {
    var g := 1.0 + escrow.growthRate;
    PowMonotone(g, c, d);
    RoundScaledMonotone(escrow.initial, Pow(g, c), Pow(g, d));
  }

  /** With a non-negative amount and growth rate, escrow never decreases from month to month. */
  lemma EscrowNonDecreasing(escrow: Escrow, duration: nat, i: nat, j: nat)
    requires escrow.initial >= 0 && escrow.growthRate >= 0.0
    requires i <= j < |EscrowSeries(escrow, duration)|
    ensures EscrowSeries(escrow, duration)[i] <= EscrowSeries(escrow, duration)[j]
  {
    var p := Months(escrow.period);
    EscrowEntry(escrow, duration, i);
    EscrowEntry(escrow, duration, j);
    DivMonotone(i, j, p);
    CycleEscrowMonotone(escrow, i / p, j / p);
  }

  // ---------------------------------------------------------------------------
  // Lemmas: the fixed payment

  /** For a rate of at least -1, the formula divides by zero exactly when the rate or the duration is zero. */
  lemma FixedPaymentFails(principal: int, rate: real, duration: nat)
    requires rate >= -1.0
    ensures FixedPayment(principal, rate, duration).Err? <==> (rate == 0.0 || duration == 0)
  {
    PowIsOne(1.0 + rate, duration);
  }

  /** Dividing a non-negative amount by (F - 1) / F, for F above one, never makes it smaller. */
  lemma AnnuityAtLeast(principal: int, rate: real, factor: real)
    requires principal >= 0 && rate >= 0.0 && factor > 1.0
    ensures Annuity(principal, rate, factor) >= principal as real * rate
  {
    var a := principal as real * rate;
    var d := factor - 1.0;
    var w := a * factor / d;
    MulNonNegative(principal as real, rate);
    assert w * d == a * factor;
    assert a * factor == a * d + a;
    if w < a {
      MulPositive(a - w, d);
      assert false;
    }
  }

  /** For a positive rate and duration, the payment exists and covers the first month's interest. */
  lemma PaymentCoversInterest(principal: int, rate: real, duration: nat)
    requires principal >= 0 && rate > 0.0 && duration > 0
    ensures FixedPayment(principal, rate, duration).Ok?
    ensures FixedPayment(principal, rate, duration).value >= MonthInterest(principal, rate)
  {
    var factor := RateFactor(rate, duration);
    PowAboveOne(1.0 + rate, duration);
    AnnuityAtLeast(principal, rate, factor);
    RoundMonotone(principal as real * rate, Annuity(principal, rate, factor));
    RoundScaledUnfold(principal, rate);
  }

  /** Over one month the annuity is the principal plus one month's interest. */
  lemma AnnuityOneMonth(principal: int, rate: real)
    requires rate != 0.0
    ensures Annuity(principal, rate, 1.0 + rate) == principal as real + principal as real * rate
  {
    var p := principal as real;
    assert (1.0 + rate) - 1.0 == rate;
    assert p * rate * (1.0 + rate) == (p + p * rate) * rate;
  }

  // ---------------------------------------------------------------------------
  // Lemmas: the schedule

  /** A larger opening balance is charged no less interest, for a non-negative rate. */
  lemma InterestMonotone(x: int, y: int, rate: real)
    requires x <= y && rate >= 0.0
    ensures MonthInterest(x, rate) <= MonthInterest(y, rate)
  {
    RoundScaledMonotoneInAmount(x, y, rate);
  }

  /** The rows from index i on are the rows that the balance standing at month i produces. */
  lemma {:induction false} RowsSuffix(loan: Loan, payment: int, k: nat, opening: int, monthsLeft: nat, i: nat)
    requires i <= |Rows(loan, payment, k, opening, monthsLeft)|
    ensures var rows := Rows(loan, payment, k, opening, monthsLeft);
      rows[i..] == Rows(loan, payment, k + i, if i == 0 then opening else rows[i - 1].standingPrincipal, monthsLeft - i)
    decreases i
  {
    if i > 0 {
      var rows := Rows(loan, payment, k, opening, monthsLeft);
      var row := MonthRow(loan, payment, k, opening, monthsLeft);
      var tail := Rows(loan, payment, k + 1, row.standingPrincipal, monthsLeft - 1);
      assert rows == [row] + tail;
      RowsSuffix(loan, payment, k + 1, row.standingPrincipal, monthsLeft - 1, i - 1);
      assert rows[i..] == tail[i - 1..];
      if i > 1 {
        assert rows[i - 1] == tail[i - 2];
      }
    }
  }

  /** Month i of the schedule opens on a positive balance and is computed from it. */
  lemma ScheduleMonth(loan: Loan, payment: int, i: nat)
    requires i < |Schedule(loan, payment)|
    ensures Opening(loan, Schedule(loan, payment), i) > 0
    ensures Schedule(loan, payment)[i]
         == MonthRow(loan, payment, i, Opening(loan, Schedule(loan, payment), i), loan.duration - i)
  {
    var s := Schedule(loan, payment);
    RowsSuffix(loan, payment, 0, loan.principal, loan.duration, i);
    assert s[i..][0] == s[i];
  }

  /** Each month charges the rounded interest on its opening balance; unless the guard fires,
      interest and principal add up to the fixed payment. */
  lemma MonthSplit(loan: Loan, payment: int, i: nat)
    requires i < |Schedule(loan, payment)|
    ensures var s := Schedule(loan, payment); var b := Opening(loan, s, i);
      && s[i].interestExpense == MonthInterest(b, loan.monthlyRate)
      && (b > payment - s[i].interestExpense ==> s[i].interestExpense + s[i].principalExpense == payment)
  {
    ScheduleMonth(loan, payment, i);
  }

  /** When the balance does not exceed the scheduled principal, the month takes the balance plus
      one cent, so the scheduled part leaves the balance at exactly minus one cent. */
  lemma PayoffGuard(loan: Loan, payment: int, i: nat)
    requires i < |Schedule(loan, payment)|
    ensures var s := Schedule(loan, payment); var b := Opening(loan, s, i);
      b <= payment - s[i].interestExpense ==>
        s[i].principalExpense == b + 1 && b - s[i].principalExpense == -1
  {
    ScheduleMonth(loan, payment, i);
  }

  /** The closing balance is the opening balance less the principal part, less the extra payment
      when the one-based month is a multiple of the cycle, less the special payment of the month. */
  lemma MonthBalance(loan: Loan, payment: int, i: nat)
    requires i < |Schedule(loan, payment)|
    ensures var s := Schedule(loan, payment);
      s[i].standingPrincipal
        == Opening(loan, s, i) - s[i].principalExpense
           - (if (i + 1) % Months(loan.extraPeriod) == 0 then loan.extraPayment else 0)
           - (if i in loan.specialPayments then loan.specialPayments[i] else 0)
  {
    ScheduleMonth(loan, payment, i);
  }

  /** With no negative prepayment, every month before the last pays exactly the fixed payment,
      split into interest and principal. */
  lemma NonFinalRowsSplit(loan: Loan, payment: int, i: nat)
    requires PrepaymentsNonNegative(loan)
    requires i + 1 < |Schedule(loan, payment)|
    ensures Schedule(loan, payment)[i].interestExpense + Schedule(loan, payment)[i].principalExpense == payment
  {
    ScheduleTermination(loan, payment);
    MonthSplit(loan, payment, i);
    PayoffGuard(loan, payment, i);
    MonthBalance(loan, payment, i);
  }

  /** A negative special payment can raise the balance after the guard fired, so the month that
      took the balance plus one cent is not the last one. */
  lemma NegativePrepaymentAfterGuard()
    ensures var loan := Loan(100, 0.0, 3, 0, Year, map[0 := -500]);
      var s := Schedule(loan, 1000);
      |s| >= 2 && s[0].interestExpense + s[0].principalExpense != 1000
  {
    var loan := Loan(100, 0.0, 3, 0, Year, map[0 := -500]);
    ScheduleMonth(loan, 1000, 0);
    ScheduleTermination(loan, 1000);
    var s := Schedule(loan, 1000);
    assert |s| >= 1;
    RoundWhole(0);
    assert MonthInterest(100, 0.0) == 0 by { RoundScaledUnfold(100, 0.0); }
  }

  /** The loop stops only when it must: every month opens on a positive balance, and a schedule
      shorter than the duration ends on a balance of zero or less. */
  lemma ScheduleTermination(loan: Loan, payment: int)
    ensures var s := Schedule(loan, payment);
      && (forall i :: 0 <= i < |s| ==> Opening(loan, s, i) > 0)
      && (forall i :: 0 <= i < |s| - 1 ==> s[i].standingPrincipal > 0)
      && (|s| < loan.duration ==> Opening(loan, s, |s|) <= 0)
  {
    var s := Schedule(loan, payment);
    forall i | 0 <= i < |s|
      ensures Opening(loan, s, i) > 0
    {
      ScheduleMonth(loan, payment, i);
    }
    forall i | 0 <= i < |s| - 1
      ensures s[i].standingPrincipal > 0
    {
      ScheduleMonth(loan, payment, i + 1);
    }
    RowsSuffix(loan, payment, 0, loan.principal, loan.duration, |s|);
    assert s[|s|..] == [];
  }

  /** No prepayment is negative. */
  predicate PrepaymentsNonNegative(loan: Loan)
  {
    loan.extraPayment >= 0 && forall k :: k in loan.specialPayments ==> loan.specialPayments[k] >= 0
  }

  /** No row's balance exceeds the balance standing before it, starting from the opening balance. */
  predicate NonIncreasingFrom(opening: int, rows: seq<Row>)
  {
    forall i :: 0 <= i < |rows| ==>
      rows[i].standingPrincipal <= (if i == 0 then opening else rows[i - 1].standingPrincipal)
  }

  /** While the payment covers the interest on the opening balance, no month raises the balance. */
  lemma {:induction false} RowsNonIncreasing(loan: Loan, payment: int, k: nat, opening: int, monthsLeft: nat)
    requires loan.monthlyRate >= 0.0 && PrepaymentsNonNegative(loan)
    requires MonthInterest(opening, loan.monthlyRate) <= payment
    ensures NonIncreasingFrom(opening, Rows(loan, payment, k, opening, monthsLeft))
    decreases monthsLeft
  {
    if monthsLeft > 0 && opening > 0 {
      var rows := Rows(loan, payment, k, opening, monthsLeft);
      var row := MonthRow(loan, payment, k, opening, monthsLeft);
      var tail := Rows(loan, payment, k + 1, row.standingPrincipal, monthsLeft - 1);
      assert rows == [row] + tail;
      assert row.standingPrincipal <= opening;
      InterestMonotone(row.standingPrincipal, opening, loan.monthlyRate);
      RowsNonIncreasing(loan, payment, k + 1, row.standingPrincipal, monthsLeft - 1);
      forall i | 0 <= i < |rows|
        ensures rows[i].standingPrincipal <= (if i == 0 then opening else rows[i - 1].standingPrincipal)
      {
        if i == 0 {
          assert rows[0] == row;
        } else {
          assert rows[i] == tail[i - 1];
          assert tail[i - 1].standingPrincipal
              <= (if i - 1 == 0 then row.standingPrincipal else tail[i - 2].standingPrincipal);
          assert rows[i - 1] == if i == 1 then row else tail[i - 2];
        }
      }
    }
  }

  /** For a positive rate and duration and non-negative prepayments, the standing principal never rises. */
  lemma StandingNonIncreasing(loan: Loan)
    requires loan.principal >= 0 && loan.monthlyRate > 0.0 && loan.duration > 0
    requires PrepaymentsNonNegative(loan)
    ensures RawPayments(loan).Ok?
    ensures var s := RawPayments(loan).value;
      forall i :: 0 <= i < |s| ==> s[i].standingPrincipal <= Opening(loan, s, i)
  {
    PaymentCoversInterest(loan.principal, loan.monthlyRate, loan.duration);
    var payment := FixedPayment(loan.principal, loan.monthlyRate, loan.duration).value;
    RowsNonIncreasing(loan, payment, 0, loan.principal, loan.duration);
    var s := Schedule(loan, payment);
    assert RawPayments(loan).value == s;
    forall i | 0 <= i < |s|
      ensures s[i].standingPrincipal <= Opening(loan, s, i)
    {
      assert s[i].standingPrincipal <= (if i == 0 then loan.principal else s[i - 1].standingPrincipal);
    }
  }

  /** Two loans that differ only in their prepayments. */
  predicate SameTerms(a: Loan, b: Loan)
  {
    a.principal == b.principal && a.monthlyRate == b.monthlyRate
    && a.duration == b.duration && a.extraPeriod == b.extraPeriod
  }

  /** With larger prepayments, every balance is no larger, so the rows run out no later. */
  lemma {:induction false} RowsShorter(more: Loan, less: Loan, payment: int, k: nat, b1: int, b2: int, monthsLeft: nat)
    requires SameTerms(more, less) && more.monthlyRate >= 0.0
    requires more.extraPayment >= less.extraPayment
    requires forall j :: SpecialDue(more, j) >= SpecialDue(less, j)
    requires b1 <= b2
    ensures |Rows(more, payment, k, b1, monthsLeft)| <= |Rows(less, payment, k, b2, monthsLeft)|
    decreases monthsLeft
  {
    if monthsLeft > 0 && b1 > 0 && b2 > 0 {
      var r1 := MonthRow(more, payment, k, b1, monthsLeft);
      var r2 := MonthRow(less, payment, k, b2, monthsLeft);
      InterestMonotone(b1, b2, more.monthlyRate);
      assert ExtraDue(more, k) >= ExtraDue(less, k);
      assert SpecialDue(more, k) >= SpecialDue(less, k);
      assert r1.standingPrincipal <= r2.standingPrincipal;
      RowsShorter(more, less, payment, k + 1, r1.standingPrincipal, r2.standingPrincipal, monthsLeft - 1);
    }
  }

  /** Paying more extra or special principal, all else equal, never lengthens the schedule. */
  lemma MorePrepaymentNeverLengthens(more: Loan, less: Loan)
    requires SameTerms(more, less) && more.monthlyRate >= 0.0
    requires more.extraPayment >= less.extraPayment
    requires forall j :: SpecialDue(more, j) >= SpecialDue(less, j)
    ensures RawPayments(more).Ok? <==> RawPayments(less).Ok?
    ensures RawPayments(more).Ok? ==> |RawPayments(more).value| <= |RawPayments(less).value|
  {
    var fixed := FixedPayment(more.principal, more.monthlyRate, more.duration);
    if fixed.Ok? {
      RowsShorter(more, less, fixed.value, 0, more.principal, less.principal, more.duration);
    }
  }

  /** Principal repaid over a run of rows: scheduled principal plus extra and special payments. */
  function Repaid(loan: Loan, rows: seq<Row>): int
  {
    if rows == [] then 0
    else
      var last := rows[|rows| - 1];
      Repaid(loan, rows[..|rows| - 1]) + last.principalExpense
        + ExtraDue(loan, last.monthNumber) + SpecialDue(loan, last.monthNumber)
  }

  /** Over the first n months, what was repaid is what the balance went down by. */
  lemma {:induction false} RepaidPrefix(loan: Loan, payment: int, n: nat)
    requires n <= |Schedule(loan, payment)|
    ensures var s := Schedule(loan, payment);
      Repaid(loan, s[..n]) == loan.principal - Opening(loan, s, n)
  {
    if n > 0 {
      var s := Schedule(loan, payment);
      RepaidPrefix(loan, payment, n - 1);
      ScheduleMonth(loan, payment, n - 1);
      assert s[..n][..n - 1] == s[..n - 1];
    }
  }

  /** Everything repaid over the schedule equals the principal less the final balance. */
  lemma PrincipalConservation(loan: Loan, payment: int)
    ensures var s := Schedule(loan, payment);
      Repaid(loan, s) == loan.principal - Opening(loan, s, |s|)
  {
    var s := Schedule(loan, payment);
    RepaidPrefix(loan, payment, |s|);
    assert s[..|s|] == s;
  }

  /** Sum of the monthly principal expense. */
  function TotalPrincipalExpense(rows: seq<Row>): int
  {
    if rows == [] then 0
    else TotalPrincipalExpense(rows[..|rows| - 1]) + rows[|rows| - 1].principalExpense
  }

  /** Without prepayments, what was repaid is the principal expense alone. */
  lemma {:induction false} RepaidWithoutPrepayment(loan: Loan, rows: seq<Row>)
    requires loan.extraPayment == 0 && loan.specialPayments == map[]
    ensures Repaid(loan, rows) == TotalPrincipalExpense(rows)
    decreases |rows|
  {
    if rows != [] {
      RepaidWithoutPrepayment(loan, rows[..|rows| - 1]);
    }
  }

  /** Without prepayments, a loan paid off before its last month ends one cent below zero,
      having paid one cent more principal than it borrowed. */
  lemma EarlyPayoffOvershoots(loan: Loan, payment: int)
    requires loan.principal > 0 && loan.extraPayment == 0 && loan.specialPayments == map[]
    requires |Schedule(loan, payment)| < loan.duration
    ensures var s := Schedule(loan, payment);
      && |s| > 0
      && s[|s| - 1].standingPrincipal == -1
      && TotalPrincipalExpense(s) == loan.principal + 1
  {
    var s := Schedule(loan, payment);
    ScheduleTermination(loan, payment);
    assert |s| > 0;
    var i := |s| - 1;
    ScheduleMonth(loan, payment, i);
    PrincipalConservation(loan, payment);
    RepaidWithoutPrepayment(loan, s);
  }

  /** Over one month, the fixed payment less the first month's interest is within a cent of the principal. */
  lemma OneMonthPayment(principal: int, rate: real)
    requires rate != 0.0
    ensures FixedPayment(principal, rate, 1).Ok?
    ensures principal - 1 <= FixedPayment(principal, rate, 1).value - MonthInterest(principal, rate) <= principal + 1
  {
    var factor := RateFactor(rate, 1);
    assert Pow(1.0 + rate, 0) == 1.0;
    assert factor == 1.0 + rate;
    AnnuityOneMonth(principal, rate);
    var payment := RoundHalfEven(Annuity(principal, rate, factor));
    assert FixedPayment(principal, rate, 1) == Ok(payment);
    RoundScaledUnfold(principal, rate);
  }

  /** A one-month loan is one row that ends within a cent of zero, its principal within a cent of
      what was borrowed. */
  lemma SingleMonth(loan: Loan)
    requires loan.principal > 0 && loan.duration == 1 && loan.monthlyRate != 0.0
    requires loan.extraPayment == 0 && 0 !in loan.specialPayments
    ensures RawPayments(loan).Ok? && |RawPayments(loan).value| == 1
    ensures var row := RawPayments(loan).value[0];
      -1 <= row.standingPrincipal <= 1 && loan.principal - 1 <= row.principalExpense <= loan.principal + 1
  {
    OneMonthPayment(loan.principal, loan.monthlyRate);
    var payment := FixedPayment(loan.principal, loan.monthlyRate, 1).value;
    RowsUnfold(loan, payment, 0, loan.principal, 1);
  }

  // ---------------------------------------------------------------------------
  // Lemmas: composition

  /** The composed table has one row per schedule row, carrying that row and the escrow of its cycle;
      the escrow slice never runs short. */
  lemma MonthlyPaymentAligned(loan: Loan, escrow: Escrow)
    ensures MonthlyPayment(loan, escrow).Ok? <==> RawPayments(loan).Ok?
    ensures RawPayments(loan).Ok? ==> |RawPayments(loan).value| <= |EscrowSeries(escrow, loan.duration)|
    ensures MonthlyPayment(loan, escrow).Ok? ==>
      var rows := RawPayments(loan).value;
      var table := MonthlyPayment(loan, escrow).value;
      && |table| == |rows|
      && forall i :: 0 <= i < |table| ==>
           table[i].row == rows[i] && table[i].escrow == CycleEscrow(escrow, i / Months(escrow.period))
  {
    EscrowLength(escrow, loan.duration);
    if RawPayments(loan).Ok? {
      var rows := RawPayments(loan).value;
      var table := MonthlyPayment(loan, escrow).value;
      forall i | 0 <= i < |table|
        ensures table[i].escrow == CycleEscrow(escrow, i / Months(escrow.period))
      {
        EscrowEntry(escrow, loan.duration, i);
      }
    }
  }
}
