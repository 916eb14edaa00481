/** The amortization engine: `monthly_payment` (the annuity formula) and
    `calculate_amortization_schedule` (the month-by-month repayment table).
    Amounts are exact reals; the only rounding is the two-decimal rounding of
    the payment that the Python code applies. */
module Amortization {
  import opened Wrappers
  import Money

  /** `(annual_rate / 100) / 12`. */
  function MonthlyRate(annualRate: real): real
  {
    annualRate / 100.0 / 12.0
  }

  /** `x ** n` for a natural exponent. */
  function Power(x: real, n: nat): (r: real)
    ensures x != 0.0 ==> r != 0.0
    ensures x > 1.0 && n > 0 ==> r > 1.0
  {
    if n == 0 then 1.0 else x * Power(x, n - 1)
  }

  /** `x ** n` for an integer exponent; Python raises ZeroDivisionError for
      `0.0 ** n` with `n < 0`. */
  function IntPower(x: real, n: int): Result<real>
  {
    if n >= 0 then Ok(Power(x, n))
    else if x == 0.0 then Err(DivisionByZero)
    else Ok(1.0 / Power(x, -n))
  }

  /** The annuity payment before rounding, for a non-zero monthly rate `r`
      and growth factor `g == (1 + r) ** months` with `g != 1`. */
  function Annuity(amount: real, r: real, g: real): real
    requires g != 1.0
  {
    amount * r * g / (g - 1.0)
  }

  /** `monthly_payment(amount, months, annual_rate)`. A zero monthly rate
      divides the amount evenly; otherwise the annuity formula is used. Both
      are rounded to two decimals. Each division by zero of the Python code
      is an `Err(DivisionByZero)`. */
  function MonthlyPayment(amount: real, months: int, annualRate: real): (p: Result<real>)
    ensures months == 0 ==> p == Err(DivisionByZero)
    ensures months > 0 && annualRate >= 0.0 ==> p.Ok?
    ensures MonthlyRate(annualRate) == 0.0 && months != 0 ==> p == Ok(Money.Round2(amount / months as real))
  {
    var r := MonthlyRate(annualRate);
    if r == 0.0 then
      if months == 0 then Err(DivisionByZero) else Ok(Money.Round2(amount / months as real))
    else
      match IntPower(1.0 + r, months)
      case Err(e) => Err(e)
      case Ok(g) =>
        if g - 1.0 == 0.0 then Err(DivisionByZero) else Ok(Money.Round2(Annuity(amount, r, g)))
  }

  /** Reference definition of what an annuity payment is: the balance left
      after paying `payment` for `n` months at monthly rate `r`, interest
      being charged on the balance before each payment. */
  function RemainingBalance(balance: real, r: real, payment: real, n: nat): real
    decreases n
  {
    if n == 0 then balance else RemainingBalance(balance * (1.0 + r) - payment, r, payment, n - 1)
  }

  lemma {:induction false} RemainingBalanceClosedForm(balance: real, r: real, payment: real, n: nat)
    ensures r * RemainingBalance(balance, r, payment, n)
         == r * balance * Power(1.0 + r, n) - payment * (Power(1.0 + r, n) - 1.0)
    decreases n
  {
    if n > 0 {
      var b' := balance * (1.0 + r) - payment;
      RemainingBalanceClosedForm(b', r, payment, n - 1);
      var g := Power(1.0 + r, n - 1);
      assert Power(1.0 + r, n) == (1.0 + r) * g;
      calc {
        r * b' * g - payment * (g - 1.0);
        r * balance * ((1.0 + r) * g) - payment * (r * g) - payment * (g - 1.0);
        r * balance * ((1.0 + r) * g) - payment * ((1.0 + r) * g - 1.0);
      }
    }
  }

  /** The (unrounded) annuity payment retires the loan: after `months`
      payments at the monthly rate nothing is left. */
  lemma AnnuityRetiresLoan(amount: real, months: nat, annualRate: real)
    requires MonthlyRate(annualRate) != 0.0
    requires Power(1.0 + MonthlyRate(annualRate), months) != 1.0
    ensures var r := MonthlyRate(annualRate);
      RemainingBalance(amount, r, Annuity(amount, r, Power(1.0 + r, months)), months) == 0.0
  {
    var r := MonthlyRate(annualRate);
    var g := Power(1.0 + r, months);
    var a := Annuity(amount, r, g);
    RemainingBalanceClosedForm(amount, r, a, months);
    assert a * (g - 1.0) == amount * r * g;
    assert r * RemainingBalance(amount, r, a, months) == 0.0;
  }

  /** The payment `monthly_payment` returns for a non-zero rate is that
      annuity to the nearest cent. */
  lemma PaymentRoundsAnnuity(amount: real, months: nat, annualRate: real)
    requires months > 0 && MonthlyRate(annualRate) != 0.0
    requires Power(1.0 + MonthlyRate(annualRate), months) != 1.0
    ensures var r := MonthlyRate(annualRate);
      var p := MonthlyPayment(amount, months, annualRate);
      && p.Ok?
      && -0.005 < p.value - Annuity(amount, r, Power(1.0 + r, months)) <= 0.005
  {
    var r := MonthlyRate(annualRate);
    Money.Round2Close(Annuity(amount, r, Power(1.0 + r, months)));
  }

  /** With a zero rate the even split retires the loan. */
  lemma FlatPaymentRetiresLoan(amount: real, months: nat)
    requires months > 0
    ensures RemainingBalance(amount, 0.0, amount / months as real, months) == 0.0
  {
    FlatRemaining(amount, amount / months as real, months);
  }

  lemma {:induction false} FlatRemaining(balance: real, payment: real, n: nat)
    ensures RemainingBalance(balance, 0.0, payment, n) == balance - n as real * payment
    decreases n
  {
    if n > 0 {
      FlatRemaining(balance - payment, payment, n - 1);
    }
  }

  // ---------------------------------------------------------------- schedule

  /** One row of the schedule: the dictionary appended by the loop. */
  datatype Entry = Entry(month: int, payment: real, interest: real, principal: real, balance: real)

  /** `if balance < 0.01: balance = 0`. */
  function Clamp(b: real): real
  {
    if b < 0.01 then 0.0 else b
  }

  /** One iteration of the schedule loop for month `i`, starting from the
      running `balance`; the last month repays the whole balance. */
  function Step(i: int, months: int, balance: real, payment: real, mr: real): Entry
  {
    var interest := balance * mr;
    var principal := if i == months then balance else payment - interest;
    var pay := if i == months then principal + interest else payment;
    Entry(i, pay, interest, principal, Clamp(balance - principal))
  }

  /** The entries for months `i..months`, from the running `balance`. */
  function Rows(i: int, months: int, balance: real, payment: real, mr: real): seq<Entry>
    decreases months - i
  {
    if i > months then []
    else
      var e := Step(i, months, balance, payment, mr);
      [e] + Rows(i + 1, months, e.balance, payment, mr)
  }

  /** The schedule `calculate_amortization_schedule` returns, or the error
      `monthly_payment` raises. */
  function Schedule(amount: real, months: int, annualRate: real): Result<seq<Entry>>
  {
    match MonthlyPayment(amount, months, annualRate)
    case Err(e) => Err(e)
    case Ok(p) => Ok(Rows(1, months, amount, p, MonthlyRate(annualRate)))
  }

  /** `calculate_amortization_schedule(amount, months, rate)`: the payment
      of `monthly_payment`, then the loop over `range(1, months + 1)`. */
  method CalculateAmortizationSchedule(amount: real, months: int, rate: real) returns (r: Result<seq<Entry>>)
    ensures r == Schedule(amount, months, rate)
  {
    var monthlyRate := MonthlyRate(rate);
    var computed := MonthlyPayment(amount, months, rate);
    if computed.Err? {
      return Err(computed.error);
    }
    var schedule := ScheduleLoop(amount, months, computed.value, monthlyRate);
    r := Ok(schedule);
  }

  /** The loop of `calculate_amortization_schedule`, carrying `balance` and
      `payment` from one month to the next. */
  method ScheduleLoop(amount: real, months: int, instalment: real, monthlyRate: real) returns (schedule: seq<Entry>)
    ensures schedule == Rows(1, months, amount, instalment, monthlyRate)
  {
    schedule := [];
    var balance := amount;
    var payment := instalment;
    ghost var p0 := payment;
    var i := 1;
    while i <= months
      invariant 1 <= i && (i <= months + 1 || i == 1)
      invariant i <= months ==> payment == p0
      invariant schedule + Rows(i, months, balance, p0, monthlyRate) == Rows(1, months, amount, p0, monthlyRate)
      decreases months - i
    {
      ghost var e := Step(i, months, balance, p0, monthlyRate);
      RowsStep(schedule, i, months, balance, p0, monthlyRate);
      var interest := balance * monthlyRate;
      var principal := payment - interest;
      if i == months {
        principal := balance;
        payment := principal + interest;
      }
      balance := balance - principal;
      if balance < 0.01 {
        balance := 0.0;
      }
      assert Entry(i, payment, interest, principal, balance) == e;
      schedule := schedule + [Entry(i, payment, interest, principal, balance)];
      i := i + 1;
    }
    assert Rows(i, months, balance, p0, monthlyRate) == [];
    assert schedule == schedule + [];
  }

  /** One loop iteration moves the next entry from the rows still to come to
      the accumulated schedule. */
  lemma RowsStep(acc: seq<Entry>, i: int, months: int, balance: real, payment: real, mr: real)
    requires i <= months
    ensures var e := Step(i, months, balance, payment, mr);
      acc + Rows(i, months, balance, payment, mr) == (acc + [e]) + Rows(i + 1, months, e.balance, payment, mr)
  {
    var e := Step(i, months, balance, payment, mr);
    assert Rows(i, months, balance, payment, mr) == [e] + Rows(i + 1, months, e.balance, payment, mr);
  }

  // ---------------------------------------------------------------- schedule properties

  lemma {:induction false} RowsLength(i: int, months: int, balance: real, payment: real, mr: real)
    ensures |Rows(i, months, balance, payment, mr)| == if i > months then 0 else months - i + 1
    decreases months - i
  {
    if i <= months {
      var e := Step(i, months, balance, payment, mr);
      RowsLength(i + 1, months, e.balance, payment, mr);
    }
  }

  /** Entry `k` of the rows is one loop step from the balance recorded by
      entry `k - 1` (or the starting balance for the first). */
  lemma {:induction false} RowsAt(i: int, months: int, balance: real, payment: real, mr: real, k: nat)
    requires i + k <= months
    ensures var rows := Rows(i, months, balance, payment, mr);
      |rows| == months - i + 1 &&
      rows[k] == Step(i + k, months, if k == 0 then balance else rows[k - 1].balance, payment, mr)
    decreases k
  {
    RowsLength(i, months, balance, payment, mr);
    var e := Step(i, months, balance, payment, mr);
    if k > 0 {
      RowsAt(i + 1, months, e.balance, payment, mr, k - 1);
    }
  }

  /** The balance before month `k + 1` of a schedule `s` of a loan of
      `amount`. */
  function Before(s: seq<Entry>, amount: real, k: nat): real
    requires k <= |s|
  {
    if k == 0 then amount else s[k - 1].balance
  }

  /** The schedule has one entry per month, numbered 1, 2, ..., months in
      order, and no recorded balance is negative: anything under 0.01,
      negative values included, is recorded as 0. */
  lemma ScheduleShape(amount: real, months: int, annualRate: real)
    requires Schedule(amount, months, annualRate).Ok?
    ensures var s := Schedule(amount, months, annualRate).value;
      && |s| == (if months > 0 then months else 0)
      && (forall k :: 0 <= k < |s| ==> s[k].month == k + 1)
      && (forall k :: 0 <= k < |s| ==> s[k].balance >= 0.0 && (s[k].balance == 0.0 || s[k].balance >= 0.01))
  {
    var p := MonthlyPayment(amount, months, annualRate).value;
    var mr := MonthlyRate(annualRate);
    var s := Rows(1, months, amount, p, mr);
    RowsLength(1, months, amount, p, mr);
    forall k | 0 <= k < |s|
      ensures s[k].month == k + 1 && s[k].balance >= 0.0 && (s[k].balance == 0.0 || s[k].balance >= 0.01)
    {
      RowsAt(1, months, amount, p, mr, k);
    }
  }

  /** Entry `k` of the schedule is one loop step from the balance recorded
      by entry `k - 1`, or from the amount for the first month. */
  lemma ScheduleEntryAt(amount: real, months: int, annualRate: real, k: nat)
    requires Schedule(amount, months, annualRate).Ok?
    requires k < months
    ensures |Schedule(amount, months, annualRate).value| == months
    ensures var s := Schedule(amount, months, annualRate).value;
      s[k] == Step(k + 1, months, Before(s, amount, k), MonthlyPayment(amount, months, annualRate).value, MonthlyRate(annualRate))
  {
    var p := MonthlyPayment(amount, months, annualRate).value;
    RowsAt(1, months, amount, p, MonthlyRate(annualRate), k);
  }

  /** The last month repays exactly the balance left before it, its payment is
      that principal plus the month's interest, and the loan closes at 0. */
  lemma LastEntryClosesLoan(amount: real, months: int, annualRate: real)
    requires Schedule(amount, months, annualRate).Ok?
    requires months > 0
    ensures |Schedule(amount, months, annualRate).value| == months
    ensures var s := Schedule(amount, months, annualRate).value;
      var last := s[months - 1];
      var before := Before(s, amount, months - 1);
      && last.principal == before
      && last.interest == before * MonthlyRate(annualRate)
      && last.payment == last.principal + last.interest
      && last.balance == 0.0
  {
    ScheduleEntryAt(amount, months, annualRate, months - 1);
  }

  /** Every month but the last pays the computed monthly payment, of which
      the interest is the previous balance times the monthly rate and the
      rest is principal. */
  lemma EarlierEntriesPayInstalment(amount: real, months: int, annualRate: real, k: nat)
    requires Schedule(amount, months, annualRate).Ok?
    requires k + 1 < months
    ensures |Schedule(amount, months, annualRate).value| == months
    ensures var s := Schedule(amount, months, annualRate).value;
      var before := Before(s, amount, k);
      && s[k].payment == MonthlyPayment(amount, months, annualRate).value
      && s[k].interest == before * MonthlyRate(annualRate)
      && s[k].principal == s[k].payment - s[k].interest
      && s[k].balance == Clamp(before - s[k].principal)
  {
    ScheduleEntryAt(amount, months, annualRate, k);
  }

  /** At a zero rate no interest is ever charged and every month but the
      last pays the amount divided by the months, rounded to cents. */
  lemma ZeroRateSchedule(amount: real, months: int)
    requires months > 0
    ensures Schedule(amount, months, 0.0).Ok?
    ensures |Schedule(amount, months, 0.0).value| == months
    ensures var s := Schedule(amount, months, 0.0).value;
      && (forall k :: 0 <= k < months ==> s[k].interest == 0.0)
      && (forall k :: 0 <= k < months - 1 ==> s[k].payment == Money.Round2(amount / months as real))
  {
    assert MonthlyRate(0.0) == 0.0;
    var s := Schedule(amount, months, 0.0).value;
    ScheduleEntryAt(amount, months, 0.0, 0);
    forall k | 0 <= k < months
      ensures s[k].interest == 0.0
      ensures k < months - 1 ==> s[k].payment == Money.Round2(amount / months as real)
    {
      ScheduleEntryAt(amount, months, 0.0, k);
    }
  }

  function SumPrincipal(s: seq<Entry>): real
  {
    if s == [] then 0.0 else s[0].principal + SumPrincipal(s[1..])
  }

  /** Unless the balance is cleared before the last month, the principal
      portions add up exactly to the amount borrowed. */
  lemma {:induction false} PrincipalsRepayBalance(i: int, months: int, balance: real, payment: real, mr: real)
    requires i <= months
    requires var rows := Rows(i, months, balance, payment, mr);
      forall k :: 0 <= k < |rows| - 1 ==> rows[k].balance > 0.0
    ensures SumPrincipal(Rows(i, months, balance, payment, mr)) == balance
    decreases months - i
  {
    var rows := Rows(i, months, balance, payment, mr);
    var e := Step(i, months, balance, payment, mr);
    var rest := Rows(i + 1, months, e.balance, payment, mr);
    assert rows[1..] == rest;
    RowsLength(i, months, balance, payment, mr);
    if i < months {
      RowsLength(i + 1, months, e.balance, payment, mr);
      assert rows[0].balance > 0.0;
      forall k | 0 <= k < |rest| - 1 ensures rest[k].balance > 0.0 {
        assert rest[k] == rows[k + 1];
      }
      PrincipalsRepayBalance(i + 1, months, e.balance, payment, mr);
    } else {
      assert rest == [];
    }
  }

  lemma PrincipalsRepayAmount(amount: real, months: int, annualRate: real)
    requires months > 0
    requires Schedule(amount, months, annualRate).Ok?
    requires var s := Schedule(amount, months, annualRate).value;
      forall k :: 0 <= k < |s| - 1 ==> s[k].balance > 0.0
    ensures SumPrincipal(Schedule(amount, months, annualRate).value) == amount
  {
    var p := MonthlyPayment(amount, months, annualRate).value;
    PrincipalsRepayBalance(1, months, amount, p, MonthlyRate(annualRate));
  }

  /** The condition of `PrincipalsRepayAmount` is needed: lending 0.05 over
      ten months at no interest, the instalment rounds up to 0.01 and clears
      the balance in the fifth month, yet four more months each record a
      principal of 0.01. */
  lemma ClearedEarlyOverpays()
    ensures Schedule(0.05, 10, 0.0).Ok?
    ensures SumPrincipal(Schedule(0.05, 10, 0.0).value) == 0.09
  {
    assert MonthlyPayment(0.05, 10, 0.0) == Ok(0.01) by {
      assert Money.RoundScaled(0.005, 2) == 1;
    }
    var tail := Rows(6, 10, 0.0, 0.01, 0.0);
    assert SumPrincipal(tail) == 0.04;
    assert SumPrincipal(Rows(1, 10, 0.05, 0.01, 0.0)) == 0.05 + SumPrincipal(tail);
  }

  /** Until the balance is first cleared, the recorded balances are those of
      the reference recurrence driven by the rounded payment. */
  lemma {:induction false} RowsFollowRecurrence(i: int, months: int, balance: real, payment: real, mr: real, k: nat)
    requires i + k < months
    requires var rows := Rows(i, months, balance, payment, mr);
      forall j :: 0 <= j < |rows| && j <= k ==> rows[j].balance > 0.0
    ensures k < |Rows(i, months, balance, payment, mr)|
    ensures Rows(i, months, balance, payment, mr)[k].balance == RemainingBalance(balance, mr, payment, k + 1)
    decreases k
  {
    RowsLength(i, months, balance, payment, mr);
    var rows := Rows(i, months, balance, payment, mr);
    var e := Step(i, months, balance, payment, mr);
    assert rows[0] == e;
    assert e.balance == balance * (1.0 + mr) - payment;
    if k > 0 {
      var rest := Rows(i + 1, months, e.balance, payment, mr);
      RowsLength(i + 1, months, e.balance, payment, mr);
      forall j | 0 <= j <= k - 1 ensures rest[j].balance > 0.0 {
        assert rest[j] == rows[j + 1];
      }
      RowsFollowRecurrence(i + 1, months, e.balance, payment, mr, k - 1);
      assert rows[k] == rest[k - 1];
    }
  }
}
