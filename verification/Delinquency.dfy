/** Arrears and portfolio-at-risk over scheduled installments. Money is in minor units, dates are day numbers. */
module Delinquency {
  import opened Rounding
  import opened Sequences

  type Loan = nat

  datatype Row = Row(loan: Loan, dueDate: int, principalDue: int, interestDue: int, principalPaid: int,
                     interestPaid: int)

  datatype AtRisk = AtRisk(balance: int, ratio: real)

  datatype Metrics = Metrics(portfolio: int, overdue: int, delinquentLoans: nat, maxDaysPastDue: int,
                             par: map<int, AtRisk>)

  function Max(a: int, b: int): int {
    if a >= b then a else b
  }

  function Outstanding(r: Row): int {
    Max(0, r.principalDue + r.interestDue - r.principalPaid - r.interestPaid)
  }

  function DaysPastDue(r: Row, asOf: int): int {
    Max(0, asOf - r.dueDate)
  }

  // ----- specification: group by loan -----

  function Loans(rows: seq<Row>): set<Loan> {
    set r | r in rows && Outstanding(r) != 0 :: r.loan
  }

  /** Sum of the outstanding amounts, of one loan or of all. */
  function Owed(rows: seq<Row>, loan: Loan): int {
    if rows == [] then 0
    else Owed(rows[..|rows| - 1], loan) + if rows[|rows| - 1].loan == loan then Outstanding(rows[|rows| - 1]) else 0
  }

  function TotalOwed(rows: seq<Row>): int {
    if rows == [] then 0 else TotalOwed(rows[..|rows| - 1]) + Outstanding(rows[|rows| - 1])
  }

  /** Sum of the outstanding amounts due more than the grace period ago. */
  function OverdueOf(rows: seq<Row>, asOf: int, grace: int): int {
    if rows == [] then 0
    else
      var last := rows[|rows| - 1];
      OverdueOf(rows[..|rows| - 1], asOf, grace) + if DaysPastDue(last, asOf) > grace then Outstanding(last) else 0
  }

  /** A loan's worst delay over its unpaid installments. */
  function Worst(rows: seq<Row>, loan: Loan, asOf: int): int {
    if rows == [] then 0
    else
      var before, last := Worst(rows[..|rows| - 1], loan, asOf), rows[|rows| - 1];
      if last.loan == loan && Outstanding(last) != 0 then Max(before, DaysPastDue(last, asOf)) else before
  }

  ghost function SumOwed(rows: seq<Row>, loans: set<Loan>): int {
    if loans == {} then 0
    else var l :| l in loans; Owed(rows, l) + SumOwed(rows, loans - {l})
  }

  function LateLoans(rows: seq<Row>, asOf: int, threshold: int): set<Loan> {
    set l | l in Loans(rows) && Worst(rows, l, asOf) >= threshold
  }

  ghost function Par(rows: seq<Row>, asOf: int, threshold: int): int {
    SumOwed(rows, LateLoans(rows, asOf, threshold))
  }

  const FOUR_DECIMALS := 10000

  function Ratio(part: int, whole: int): real {
    if whole == 0 then 0.0 else RoundTo(part as real / whole as real, FOUR_DECIMALS)
  }

  /** The greatest worst delay, or 0 for no loans. */
  ghost predicate IsMaxDelay(rows: seq<Row>, asOf: int, m: int) {
    && (forall l | l in Loans(rows) :: Worst(rows, l, asOf) <= m)
    && (if Loans(rows) == {} then m == 0 else exists l | l in Loans(rows) :: Worst(rows, l, asOf) == m)
  }

  /** What the calculation must report. */
  ghost predicate Reports(m: Metrics, rows: seq<Row>, asOf: int, thresholds: seq<int>, grace: int) {
    && m.portfolio == SumOwed(rows, Loans(rows))
    && m.overdue == OverdueOf(rows, asOf, grace)
    && m.delinquentLoans == |LateLoans(rows, asOf, grace + 1)|
    && IsMaxDelay(rows, asOf, m.maxDaysPastDue)
    && m.par.Keys == (set t | t in thresholds)
    && forall t | t in thresholds ::
         m.par[t] == AtRisk(Par(rows, asOf, t), Ratio(Par(rows, asOf, t), SumOwed(rows, Loans(rows))))
  }

  // ----- sums over sets of loans -----

  lemma {:induction false} SumWithout(rows: seq<Row>, loans: set<Loan>, l: Loan)
    requires l in loans
    ensures SumOwed(rows, loans) == Owed(rows, l) + SumOwed(rows, loans - {l})
  {
    var first :| first in loans && SumOwed(rows, loans) == Owed(rows, first) + SumOwed(rows, loans - {first});
    if first != l {
      SumWithout(rows, loans - {first}, l);
      SumWithout(rows, loans - {l}, first);
      assert loans - {first} - {l} == loans - {l} - {first};
    }
  }

  lemma {:induction false} SumSplits(rows: seq<Row>, part: set<Loan>, rest: set<Loan>)
    requires part !! rest
    ensures SumOwed(rows, part + rest) == SumOwed(rows, part) + SumOwed(rows, rest)
  {
    if part == {} {
      assert part + rest == rest;
    } else {
      var l :| l in part;
      SumWithout(rows, part, l);
      SumWithout(rows, part + rest, l);
      SumSplits(rows, part - {l}, rest);
      assert part + rest - {l} == (part - {l}) + rest;
    }
  }

  lemma {:induction false} OwedIsNotNegative(rows: seq<Row>, loan: Loan)
    ensures Owed(rows, loan) >= 0
    ensures Owed(rows, loan) != 0 <==> loan in Loans(rows)
  {
    if rows != [] {
      OwedIsNotNegative(rows[..|rows| - 1], loan);
      LoansOneMore(rows);
    }
  }

  lemma LoansOneMore(rows: seq<Row>)
    requires rows != []
    ensures var last := rows[|rows| - 1];
            Loans(rows) == Loans(rows[..|rows| - 1]) + if Outstanding(last) != 0 then {last.loan} else {}
  {
    var before, last := rows[..|rows| - 1], rows[|rows| - 1];
    assert forall r :: r in rows <==> r in before || r == last;
  }

  lemma {:induction false} SumIsNotNegative(rows: seq<Row>, loans: set<Loan>)
    ensures SumOwed(rows, loans) >= 0
  {
    if loans != {} {
      var l :| l in loans;
      SumWithout(rows, loans, l);
      OwedIsNotNegative(rows, l);
      SumIsNotNegative(rows, loans - {l});
    }
  }

  lemma SumIsMonotone(rows: seq<Row>, part: set<Loan>, whole: set<Loan>)
    requires part <= whole
    ensures 0 <= SumOwed(rows, part) <= SumOwed(rows, whole)
  {
    assert part + (whole - part) == whole;
    SumSplits(rows, part, whole - part);
    SumIsNotNegative(rows, part);
    SumIsNotNegative(rows, whole - part);
  }

  // ----- the one-pass calculation -----

  method Calculate(rows: seq<Row>, asOf: int, thresholds: seq<int>, grace: int) returns (m: Metrics)
    ensures Reports(m, rows, asOf, thresholds, grace)
  {
    var balances, delays, overdue := Accumulate(rows, asOf, grace);
    var portfolio := SumValues(rows, balances, balances.Keys);
    var par := ParTable(rows, asOf, thresholds, balances, delays, portfolio);
    var delinquent := set l | l in delays && delays[l] > grace;
    assert delinquent == LateLoans(rows, asOf, grace + 1);
    var worst := MaxValue(rows, asOf, delays);
    m := Metrics(portfolio, overdue, |delinquent|, worst, par);
  }

  /** The pass over the rows, keeping each loan's balance and worst delay. */
  method Accumulate(rows: seq<Row>, asOf: int, grace: int)
    returns (balances: map<Loan, int>, delays: map<Loan, int>, overdue: int)
    ensures balances.Keys == delays.Keys == Loans(rows)
    ensures forall l | l in balances :: balances[l] == Owed(rows, l) && delays[l] == Worst(rows, l, asOf)
    ensures overdue == OverdueOf(rows, asOf, grace)
  {
    hide Outstanding, DaysPastDue;
    balances, delays, overdue := map[], map[], 0;
    for i := 0 to |rows|
      invariant balances.Keys == delays.Keys == Loans(rows[..i])
      invariant forall l | l in balances :: balances[l] == Owed(rows[..i], l)
      invariant forall l | l in delays :: delays[l] == Worst(rows[..i], l, asOf)
      invariant overdue == OverdueOf(rows[..i], asOf, grace)
    {
      var row := rows[i];
      assert rows[..i + 1][..i] == rows[..i];
      LoansOneMore(rows[..i + 1]);
      NothingBefore(rows[..i], row.loan, asOf);
      var outstanding := Outstanding(row);
      if outstanding == 0 {
        continue;
      }
      var dpd := DaysPastDue(row, asOf);
      balances := balances[row.loan := (if row.loan in balances then balances[row.loan] else 0) + outstanding];
      delays := delays[row.loan := Max(if row.loan in delays then delays[row.loan] else 0, dpd)];
      if dpd > grace {
        overdue := overdue + outstanding;
      }
    }
    assert rows[..|rows|] == rows;
  }

  method ParTable(ghost rows: seq<Row>, ghost asOf: int, thresholds: seq<int>, balances: map<Loan, int>,
                  delays: map<Loan, int>, portfolio: int)
    returns (par: map<int, AtRisk>)
    requires balances.Keys == delays.Keys == Loans(rows)
    requires forall l | l in balances :: balances[l] == Owed(rows, l) && delays[l] == Worst(rows, l, asOf)
    ensures par.Keys == set t | t in thresholds
    ensures forall t | t in thresholds :: par[t] == AtRisk(Par(rows, asOf, t), Ratio(Par(rows, asOf, t), portfolio))
  {
    par := map[];
    for i := 0 to |thresholds|
      invariant par.Keys == set t | t in thresholds[..i]
      invariant forall t | t in thresholds[..i] ::
          par[t] == AtRisk(Par(rows, asOf, t), Ratio(Par(rows, asOf, t), portfolio))
    {
      var threshold := thresholds[i];
      assert thresholds[..i + 1] == thresholds[..i] + [threshold];
      var late := set l | l in balances && delays[l] >= threshold;
      assert late == LateLoans(rows, asOf, threshold);
      var atRisk := SumValues(rows, balances, late);
      par := par[threshold := AtRisk(atRisk, Ratio(atRisk, portfolio))];
    }
    assert thresholds[..|thresholds|] == thresholds;
  }

  /** A loan without unpaid installments so far owes nothing and has no delay. */
  lemma {:induction false} NothingBefore(rows: seq<Row>, loan: Loan, asOf: int)
    ensures loan !in Loans(rows) ==> Owed(rows, loan) == 0 && Worst(rows, loan, asOf) == 0
    ensures Worst(rows, loan, asOf) >= 0
  {
    OwedIsNotNegative(rows, loan);
    if rows != [] {
      NothingBefore(rows[..|rows| - 1], loan, asOf);
      LoansOneMore(rows);
    }
  }

  method SumValues(ghost rows: seq<Row>, balances: map<Loan, int>, loans: set<Loan>) returns (sum: int)
    requires loans <= balances.Keys && forall l | l in loans :: balances[l] == Owed(rows, l)
    ensures sum == SumOwed(rows, loans)
  {
    sum := 0;
    var remaining := loans;
    while remaining != {}
      invariant remaining <= loans && sum + SumOwed(rows, remaining) == SumOwed(rows, loans)
      decreases remaining
    {
      var l :| l in remaining;
      SumWithout(rows, remaining, l);
      sum := sum + balances[l];
      remaining := remaining - {l};
    }
  }

  method MaxValue(ghost rows: seq<Row>, asOf: int, delays: map<Loan, int>) returns (m: int)
    requires delays.Keys == Loans(rows) && forall l | l in delays :: delays[l] == Worst(rows, l, asOf)
    ensures IsMaxDelay(rows, asOf, m)
  {
    if delays.Keys == {} {
      return 0;
    }
    var first :| first in delays.Keys;
    m := delays[first];
    var remaining := delays.Keys - {first};
    while remaining != {}
      invariant remaining <= delays.Keys
      invariant forall l | l in delays && l !in remaining :: delays[l] <= m
      invariant exists l | l in delays :: delays[l] == m
      decreases remaining
    {
      var l :| l in remaining;
      m := Max(m, delays[l]);
      remaining := remaining - {l};
    }
  }

  // ----- conservation and ordering -----

  lemma {:induction false} SumOneMore(rows: seq<Row>, loans: set<Loan>)
    requires rows != []
    ensures var last := rows[|rows| - 1];
            SumOwed(rows, loans) ==
              SumOwed(rows[..|rows| - 1], loans) + if last.loan in loans then Outstanding(last) else 0
  {
    if loans != {} {
      var l := if rows[|rows| - 1].loan in loans then rows[|rows| - 1].loan else var l :| l in loans; l;
      SumWithout(rows, loans, l);
      SumWithout(rows[..|rows| - 1], loans, l);
      SumOneMore(rows, loans - {l});
    }
  }

  lemma {:induction false} SumCoversAll(rows: seq<Row>, loans: set<Loan>)
    requires Loans(rows) <= loans
    ensures SumOwed(rows, loans) == TotalOwed(rows)
  {
    if rows == [] {
      SumOfNothing(loans);
    } else {
      LoansOneMore(rows);
      SumOneMore(rows, loans);
      SumCoversAll(rows[..|rows| - 1], loans);
    }
  }

  lemma {:induction false} SumOfNothing(loans: set<Loan>)
    ensures SumOwed([], loans) == 0
  {
    if loans != {} {
      var l :| l in loans;
      SumWithout([], loans, l);
      SumOfNothing(loans - {l});
    }
  }

  /** Grouping loses nothing: the portfolio is the sum of all clamped outstanding amounts. */
  lemma PortfolioIsConserved(m: Metrics, rows: seq<Row>, asOf: int, thresholds: seq<int>, grace: int)
    requires Reports(m, rows, asOf, thresholds, grace)
    ensures m.portfolio == TotalOwed(rows)
  {
    SumCoversAll(rows, Loans(rows));
  }

  lemma {:induction false} OverdueWithinLoans(rows: seq<Row>, asOf: int, grace: int, loans: set<Loan>)
    requires forall r | r in rows && Outstanding(r) != 0 && DaysPastDue(r, asOf) > grace :: r.loan in loans
    ensures 0 <= OverdueOf(rows, asOf, grace) <= SumOwed(rows, loans)
  {
    if rows == [] {
      SumOfNothing(loans);
    } else {
      assert forall r | r in rows[..|rows| - 1] :: r in rows;
      OverdueWithinLoans(rows[..|rows| - 1], asOf, grace, loans);
      SumOneMore(rows, loans);
      assert rows[|rows| - 1] in rows;
    }
  }

  /** Worst is the greatest delay among the loan's unpaid installments. */
  lemma {:induction false} WorstIsGreatest(rows: seq<Row>, loan: Loan, asOf: int)
    ensures forall r | r in rows && r.loan == loan && Outstanding(r) != 0 ::
              DaysPastDue(r, asOf) <= Worst(rows, loan, asOf)
    ensures if loan in Loans(rows)
            then exists r | r in rows && r.loan == loan && Outstanding(r) != 0 ::
                   DaysPastDue(r, asOf) == Worst(rows, loan, asOf)
            else Worst(rows, loan, asOf) == 0
  {
    NothingBefore(rows, loan, asOf);
    if rows != [] {
      var before, last := rows[..|rows| - 1], rows[|rows| - 1];
      WorstIsGreatest(before, loan, asOf);
      LoansOneMore(rows);
      assert forall r :: r in rows <==> r in before || r == last;
    }
  }

  /** The balance at risk never rises with the threshold, lies between the overdue amount (up to one day
      past the grace period) and the portfolio, and is the whole portfolio at thresholds up to zero. */
  lemma ParIsOrdered(rows: seq<Row>, asOf: int, grace: int, low: int, high: int)
    requires low <= high
    ensures 0 <= Par(rows, asOf, high) <= Par(rows, asOf, low) <= TotalOwed(rows)
    ensures low <= grace + 1 ==> OverdueOf(rows, asOf, grace) <= Par(rows, asOf, low)
    ensures low <= 0 ==> Par(rows, asOf, low) == TotalOwed(rows)
  {
    var strict, loose := LateLoans(rows, asOf, high), LateLoans(rows, asOf, low);
    SumIsMonotone(rows, strict, loose);
    SumIsMonotone(rows, loose, Loans(rows));
    SumCoversAll(rows, Loans(rows));
    if low <= grace + 1 {
      forall r | r in rows && Outstanding(r) != 0 && DaysPastDue(r, asOf) > grace ensures r.loan in loose {
        WorstIsGreatest(rows, r.loan, asOf);
      }
      OverdueWithinLoans(rows, asOf, grace, loose);
    }
    if low <= 0 {
      forall l | l in Loans(rows) ensures l in loose {
        NothingBefore(rows, l, asOf);
      }
      assert loose == Loans(rows);
    }
  }

  lemma RatioIsOrdered(a: int, b: int, whole: int)
    requires 0 <= a <= b <= whole
    ensures 0.0 <= Ratio(a, whole) <= Ratio(b, whole) <= 1.0
  {
    hide RoundTo;
    if whole > 0 {
      var x, y := a as real / whole as real, b as real / whole as real;
      QuotientIsMonotone(0.0, a as real, whole as real);
      QuotientIsMonotone(a as real, b as real, whole as real);
      QuotientIsMonotone(b as real, whole as real, whole as real);
      RoundToFixesIntegers(0, FOUR_DECIMALS);
      RoundToFixesIntegers(1, FOUR_DECIMALS);
      RoundToIsMonotone(0.0, x, FOUR_DECIMALS);
      RoundToIsMonotone(x, y, FOUR_DECIMALS);
      RoundToIsMonotone(y, 1.0, FOUR_DECIMALS);
    }
  }

  /** The same laws on a report: ratios stay between 0 and 1 and never rise with the threshold. */
  lemma ReportIsOrdered(m: Metrics, rows: seq<Row>, asOf: int, thresholds: seq<int>, grace: int, low: int, high: int)
    requires Reports(m, rows, asOf, thresholds, grace)
    requires low in thresholds && high in thresholds && low <= high
    ensures 0 <= m.par[high].balance <= m.par[low].balance <= m.portfolio
    ensures 0.0 <= m.par[high].ratio <= m.par[low].ratio <= 1.0
    ensures low <= grace + 1 ==> m.overdue <= m.par[low].balance
    ensures m.delinquentLoans == 0 ==> m.overdue == 0
  {
    PortfolioIsConserved(m, rows, asOf, thresholds, grace);
    ParIsOrdered(rows, asOf, grace, low, high);
    RatioIsOrdered(m.par[high].balance, m.par[low].balance, m.portfolio);
    if m.delinquentLoans == 0 {
      ParIsOrdered(rows, asOf, grace, grace + 1, grace + 1);
      assert LateLoans(rows, asOf, grace + 1) == {};
      OverdueWithinNothing(rows, asOf, grace);
    }
  }

  lemma OverdueWithinNothing(rows: seq<Row>, asOf: int, grace: int)
    requires LateLoans(rows, asOf, grace + 1) == {}
    ensures OverdueOf(rows, asOf, grace) == 0
  {
    forall r | r in rows && Outstanding(r) != 0 && DaysPastDue(r, asOf) > grace
      ensures r.loan in LateLoans(rows, asOf, grace + 1)
    {
      WorstIsGreatest(rows, r.loan, asOf);
    }
    OverdueWithinLoans(rows, asOf, grace, {});
  }

  // ----- against the columns of the schedule -----

  function TotalDue(rows: seq<Row>): int {
    if rows == [] then 0
    else var last := rows[|rows| - 1]; TotalDue(rows[..|rows| - 1]) + last.principalDue + last.interestDue
  }

  function TotalPaid(rows: seq<Row>): int {
    if rows == [] then 0
    else var last := rows[|rows| - 1]; TotalPaid(rows[..|rows| - 1]) + last.principalPaid + last.interestPaid
  }

  /** What was paid beyond what an installment asked for. */
  function TotalOverpaid(rows: seq<Row>): int {
    if rows == [] then 0
    else
      var last := rows[|rows| - 1];
      TotalOverpaid(rows[..|rows| - 1])
      + Max(0, last.principalPaid + last.interestPaid - last.principalDue - last.interestDue)
  }

  lemma {:induction false} MoneyIsConserved(rows: seq<Row>)
    ensures TotalOwed(rows) + TotalPaid(rows) == TotalDue(rows) + TotalOverpaid(rows)
  {
    if rows != [] {
      MoneyIsConserved(rows[..|rows| - 1]);
    }
  }

  /** An installment owes nothing exactly when it is paid in principal and interest together; payment beyond
      that counts for no other one. */
  lemma PaidOwesNothing(r: Row)
    ensures Outstanding(r) >= 0
    ensures Outstanding(r) == 0 <==> r.principalPaid + r.interestPaid >= r.principalDue + r.interestDue
  {
  }

  /** The reported portfolio and the payments, less what was overpaid, are what the schedule asks for. */
  lemma PortfolioMatchesSchedule(m: Metrics, rows: seq<Row>, asOf: int, thresholds: seq<int>, grace: int)
    requires Reports(m, rows, asOf, thresholds, grace)
    ensures m.portfolio + TotalPaid(rows) == TotalDue(rows) + TotalOverpaid(rows)
    ensures (forall r | r in rows :: r.principalPaid + r.interestPaid <= r.principalDue + r.interestDue) ==>
              m.portfolio == TotalDue(rows) - TotalPaid(rows)
  {
    PortfolioIsConserved(m, rows, asOf, thresholds, grace);
    MoneyIsConserved(rows);
    if forall r | r in rows :: r.principalPaid + r.interestPaid <= r.principalDue + r.interestDue {
      NothingOverpaid(rows);
    }
  }

  lemma {:induction false} NothingOverpaid(rows: seq<Row>)
    requires forall r | r in rows :: r.principalPaid + r.interestPaid <= r.principalDue + r.interestDue
    ensures TotalOverpaid(rows) == 0
  {
    if rows != [] {
      assert rows[|rows| - 1] in rows && forall r | r in rows[..|rows| - 1] :: r in rows;
      NothingOverpaid(rows[..|rows| - 1]);
    }
  }

  predicate Unpaid(r: Row) {
    r.principalPaid + r.interestPaid < r.principalDue + r.interestDue
  }

  /** A loan's delay in days: not less than the age of any unpaid installment, and the age of one of them, or
      nothing if none is due. Loans without unpaid installments do not count. */
  lemma DelayIsInDays(rows: seq<Row>, loan: Loan, asOf: int)
    ensures loan in Loans(rows) <==> exists r | r in rows :: r.loan == loan && Unpaid(r)
    ensures forall r | r in rows && r.loan == loan && Unpaid(r) :: asOf - r.dueDate <= Worst(rows, loan, asOf)
    ensures Worst(rows, loan, asOf) == 0
            || exists r | r in rows && r.loan == loan && Unpaid(r) :: asOf - r.dueDate == Worst(rows, loan, asOf)
  {
    forall r: Row ensures Outstanding(r) != 0 <==> Unpaid(r) {
      PaidOwesNothing(r);
    }
    WorstIsGreatest(rows, loan, asOf);
  }

  /** What is overdue: the unpaid amounts of the installments more than the grace period old. */
  lemma {:induction false} OverdueIsInDays(rows: seq<Row>, asOf: int, grace: nat)
    ensures OverdueOf(rows, asOf, grace) >= 0
    ensures OverdueOf(rows, asOf, grace) == 0 <==> forall r | r in rows && Unpaid(r) :: asOf - r.dueDate <= grace
  {
    if rows != [] {
      var before, last := rows[..|rows| - 1], rows[|rows| - 1];
      OverdueIsInDays(before, asOf, grace);
      PaidOwesNothing(last);
      assert forall r :: r in rows <==> r in before || r == last;
    }
  }

  function OfLoans(loans: set<Loan>): Row -> bool {
    (r: Row) => r.loan in loans
  }

  function OlderThan(asOf: int, grace: nat): Row -> bool {
    (r: Row) => asOf - r.dueDate > grace
  }

  /** The rows of these loans. */
  function RowsOf(rows: seq<Row>, loans: set<Loan>): seq<Row> {
    Filter(OfLoans(loans), rows)
  }

  /** The rows more than the grace period old. */
  function RowsOlderThan(rows: seq<Row>, asOf: int, grace: nat): seq<Row> {
    Filter(OlderThan(asOf, grace), rows)
  }

  lemma TotalOneMore(rows: seq<Row>, r: Row)
    ensures TotalOwed(rows + [r]) == TotalOwed(rows) + Outstanding(r)
  {
    assert (rows + [r])[..|rows|] == rows;
  }

  lemma {:induction false} SumIsTotalOfRows(rows: seq<Row>, loans: set<Loan>)
    ensures SumOwed(rows, loans) == TotalOwed(RowsOf(rows, loans))
  {
    if rows == [] {
      SumOfNothing(loans);
    } else {
      var before, last := rows[..|rows| - 1], rows[|rows| - 1];
      SumIsTotalOfRows(before, loans);
      SumOneMore(rows, loans);
      TotalOneMore(RowsOf(before, loans), last);
      FilterAppend(OfLoans(loans), before, last);
      assert rows == before + [last] && RowsOf(before, loans) + [] == RowsOf(before, loans);
    }
  }

  lemma {:induction false} OverdueIsTotalOfRows(rows: seq<Row>, asOf: int, grace: nat)
    ensures OverdueOf(rows, asOf, grace) == TotalOwed(RowsOlderThan(rows, asOf, grace))
  {
    if rows != [] {
      var before, last := rows[..|rows| - 1], rows[|rows| - 1];
      OverdueIsTotalOfRows(before, asOf, grace);
      TotalOneMore(RowsOlderThan(before, asOf, grace), last);
      FilterAppend(OlderThan(asOf, grace), before, last);
      assert rows == before + [last];
      assert RowsOlderThan(before, asOf, grace) + [] == RowsOlderThan(before, asOf, grace);
    }
  }

  /** The loans with an unpaid installment at least this many days old. */
  ghost predicate AreLate(loans: set<Loan>, rows: seq<Row>, asOf: int, days: int) {
    forall l :: l in loans <==> exists r | r in rows :: r.loan == l && Unpaid(r) && asOf - r.dueDate >= days
  }

  /** The overdue amount is what the schedule asks for, and was not paid, on installments more than the grace
      period old. The balance at risk is that of all installments of the loans that have an unpaid one at
      least as old as the threshold. */
  lemma RiskMatchesSchedule(m: Metrics, rows: seq<Row>, asOf: int, thresholds: seq<int>, grace: nat, days: nat,
                            late: set<Loan>)
    requires Reports(m, rows, asOf, thresholds, grace)
    ensures var aged := RowsOlderThan(rows, asOf, grace);
            m.overdue + TotalPaid(aged) == TotalDue(aged) + TotalOverpaid(aged)
    ensures days in thresholds && days > 0 && AreLate(late, rows, asOf, days) ==>
              var theirs := RowsOf(rows, late);
              m.par[days].balance + TotalPaid(theirs) == TotalDue(theirs) + TotalOverpaid(theirs)
  {
    OverdueIsTotalOfRows(rows, asOf, grace);
    MoneyIsConserved(RowsOlderThan(rows, asOf, grace));
    if days in thresholds && days > 0 && AreLate(late, rows, asOf, days) {
      forall l ensures l in late <==> l in LateLoans(rows, asOf, days) {
        DelayIsInDays(rows, l, asOf);
      }
      assert late == LateLoans(rows, asOf, days);
      SumIsTotalOfRows(rows, late);
      MoneyIsConserved(RowsOf(rows, late));
    }
  }

  /** The loan counts as delinquent. */
  predicate IsDelinquent(rows: seq<Row>, asOf: int, grace: int, l: Loan) {
    l in LateLoans(rows, asOf, grace + 1)
  }

  /** A loan is delinquent exactly when an unpaid installment of it is more than the grace period old; so there
      is one exactly when something is overdue. */
  lemma DelinquencyIsInDays(m: Metrics, rows: seq<Row>, asOf: int, thresholds: seq<int>, grace: nat)
    requires Reports(m, rows, asOf, thresholds, grace)
    ensures forall l :: IsDelinquent(rows, asOf, grace, l) <==>
              exists r | r in rows :: r.loan == l && Unpaid(r) && asOf - r.dueDate > grace
    ensures m.delinquentLoans == 0 <==> m.overdue == 0
  {
    forall l
      ensures IsDelinquent(rows, asOf, grace, l) <==>
                exists r | r in rows :: r.loan == l && Unpaid(r) && asOf - r.dueDate > grace
    {
      DelayIsInDays(rows, l, asOf);
    }
    OverdueIsInDays(rows, asOf, grace);
    if m.delinquentLoans == 0 {
      forall r | r in rows && Unpaid(r) ensures asOf - r.dueDate <= grace {
        assert !IsDelinquent(rows, asOf, grace, r.loan);
      }
    } else {
      var l :| l in LateLoans(rows, asOf, grace + 1);
      assert IsDelinquent(rows, asOf, grace, l);
    }
  }

  /** A reported ratio is within half of its last decimal of the exact share of the portfolio. */
  lemma RatioIsNear(part: int, whole: int)
    requires whole > 0
    ensures -0.5 <= Ratio(part, whole) * 10000.0 - part as real / whole as real * 10000.0 <= 0.5
  {
    RoundToIsNear(part as real / whole as real, FOUR_DECIMALS);
  }

  /** No part of the portfolio is a ratio of 0, also of an empty portfolio; all of it is a ratio of 1. */
  lemma RatioEnds(whole: int)
    ensures Ratio(0, whole) == 0.0
    ensures whole > 0 ==> Ratio(whole, whole) == 1.0
  {
    RoundToFixesIntegers(0, FOUR_DECIMALS);
    RoundToFixesIntegers(1, FOUR_DECIMALS);
    hide RoundTo;
    if whole > 0 {
      Cancel(1.0, whole as real);
    }
  }

  /** The longest delay: not less than the age of any unpaid installment, and the age of one of them, or nothing
      if none is due. */
  lemma LongestDelayIsInDays(m: Metrics, rows: seq<Row>, asOf: int, thresholds: seq<int>, grace: int)
    requires Reports(m, rows, asOf, thresholds, grace)
    ensures forall r | r in rows && Unpaid(r) :: asOf - r.dueDate <= m.maxDaysPastDue
    ensures m.maxDaysPastDue == 0 || exists r | r in rows && Unpaid(r) :: asOf - r.dueDate == m.maxDaysPastDue
  {
    forall r | r in rows && Unpaid(r) ensures asOf - r.dueDate <= m.maxDaysPastDue {
      DelayIsInDays(rows, r.loan, asOf);
      assert Worst(rows, r.loan, asOf) <= m.maxDaysPastDue;
    }
    if Loans(rows) != {} {
      var l :| l in Loans(rows) && Worst(rows, l, asOf) == m.maxDaysPastDue;
      DelayIsInDays(rows, l, asOf);
    }
  }

  // ----- row order -----

  /** Taking out one row lowers every sum by that row's share, wherever it stands. */
  lemma {:induction false} SumsRemove(rows: seq<Row>, i: nat, loan: Loan, asOf: int, grace: int)
    requires i < |rows|
    ensures var rest, r := rows[..i] + rows[i + 1..], rows[i];
            && Owed(rows, loan) == Owed(rest, loan) + (if r.loan == loan then Outstanding(r) else 0)
            && OverdueOf(rows, asOf, grace) ==
                 OverdueOf(rest, asOf, grace) + (if DaysPastDue(r, asOf) > grace then Outstanding(r) else 0)
  {
    hide Owed, OverdueOf, Outstanding, DaysPastDue;
    var before, last := rows[..|rows| - 1], rows[|rows| - 1];
    assert rows == before + [last];
    SumsOneMore(before, last, loan, asOf, grace);
    if i < |before| {
      SumsRemove(before, i, loan, asOf, grace);
      SumsOneMore(before[..i] + before[i + 1..], last, loan, asOf, grace);
      assert rows[..i] + rows[i + 1..] == before[..i] + before[i + 1..] + [last];
    } else {
      assert rows[..i] + rows[i + 1..] == before;
    }
  }

  lemma SumsOneMore(before: seq<Row>, r: Row, loan: Loan, asOf: int, grace: int)
    ensures Owed(before + [r], loan) == Owed(before, loan) + (if r.loan == loan then Outstanding(r) else 0)
    ensures OverdueOf(before + [r], asOf, grace) ==
              OverdueOf(before, asOf, grace) + (if DaysPastDue(r, asOf) > grace then Outstanding(r) else 0)
  {
    hide Outstanding, DaysPastDue;
    assert (before + [r])[..|before|] == before;
  }

  lemma {:induction false} SumsPermute(a: seq<Row>, b: seq<Row>, loan: Loan, asOf: int, grace: int)
    requires multiset(a) == multiset(b)
    ensures Owed(a, loan) == Owed(b, loan)
    ensures OverdueOf(a, asOf, grace) == OverdueOf(b, asOf, grace)
  {
    hide Outstanding, DaysPastDue;
    PermutationKeepsLength(a, b);
    if a != [] {
      hide Owed, OverdueOf;
      var i := MatchLast(a, b);
      SumsPermute(a[..|a| - 1], b[..i] + b[i + 1..], loan, asOf, grace);
      SumsRemove(b, i, loan, asOf, grace);
      SumsOneMore(a[..|a| - 1], a[|a| - 1], loan, asOf, grace);
      assert a == a[..|a| - 1] + [a[|a| - 1]];
    }
  }

  lemma WorstPermutes(a: seq<Row>, b: seq<Row>, loan: Loan, asOf: int)
    requires forall r :: r in a <==> r in b
    ensures Loans(a) == Loans(b) && Worst(a, loan, asOf) == Worst(b, loan, asOf)
  {
    assert forall l :: l in Loans(a) <==> l in Loans(b);
    WorstIsGreatest(a, loan, asOf);
    WorstIsGreatest(b, loan, asOf);
  }

  lemma {:induction false} SameSums(a: seq<Row>, b: seq<Row>, loans: set<Loan>)
    requires forall l :: Owed(a, l) == Owed(b, l)
    ensures SumOwed(a, loans) == SumOwed(b, loans)
  {
    if loans != {} {
      var l :| l in loans;
      SumWithout(a, loans, l);
      SumWithout(b, loans, l);
      SameSums(a, b, loans - {l});
    }
  }

  /** Any order of the rows gives the same report. */
  lemma RowOrderIsIrrelevant(m: Metrics, a: seq<Row>, b: seq<Row>, asOf: int, thresholds: seq<int>, grace: int)
    requires multiset(a) == multiset(b) && Reports(m, a, asOf, thresholds, grace)
    ensures Reports(m, b, asOf, thresholds, grace)
  {
    PermutationKeepsMembers(a, b);
    forall l ensures Owed(a, l) == Owed(b, l) && Loans(a) == Loans(b) && Worst(a, l, asOf) == Worst(b, l, asOf) {
      SumsPermute(a, b, l, asOf, grace);
      WorstPermutes(a, b, l, asOf);
    }
    SumsPermute(a, b, 0, asOf, grace);
    WorstPermutes(a, b, 0, asOf);
    SameSums(a, b, Loans(a));
    forall t ensures LateLoans(a, asOf, t) == LateLoans(b, asOf, t) && Par(a, asOf, t) == Par(b, asOf, t) {
      assert forall l :: l in LateLoans(a, asOf, t) <==> l in LateLoans(b, asOf, t);
      SameSums(a, b, LateLoans(a, asOf, t));
    }
  }

  /** Two reports of the same rows are equal: the specification leaves nothing open. */
  lemma ReportIsUnique(m: Metrics, n: Metrics, rows: seq<Row>, asOf: int, thresholds: seq<int>, grace: int)
    requires Reports(m, rows, asOf, thresholds, grace) && Reports(n, rows, asOf, thresholds, grace)
    ensures m == n
  {
    forall t | t in m.par ensures t in n.par && m.par[t] == n.par[t] {
      assert t in thresholds;
    }
  }
}
