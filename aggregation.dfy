// The aggregation engine of the transaction service: the per-type sum over a
// list of rows, the one-day breakdown of a month (grouped in memory), the
// one-month breakdown of a year (one repository query per month), and the
// period summaries those breakdowns are attached to.
module Aggregation {
  import opened Results
  import opened Calendar
  import opened Entities
  import opened Formats
  import opened Repository

  /** BigDecimalUtils.calculateBalance: income minus expense. */
  function Balance(income: int, expense: int): int {
    income - expense
  }

  // ---- calculateAmountByType ----

  /** The sum of the amounts of the rows of one type; zero when there are none. */
  function AmountByType(txs: seq<Transaction>, k: TransactionType): int {
    if txs == [] then 0
    else (if txs[0].kind == k then txs[0].amount else 0) + AmountByType(txs[1..], k)
  }

  lemma {:induction false} AmountByTypeAppend(a: seq<Transaction>, b: seq<Transaction>, k: TransactionType)
    ensures AmountByType(a + b, k) == AmountByType(a, k) + AmountByType(b, k)
  {
    if a == [] {
      assert a + b == b;
    } else {
      assert (a + b)[1..] == a[1..] + b;
      AmountByTypeAppend(a[1..], b, k);
    }
  }

  /** The in-memory sum does not depend on the order of the rows. */
  lemma {:induction false} AmountByTypePermutation(a: seq<Transaction>, b: seq<Transaction>, k: TransactionType)
    requires multiset(a) == multiset(b)
    ensures AmountByType(a, k) == AmountByType(b, k)
  {
    if a == [] {
      assert |b| == |multiset(b)| == 0;
    } else {
      var x := a[0];
      assert x in multiset(b);
      var i :| 0 <= i < |b| && b[i] == x;
      var rest := b[..i] + b[i + 1..];
      assert b == b[..i] + [x] + b[i + 1..];
      assert a == [x] + a[1..];
      RemoveMatching(a, b, i);
      AmountByTypePermutation(a[1..], rest, k);
      AmountByTypeAppend(b[..i] + [x], b[i + 1..], k);
      AmountByTypeAppend(b[..i], [x], k);
      AmountByTypeAppend(b[..i], b[i + 1..], k);
      assert [x][1..] == [];
    }
  }

  lemma AmountByTypeCons(t: Transaction, txs: seq<Transaction>, k: TransactionType)
    ensures AmountByType([t] + txs, k) == (if t.kind == k then t.amount else 0) + AmountByType(txs, k)
  {
    assert ([t] + txs)[1..] == txs;
  }

  /** Taking the same element out of two lists with the same elements leaves
      lists with the same elements. */
  lemma RemoveMatching(a: seq<Transaction>, b: seq<Transaction>, i: nat)
    requires a != [] && i < |b| && b[i] == a[0] && multiset(a) == multiset(b)
    ensures multiset(a[1..]) == multiset(b[..i] + b[i + 1..])
  {
    var x := a[0];
    var restA, restB := multiset(a[1..]), multiset(b[..i] + b[i + 1..]);
    assert a == [x] + a[1..];
    assert b == b[..i] + [x] + b[i + 1..];
    assert multiset(a) == restA + multiset{x};
    assert multiset(b) == restB + multiset{x};
    assert restA == multiset(a) - multiset{x};
    assert restB == multiset(b) - multiset{x};
  }

  /** Summing one type in memory over the rows a clause selects gives what the
      repository's COALESCE(SUM) returns for that clause restricted to the type. */
  lemma {:induction false} AmountByTypeIsSum(rows: seq<Transaction>, c: Criteria, k: TransactionType)
    requires c.kind.None?
    ensures AmountByType(Select(rows, c), k) == SumWhere(rows, c.(kind := Some(k)))
  {
    AmountByTypeIsTotal(rows, c, k);
    SumWhereIsTotal(rows, c.(kind := Some(k)));
  }

  lemma {:induction false} AmountByTypeIsTotal(rows: seq<Transaction>, c: Criteria, k: TransactionType)
    requires c.kind.None?
    ensures AmountByType(Select(rows, c), k) == Total(Select(rows, c.(kind := Some(k))))
  {
    if rows != [] {
      AmountByTypeIsTotal(rows[1..], c, k);
      var x := rows[0];
      var ck := c.(kind := Some(k));
      var s, sk := Select(rows[1..], c), Select(rows[1..], ck);
      if Matches(x, c) {
        assert Select(rows, c) == [x] + s;
        assert ([x] + s)[1..] == s;
        if x.kind == k {
          assert Select(rows, ck) == [x] + sk;
          assert ([x] + sk)[1..] == sk;
        } else {
          assert Select(rows, ck) == sk;
        }
      } else {
        assert Select(rows, c) == s;
        assert Select(rows, ck) == sk;
      }
    }
  }

  // ---- groupingBy(transactionDate) ----

  /** The rows of one day, in list order. */
  function OnDate(txs: seq<Transaction>, d: Date): (r: seq<Transaction>)
    ensures forall t :: t in r <==> t in txs && t.transactionDate == d
  {
    if txs == [] then []
    else (if txs[0].transactionDate == d then [txs[0]] else []) + OnDate(txs[1..], d)
  }

  lemma {:induction false} OnDateAppend(a: seq<Transaction>, b: seq<Transaction>, d: Date)
    ensures OnDate(a + b, d) == OnDate(a, d) + OnDate(b, d)
  {
    if a == [] {
      assert a + b == b;
    } else {
      assert (a + b)[1..] == a[1..] + b;
      OnDateAppend(a[1..], b, d);
    }
  }

  lemma {:induction false} OnDatePermutation(a: seq<Transaction>, b: seq<Transaction>, d: Date)
    requires multiset(a) == multiset(b)
    ensures multiset(OnDate(a, d)) == multiset(OnDate(b, d))
  {
    if a == [] {
      assert |b| == |multiset(b)| == 0;
    } else {
      var x := a[0];
      assert x in multiset(b);
      var i :| 0 <= i < |b| && b[i] == x;
      var rest := b[..i] + b[i + 1..];
      assert b == b[..i] + [x] + b[i + 1..];
      assert a == [x] + a[1..];
      RemoveMatching(a, b, i);
      OnDatePermutation(a[1..], rest, d);
      OnDateAppend([x], a[1..], d);
      OnDateAppend(b[..i] + [x], b[i + 1..], d);
      OnDateAppend(b[..i], [x], d);
      OnDateAppend(b[..i], b[i + 1..], d);
    }
  }

  /** Taking one day of the rows a BETWEEN clause selects is the same as
      selecting that day alone, as long as the day lies in the range. */
  lemma {:induction false} OnDateSelect(rows: seq<Transaction>, c: Criteria, d: LocalDate)
    requires c.between.Some? && InRange(d, c.between.value.start, c.between.value.end)
    ensures OnDate(Select(rows, c), d) == Select(rows, c.(between := Some(DateRange(d, d))))
  {
    if rows != [] {
      OnDateSelect(rows[1..], c, d);
      var x := rows[0];
      var cd := c.(between := Some(DateRange(d, d)));
      assert InRange(x.transactionDate, d, d) <==> x.transactionDate == d;
      var s := Select(rows[1..], c);
      if Matches(x, c) {
        assert Select(rows, c) == [x] + s;
        assert ([x] + s)[1..] == s;
      } else {
        assert Select(rows, c) == s;
      }
    }
  }

  /** The rows of one date, as groupingBy collects them. */
  datatype DayGroup = DayGroup(date: LocalDate, rows: seq<Transaction>)

  /** Strictly newest date first, so no date has two groups. */
  predicate DatesDescending(gs: seq<DayGroup>) {
    forall i, j :: 0 <= i < j < |gs| ==> Before(gs[j].date, gs[i].date)
  }

  /** The rows grouped under a date ([] when the date has no group). */
  function RowsOn(gs: seq<DayGroup>, d: Date): seq<Transaction> {
    if gs == [] then [] else if gs[0].date == d then gs[0].rows else RowsOn(gs[1..], d)
  }

  /** The number of rows over all groups. */
  function GroupCount(gs: seq<DayGroup>): nat {
    if gs == [] then 0 else |gs[0].rows| + GroupCount(gs[1..])
  }

  /** The per-type sum over all groups. */
  function GroupAmount(gs: seq<DayGroup>, k: TransactionType): int {
    if gs == [] then 0 else AmountByType(gs[0].rows, k) + GroupAmount(gs[1..], k)
  }

  /** Puts one row into the group of its date (in front of the rows already
      there), opening a new group in date order when the date has none. */
  function AddToGroup(t: Transaction, gs: seq<DayGroup>): (r: seq<DayGroup>)
    requires DatesDescending(gs)
    ensures DatesDescending(r)
    ensures r != [] && (r[0].date == t.transactionDate || (gs != [] && r[0].date == gs[0].date))
  {
    if gs == [] then [DayGroup(t.transactionDate, [t])]
    else if gs[0].date == t.transactionDate then [gs[0].(rows := [t] + gs[0].rows)] + gs[1..]
    else if Before(gs[0].date, t.transactionDate) then [DayGroup(t.transactionDate, [t])] + gs
    else [gs[0]] + AddToGroup(t, gs[1..])
  }

  /** groupingBy(getTransactionDate) followed by the sort of the entries by
      descending date: the groups of a list, each holding its rows in list order. */
  function GroupByDate(txs: seq<Transaction>): (gs: seq<DayGroup>)
    ensures DatesDescending(gs)
  {
    if txs == [] then [] else AddToGroup(txs[0], GroupByDate(txs[1..]))
  }

  lemma {:induction false} RowsOnMissing(gs: seq<DayGroup>, d: Date)
    requires forall i :: 0 <= i < |gs| ==> gs[i].date != d
    ensures RowsOn(gs, d) == []
  {
    if gs != [] {
      RowsOnMissing(gs[1..], d);
    }
  }

  lemma {:induction false} RowsOnGroup(gs: seq<DayGroup>, i: nat)
    requires DatesDescending(gs) && i < |gs|
    ensures RowsOn(gs, gs[i].date) == gs[i].rows
  {
    if i > 0 {
      RowsOnGroup(gs[1..], i - 1);
    }
  }

  lemma {:induction false} RowsOnFound(gs: seq<DayGroup>, d: Date)
    requires RowsOn(gs, d) != []
    ensures exists i :: 0 <= i < |gs| && gs[i].date == d
  {
    if gs[0].date != d {
      RowsOnFound(gs[1..], d);
      var i :| 0 <= i < |gs[1..]| && gs[1..][i].date == d;
      assert gs[i + 1].date == d;
    }
  }

  /** Adding a row puts it in front of its date's rows and leaves every other date alone. */
  lemma {:induction false} AddToGroupRows(t: Transaction, gs: seq<DayGroup>)
    requires DatesDescending(gs)
    ensures forall d :: RowsOn(AddToGroup(t, gs), d) ==
                        (if d == t.transactionDate then [t] else []) + RowsOn(gs, d)
  {
    var r := AddToGroup(t, gs);
    if gs == [] {
    } else if gs[0].date == t.transactionDate {
      assert r[1..] == gs[1..];
    } else if Before(gs[0].date, t.transactionDate) {
      assert r[1..] == gs;
      RowsOnMissing(gs, t.transactionDate);
    } else {
      AddToGroupRows(t, gs[1..]);
      assert r[1..] == AddToGroup(t, gs[1..]);
    }
  }

  /** Adding a row adds one to the row count and its amount to its type's sum,
      and every group stays non-empty. */
  lemma {:induction false} AddToGroupTotals(t: Transaction, gs: seq<DayGroup>)
    requires DatesDescending(gs)
    ensures GroupCount(AddToGroup(t, gs)) == GroupCount(gs) + 1
    ensures forall k :: GroupAmount(AddToGroup(t, gs), k) ==
                        GroupAmount(gs, k) + (if t.kind == k then t.amount else 0)
    ensures (forall i :: 0 <= i < |gs| ==> gs[i].rows != []) ==>
      forall i :: 0 <= i < |AddToGroup(t, gs)| ==> AddToGroup(t, gs)[i].rows != []
  {
    var r := AddToGroup(t, gs);
    if gs == [] {
      assert r[1..] == [];
      forall k ensures AmountByType([t], k) == (if t.kind == k then t.amount else 0) {
        AmountByTypeCons(t, [], k);
        assert [t] + [] == [t];
      }
    } else if gs[0].date == t.transactionDate {
      assert r[1..] == gs[1..];
      forall k ensures AmountByType([t] + gs[0].rows, k) == (if t.kind == k then t.amount else 0) + AmountByType(gs[0].rows, k) {
        AmountByTypeCons(t, gs[0].rows, k);
      }
    } else if Before(gs[0].date, t.transactionDate) {
      assert r[1..] == gs;
      forall k ensures AmountByType([t], k) == (if t.kind == k then t.amount else 0) {
        AmountByTypeCons(t, [], k);
        assert [t] + [] == [t];
      }
    } else {
      AddToGroupTotals(t, gs[1..]);
      assert r[1..] == AddToGroup(t, gs[1..]);
      assert forall i :: 0 < i < |r| ==> r[i] == AddToGroup(t, gs[1..])[i - 1];
    }
  }

  /** What grouping a list by date yields: newest date first, one non-empty
      group per date that occurs, holding exactly that date's rows in list
      order; the groups together hold every row once. */
  lemma {:induction false} GroupByDateSpec(txs: seq<Transaction>)
    ensures forall d :: RowsOn(GroupByDate(txs), d) == OnDate(txs, d)
    ensures forall i :: 0 <= i < |GroupByDate(txs)| ==>
      GroupByDate(txs)[i].rows != [] && GroupByDate(txs)[i].rows == OnDate(txs, GroupByDate(txs)[i].date)
    ensures GroupCount(GroupByDate(txs)) == |txs|
    ensures forall k :: GroupAmount(GroupByDate(txs), k) == AmountByType(txs, k)
  {
    var gs := GroupByDate(txs);
    if txs != [] {
      var t := txs[0];
      var rest := GroupByDate(txs[1..]);
      GroupByDateSpec(txs[1..]);
      AddToGroupRows(t, rest);
      AddToGroupTotals(t, rest);
      assert txs == [t] + txs[1..];
      forall d ensures RowsOn(gs, d) == OnDate(txs, d) {
        OnDateAppend([t], txs[1..], d);
      }
      forall i | 0 <= i < |gs| ensures gs[i].rows == OnDate(txs, gs[i].date) {
        RowsOnGroup(gs, i);
      }
    }
  }

  // ---- period details ----

  /** A PeriodDetail: one day of a month, or one month of a year. */
  datatype PeriodDetail = PeriodDetail(
    periodLabel: string,
    startDate: LocalDate,
    endDate: LocalDate,
    income: int,
    expense: int,
    balance: int,
    transactionCount: nat)

  /** buildPeriodDetailFromTransactions: the figures of one day's rows. */
  function DayDetail(date: LocalDate, txs: seq<Transaction>): PeriodDetail {
    var income := AmountByType(txs, Income);
    var expense := AmountByType(txs, Expense);
    PeriodDetail(DateLabel(date), date, date, income, expense, Balance(income, expense), |txs|)
  }

  function DetailsOf(gs: seq<DayGroup>): (ds: seq<PeriodDetail>)
    ensures |ds| == |gs|
    ensures forall i :: 0 <= i < |gs| ==> ds[i] == DayDetail(gs[i].date, gs[i].rows)
  {
    if gs == [] then [] else [DayDetail(gs[0].date, gs[0].rows)] + DetailsOf(gs[1..])
  }

  /** buildDailyDetails: one detail per date of the range that has live rows
      of the ledger, newest first. */
  function BuildDailyDetails(rows: seq<Transaction>, ledgerId: int, start: LocalDate, end: LocalDate): seq<PeriodDetail> {
    DetailsOf(GroupByDate(FindByLedgerBetween(rows, ledgerId, start, end)))
  }

  /** The three figures every summary and detail carries. */
  datatype Figure = CountFigure | IncomeFigure | ExpenseFigure

  function FigureOf(p: PeriodDetail, f: Figure): int {
    match f
    case CountFigure => p.transactionCount
    case IncomeFigure => p.income
    case ExpenseFigure => p.expense
  }

  /** A figure added up over a list of details. */
  function FigureSum(ds: seq<PeriodDetail>, f: Figure): int {
    if ds == [] then 0 else FigureOf(ds[0], f) + FigureSum(ds[1..], f)
  }

  /** A figure as the repository computes it for a ledger and a date range. */
  function RangeFigure(rows: seq<Transaction>, ledgerId: int, f: Figure, start: LocalDate, end: LocalDate): int {
    match f
    case CountFigure => CountByLedgerBetween(rows, ledgerId, start, end)
    case IncomeFigure => SumByLedgerTypeBetween(rows, ledgerId, Income, start, end)
    case ExpenseFigure => SumByLedgerTypeBetween(rows, ledgerId, Expense, start, end)
  }

  lemma {:induction false} FigureSumAppend(a: seq<PeriodDetail>, b: seq<PeriodDetail>, f: Figure)
    ensures FigureSum(a + b, f) == FigureSum(a, f) + FigureSum(b, f)
  {
    if a == [] {
      assert a + b == b;
    } else {
      assert (a + b)[1..] == a[1..] + b;
      FigureSumAppend(a[1..], b, f);
    }
  }

  lemma {:induction false} DetailsOfSums(gs: seq<DayGroup>)
    ensures FigureSum(DetailsOf(gs), CountFigure) == GroupCount(gs)
    ensures FigureSum(DetailsOf(gs), IncomeFigure) == GroupAmount(gs, Income)
    ensures FigureSum(DetailsOf(gs), ExpenseFigure) == GroupAmount(gs, Expense)
  {
    if gs != [] {
      DetailsOfSums(gs[1..]);
      assert DetailsOf(gs)[1..] == DetailsOf(gs[1..]);
    }
  }

  /** The figures of one day of a listing equal the repository's figures for
      the one-day range. */
  lemma DayFigures(rows: seq<Transaction>, ledgerId: int, start: LocalDate, end: LocalDate,
                   txs: seq<Transaction>, d: LocalDate)
    requires multiset(txs) == multiset(Select(rows, LedgerBetween(ledgerId, start, end)))
    requires InRange(d, start, end)
    ensures AmountByType(OnDate(txs, d), Income) == SumByLedgerTypeBetween(rows, ledgerId, Income, d, d)
    ensures AmountByType(OnDate(txs, d), Expense) == SumByLedgerTypeBetween(rows, ledgerId, Expense, d, d)
    ensures |OnDate(txs, d)| == CountByLedgerBetween(rows, ledgerId, d, d)
  {
    var c := LedgerBetween(ledgerId, start, end);
    var cd := c.(between := Some(DateRange(d, d)));
    OnDatePermutation(txs, Select(rows, c), d);
    OnDateSelect(rows, c, d);
    var day := OnDate(txs, d);
    assert multiset(day) == multiset(Select(rows, cd));
    assert |day| == |multiset(day)|;
    AmountByTypePermutation(day, Select(rows, cd), Income);
    AmountByTypePermutation(day, Select(rows, cd), Expense);
    AmountByTypeIsSum(rows, cd, Income);
    AmountByTypeIsSum(rows, cd, Expense);
  }

  /** Each entry of the daily breakdown is one day of the range, labelled
      "yyyy-MM-dd", with at least one row, and with that day's income, expense
      and count as the repository computes them for the one-day range. */
  lemma DailyDetailEntry(rows: seq<Transaction>, ledgerId: int, start: LocalDate, end: LocalDate, i: nat)
    requires i < |BuildDailyDetails(rows, ledgerId, start, end)|
    ensures var p := BuildDailyDetails(rows, ledgerId, start, end)[i];
      && p.endDate == p.startDate
      && InRange(p.startDate, start, end)
      && p.periodLabel == DateLabel(p.startDate)
      && p.transactionCount > 0
      && p.transactionCount == CountByLedgerBetween(rows, ledgerId, p.startDate, p.startDate)
      && p.income == SumByLedgerTypeBetween(rows, ledgerId, Income, p.startDate, p.startDate)
      && p.expense == SumByLedgerTypeBetween(rows, ledgerId, Expense, p.startDate, p.startDate)
      && p.balance == p.income - p.expense
  {
    var c := LedgerBetween(ledgerId, start, end);
    var txs := FindByLedgerBetween(rows, ledgerId, start, end);
    var gs := GroupByDate(txs);
    ListQueryContents(rows, c);
    GroupByDateSpec(txs);
    var d := gs[i].date;
    var t := gs[i].rows[0];
    assert t in OnDate(txs, d);
    assert t in rows && Matches(t, c);
    DayFigures(rows, ledgerId, start, end, txs, d);
  }

  /** Every day of the range with a live row of the ledger has an entry in the
      daily breakdown (and, by DailyDetailEntry, days without one have none). */
  lemma DailyDetailsComplete(rows: seq<Transaction>, ledgerId: int, start: LocalDate, end: LocalDate, d: LocalDate)
    requires InRange(d, start, end) && CountByLedgerBetween(rows, ledgerId, d, d) > 0
    ensures var ds := BuildDailyDetails(rows, ledgerId, start, end);
      exists i :: 0 <= i < |ds| && ds[i].startDate == d
  {
    var c := LedgerBetween(ledgerId, start, end);
    var txs := FindByLedgerBetween(rows, ledgerId, start, end);
    var gs := GroupByDate(txs);
    ListQueryContents(rows, c);
    GroupByDateSpec(txs);
    SelectMembers(rows, LedgerBetween(ledgerId, d, d));
    var t := Select(rows, LedgerBetween(ledgerId, d, d))[0];
    assert t in Select(rows, LedgerBetween(ledgerId, d, d));
    assert t.transactionDate == d by {
      assert InRange(t.transactionDate, d, d);
    }
    assert t in rows && Matches(t, c);
    assert t in txs;
    assert t in OnDate(txs, d);
    assert RowsOn(gs, d) != [];
    RowsOnFound(gs, d);
    var i :| 0 <= i < |gs| && gs[i].date == d;
    var ds := DetailsOf(gs);
    assert ds == BuildDailyDetails(rows, ledgerId, start, end);
    assert ds[i] == DayDetail(gs[i].date, gs[i].rows);
    assert ds[i].startDate == d;
  }

  /** The daily breakdown lists its days strictly newest first, and its
      entries add up to the range's count, income and expense. */
  lemma DailyDetailsAddUp(rows: seq<Transaction>, ledgerId: int, start: LocalDate, end: LocalDate)
    ensures var ds := BuildDailyDetails(rows, ledgerId, start, end);
      forall i, j :: 0 <= i < j < |ds| ==> Before(ds[j].startDate, ds[i].startDate)
    ensures var ds := BuildDailyDetails(rows, ledgerId, start, end);
      forall f :: FigureSum(ds, f) == RangeFigure(rows, ledgerId, f, start, end)
  {
    var txs := FindByLedgerBetween(rows, ledgerId, start, end);
    var ds := DetailsOf(GroupByDate(txs));
    GroupedFigures(txs);
    ListingFigures(rows, ledgerId, start, end);
    forall f ensures FigureSum(ds, f) == RangeFigure(rows, ledgerId, f, start, end) {
      match f
      case CountFigure =>
      case IncomeFigure =>
      case ExpenseFigure =>
    }
  }

  /** Grouping a list by date and building a detail per group keeps its count and per-type sums. */
  lemma GroupedFigures(txs: seq<Transaction>)
    ensures FigureSum(DetailsOf(GroupByDate(txs)), CountFigure) == |txs|
    ensures FigureSum(DetailsOf(GroupByDate(txs)), IncomeFigure) == AmountByType(txs, Income)
    ensures FigureSum(DetailsOf(GroupByDate(txs)), ExpenseFigure) == AmountByType(txs, Expense)
  {
    GroupByDateSpec(txs);
    DetailsOfSums(GroupByDate(txs));
  }

  /** The range listing and the range's count and sum queries agree: the count
      is the length of the listing and each sum is the in-memory sum of the
      listed rows of that type. */
  lemma ListingFigures(rows: seq<Transaction>, ledgerId: int, start: LocalDate, end: LocalDate)
    ensures |FindByLedgerBetween(rows, ledgerId, start, end)| == CountByLedgerBetween(rows, ledgerId, start, end)
    ensures AmountByType(FindByLedgerBetween(rows, ledgerId, start, end), Income) ==
            SumByLedgerTypeBetween(rows, ledgerId, Income, start, end)
    ensures AmountByType(FindByLedgerBetween(rows, ledgerId, start, end), Expense) ==
            SumByLedgerTypeBetween(rows, ledgerId, Expense, start, end)
  {
    var c := LedgerBetween(ledgerId, start, end);
    var sel := Select(rows, c);
    var txs := FindByLedgerBetween(rows, ledgerId, start, end);
    ListQueryContents(rows, c);
    assert |txs| == |multiset(txs)| == |multiset(sel)| == |sel|;
    AmountByTypePermutation(txs, sel, Income);
    AmountByTypePermutation(txs, sel, Expense);
    AmountByTypeIsSum(rows, c, Income);
    AmountByTypeIsSum(rows, c, Expense);
  }

  // ---- buildMonthlyDetails ----

  /** One pass of buildMonthlyDetails' loop: the month's income and expense
      sums (null read as zero) and its count, from the repository's range
      queries over YearMonth.atDay(1) .. YearMonth.atEndOfMonth(), built into
      a detail labelled "yyyy-MM". */
  function MonthDetail(rows: seq<Transaction>, ledgerId: int, year: int, month: int): PeriodDetail
    requires IsValidYearMonth(year, month)
  {
    var start := FirstDayOfMonth(year, month);
    var end := LastDayOfMonth(year, month);
    var income := SumByLedgerTypeBetween(rows, ledgerId, Income, start, end);
    var expense := SumByLedgerTypeBetween(rows, ledgerId, Expense, start, end);
    PeriodDetail(YearMonthLabel(year, month), start, end, income, expense, Balance(income, expense),
                 CountByLedgerBetween(rows, ledgerId, start, end))
  }

  /** The details of months 1 to 12, whether or not they have rows. */
  function YearDetails(rows: seq<Transaction>, ledgerId: int, year: int): seq<PeriodDetail>
    requires IsValidYear(year)
  {
    seq(12, k requires 0 <= k < 12 => MonthDetail(rows, ledgerId, year, k + 1))
  }

  /** The details whose count is positive, in their order: what the loop's
      `count > 0` test lets into the list. */
  function WithRows(ds: seq<PeriodDetail>): seq<PeriodDetail> {
    if ds == [] then []
    else
      var last := ds[|ds| - 1];
      WithRows(ds[..|ds| - 1]) + (if last.transactionCount > 0 then [last] else [])
  }

  /** The monthly breakdown of a year: the months that have rows. */
  function MonthlyDetails(rows: seq<Transaction>, ledgerId: int, year: int): seq<PeriodDetail>
    requires IsValidYear(year)
  {
    WithRows(YearDetails(rows, ledgerId, year))
  }

  /** A range with no rows has no income and no expense either. */
  lemma EmptyRangeHasNoAmounts(rows: seq<Transaction>, ledgerId: int, start: LocalDate, end: LocalDate)
    requires CountByLedgerBetween(rows, ledgerId, start, end) == 0
    ensures SumByLedgerTypeBetween(rows, ledgerId, Income, start, end) == 0
    ensures SumByLedgerTypeBetween(rows, ledgerId, Expense, start, end) == 0
  {
    AmountByTypeIsSum(rows, LedgerBetween(ledgerId, start, end), Income);
    AmountByTypeIsSum(rows, LedgerBetween(ledgerId, start, end), Expense);
  }

  /** A detail is kept exactly when it is among the details and has rows. */
  lemma {:induction false} WithRowsMembers(ds: seq<PeriodDetail>)
    ensures forall p :: p in WithRows(ds) <==> p in ds && p.transactionCount > 0
  {
    if ds != [] {
      var prefix := ds[..|ds| - 1];
      WithRowsMembers(prefix);
      assert ds == prefix + [ds[|ds| - 1]];
    }
  }

  /** Details in strictly increasing month order. */
  predicate MonthsIncreasing(ds: seq<PeriodDetail>) {
    forall i, j :: 0 <= i < j < |ds| ==> ds[i].startDate.month < ds[j].startDate.month
  }

  /** Keeping only the details with rows keeps their order. */
  lemma {:induction false} WithRowsOrder(ds: seq<PeriodDetail>)
    requires MonthsIncreasing(ds)
    ensures MonthsIncreasing(WithRows(ds))
  {
    if ds != [] {
      var prefix := ds[..|ds| - 1];
      var last := ds[|ds| - 1];
      assert MonthsIncreasing(prefix) by {
        forall i, j | 0 <= i < j < |prefix|
          ensures prefix[i].startDate.month < prefix[j].startDate.month
        {
          assert prefix[i] == ds[i] && prefix[j] == ds[j];
        }
      }
      WithRowsOrder(prefix);
      WithRowsMembers(prefix);
      var kept := WithRows(prefix);
      forall i | 0 <= i < |kept| ensures kept[i].startDate.month < last.startDate.month {
        assert kept[i] in prefix;
        var k :| 0 <= k < |prefix| && prefix[k] == kept[i];
        assert prefix[k] == ds[k];
      }
    }
  }

  /** When every detail without rows has a zero figure, dropping those
      details does not change the figure's sum. */
  lemma {:induction false} WithRowsSum(ds: seq<PeriodDetail>, f: Figure)
    requires forall i :: 0 <= i < |ds| && ds[i].transactionCount == 0 ==> FigureOf(ds[i], f) == 0
    ensures FigureSum(WithRows(ds), f) == FigureSum(ds, f)
  {
    if ds != [] {
      var prefix := ds[..|ds| - 1];
      var last := ds[|ds| - 1];
      var tail := if last.transactionCount > 0 then [last] else [];
      assert forall i :: 0 <= i < |prefix| ==> prefix[i] == ds[i];
      WithRowsSum(prefix, f);
      assert ds == prefix + [last];
      FigureSumAppend(prefix, [last], f);
      FigureSumAppend(WithRows(prefix), tail, f);
      assert [last][1..] == [];
      if tail != [] {
        assert tail[1..] == [];
      }
    }
  }

  /** A month's detail carries the month's figures. */
  lemma MonthDetailFigure(rows: seq<Transaction>, ledgerId: int, year: int, month: int, f: Figure)
    requires IsValidYearMonth(year, month)
    ensures FigureOf(MonthDetail(rows, ledgerId, year, month), f) ==
            RangeFigure(rows, ledgerId, f, FirstDayOfMonth(year, month), LastDayOfMonth(year, month))
  {
  }

  /** Extending the range from January 1 by one month adds that month's figure. */
  lemma MonthStep(rows: seq<Transaction>, ledgerId: int, f: Figure, year: int, month: int)
    requires IsValidYear(year) && 1 <= month < 12
    ensures RangeFigure(rows, ledgerId, f, FirstDayOfMonth(year, 1), LastDayOfMonth(year, month + 1)) ==
            RangeFigure(rows, ledgerId, f, FirstDayOfMonth(year, 1), LastDayOfMonth(year, month))
            + RangeFigure(rows, ledgerId, f, FirstDayOfMonth(year, month + 1), LastDayOfMonth(year, month + 1))
  {
    var jan := FirstDayOfMonth(year, 1);
    var b := LastDayOfMonth(year, month);
    var e := LastDayOfMonth(year, month + 1);
    DayAfterMonthEnd(year, month);
    match f
    case CountFigure => RangeSplit(rows, LedgerOnly(ledgerId), jan, b, e);
    case IncomeFigure => RangeSplit(rows, Criteria(ledgerId, Some(Income), None, None), jan, b, e);
    case ExpenseFigure => RangeSplit(rows, Criteria(ledgerId, Some(Expense), None, None), jan, b, e);
  }

  /** The details of months 1 to n add up to the figures of January 1
      through the end of month n. */
  lemma {:induction false} YearDetailsSums(rows: seq<Transaction>, ledgerId: int, year: int, n: int, f: Figure)
    requires IsValidYear(year) && 1 <= n <= 12
    ensures FigureSum(YearDetails(rows, ledgerId, year)[..n], f) ==
            RangeFigure(rows, ledgerId, f, FirstDayOfMonth(year, 1), LastDayOfMonth(year, n))
  {
    var ds := YearDetails(rows, ledgerId, year);
    var d := ds[n - 1];
    MonthDetailFigure(rows, ledgerId, year, n, f);
    assert ds[..n] == ds[..n - 1] + [d];
    FigureSumAppend(ds[..n - 1], [d], f);
    assert [d][1..] == [];
    if n > 1 {
      YearDetailsSums(rows, ledgerId, year, n - 1, f);
      MonthStep(rows, ledgerId, f, year, n - 1);
    } else {
      assert ds[..n - 1] == [];
    }
  }

  /** A range with no rows has all three figures zero. */
  lemma EmptyRangeFigure(rows: seq<Transaction>, ledgerId: int, f: Figure, start: LocalDate, end: LocalDate)
    requires CountByLedgerBetween(rows, ledgerId, start, end) == 0
    ensures RangeFigure(rows, ledgerId, f, start, end) == 0
  {
    EmptyRangeHasNoAmounts(rows, ledgerId, start, end);
  }

  /** A month's detail spans YearMonth.atDay(1) to atEndOfMonth(), is
      labelled "yyyy-MM" and counts the ledger's rows in that span. */
  lemma MonthDetailShape(rows: seq<Transaction>, ledgerId: int, year: int, month: int)
    requires IsValidYearMonth(year, month)
    ensures var d := MonthDetail(rows, ledgerId, year, month);
      && d.startDate == FirstDayOfMonth(year, month)
      && d.startDate.month == month
      && d.endDate == LastDayOfMonth(year, month)
      && d.periodLabel == YearMonthLabel(year, month)
      && d.transactionCount == CountByLedgerBetween(rows, ledgerId, d.startDate, d.endDate)
  {
  }

  /** The year's details come one per month, in month order. */
  lemma YearDetailsIncreasing(rows: seq<Transaction>, ledgerId: int, year: int)
    requires IsValidYear(year)
    ensures MonthsIncreasing(YearDetails(rows, ledgerId, year))
  {
    var all := YearDetails(rows, ledgerId, year);
    forall k | 0 <= k < 12 ensures all[k].startDate.month == k + 1 {
      MonthDetailShape(rows, ledgerId, year, k + 1);
    }
  }

  /** Each entry of the monthly breakdown is the detail of a month of the
      year, and that month has rows. */
  lemma MonthlyDetailsEntries(rows: seq<Transaction>, ledgerId: int, year: int)
    requires IsValidYear(year)
    ensures var ds := MonthlyDetails(rows, ledgerId, year);
      forall i :: 0 <= i < |ds| ==>
        var m := ds[i].startDate.month;
        && 1 <= m <= 12
        && ds[i] == MonthDetail(rows, ledgerId, year, m)
        && ds[i].transactionCount > 0
  {
    var all := YearDetails(rows, ledgerId, year);
    var ds := MonthlyDetails(rows, ledgerId, year);
    WithRowsMembers(all);
    forall i | 0 <= i < |ds|
      ensures var m := ds[i].startDate.month;
        && 1 <= m <= 12
        && ds[i] == MonthDetail(rows, ledgerId, year, m)
        && ds[i].transactionCount > 0
    {
      assert ds[i] in all;
      var k :| 0 <= k < 12 && all[k] == ds[i];
      MonthDetailShape(rows, ledgerId, year, k + 1);
    }
  }

  /** The monthly breakdown lists its months in strictly ascending order. */
  lemma MonthlyDetailsOrder(rows: seq<Transaction>, ledgerId: int, year: int)
    requires IsValidYear(year)
    ensures MonthsIncreasing(MonthlyDetails(rows, ledgerId, year))
  {
    YearDetailsIncreasing(rows, ledgerId, year);
    WithRowsOrder(YearDetails(rows, ledgerId, year));
  }

  /** Every month of the year with rows has its detail in the breakdown. */
  lemma MonthlyDetailsComplete(rows: seq<Transaction>, ledgerId: int, year: int, m: int)
    requires IsValidYearMonth(year, m)
    requires CountByLedgerBetween(rows, ledgerId, FirstDayOfMonth(year, m), LastDayOfMonth(year, m)) > 0
    ensures MonthDetail(rows, ledgerId, year, m) in MonthlyDetails(rows, ledgerId, year)
  {
    var all := YearDetails(rows, ledgerId, year);
    WithRowsMembers(all);
    MonthDetailShape(rows, ledgerId, year, m);
    assert all[m - 1] == MonthDetail(rows, ledgerId, year, m);
  }

  /** buildMonthlyDetails: months 1 to 12 in turn, keeping those whose count
      is positive. */
  method BuildMonthlyDetails(rows: seq<Transaction>, ledgerId: int, year: int) returns (details: seq<PeriodDetail>)
    requires IsValidYear(year)
    ensures details == MonthlyDetails(rows, ledgerId, year)
  {
    ghost var all := YearDetails(rows, ledgerId, year);
    details := [];
    for month := 1 to 13
      invariant details == WithRows(all[..month - 1])
    {
      var detail := MonthDetail(rows, ledgerId, year, month);
      ghost var upTo := all[..month];
      assert upTo[..month - 1] == all[..month - 1];
      assert upTo[month - 1] == detail;
      if detail.transactionCount > 0 {
        details := details + [detail];
      }
    }
    assert all[..12] == all;
  }

  /** The monthly breakdown adds up to the year: its counts and sums equal
      those of January 1 through December 31. */
  lemma MonthlyDetailsAddUp(rows: seq<Transaction>, ledgerId: int, year: int)
    requires IsValidYear(year)
    ensures forall f :: FigureSum(MonthlyDetails(rows, ledgerId, year), f) ==
                        RangeFigure(rows, ledgerId, f, Date(year, 1, 1), Date(year, 12, 31))
  {
    YearBounds(year);
    var all := YearDetails(rows, ledgerId, year);
    forall f ensures FigureSum(MonthlyDetails(rows, ledgerId, year), f) ==
                     RangeFigure(rows, ledgerId, f, Date(year, 1, 1), Date(year, 12, 31)) {
      forall i | 0 <= i < |all| && all[i].transactionCount == 0 ensures FigureOf(all[i], f) == 0 {
        MonthDetailFigure(rows, ledgerId, year, i + 1, f);
        EmptyRangeFigure(rows, ledgerId, f, all[i].startDate, all[i].endDate);
      }
      WithRowsSum(all, f);
      YearDetailsSums(rows, ledgerId, year, 12, f);
      assert all[..12] == all;
    }
  }

  // ---- summaries ----

  datatype PeriodType = Daily | Monthly | Yearly

  /** PeriodTransactionSummary; `periodDetails` is None where the service leaves it null. */
  datatype PeriodSummary = PeriodSummary(
    ledgerId: int,
    periodType: PeriodType,
    startDate: LocalDate,
    endDate: LocalDate,
    totalIncome: int,
    totalExpense: int,
    balance: int,
    transactionCount: nat,
    transactions: seq<TransactionResponse>,
    periodDetails: Option<seq<PeriodDetail>>)

  /** buildPeriodSummary: sums and count from the range queries, the list from the range listing. */
  function BuildPeriodSummary(rows: seq<Transaction>, ledgerId: int, periodType: PeriodType,
                              start: LocalDate, end: LocalDate): PeriodSummary {
    var income := SumByLedgerTypeBetween(rows, ledgerId, Income, start, end);
    var expense := SumByLedgerTypeBetween(rows, ledgerId, Expense, start, end);
    PeriodSummary(ledgerId, periodType, start, end, income, expense, Balance(income, expense),
                  CountByLedgerBetween(rows, ledgerId, start, end),
                  ToResponses(FindByLedgerBetween(rows, ledgerId, start, end)), None)
  }

  /** A period summary is consistent with its own list: the count is the
      length of the list and the income and expense are the sums of the
      listed rows of each type; the balance is income minus expense; and a
      range whose start is after its end gives an empty summary. */
  lemma PeriodSummarySpec(rows: seq<Transaction>, ledgerId: int, periodType: PeriodType,
                          start: LocalDate, end: LocalDate)
    ensures var p := BuildPeriodSummary(rows, ledgerId, periodType, start, end);
      && p.balance == p.totalIncome - p.totalExpense
      && p.transactionCount == |p.transactions|
      && p.totalIncome == AmountByType(FindByLedgerBetween(rows, ledgerId, start, end), Income)
      && p.totalExpense == AmountByType(FindByLedgerBetween(rows, ledgerId, start, end), Expense)
      && (p.transactionCount == 0 ==> p.totalIncome == 0 && p.totalExpense == 0)
    ensures Before(end, start) ==>
      var p := BuildPeriodSummary(rows, ledgerId, periodType, start, end);
      p.transactions == [] && p.transactionCount == 0 && p.totalIncome == 0 && p.totalExpense == 0 && p.balance == 0
  {
    ListingFigures(rows, ledgerId, start, end);
    if CountByLedgerBetween(rows, ledgerId, start, end) == 0 {
      EmptyRangeHasNoAmounts(rows, ledgerId, start, end);
    }
    if Before(end, start) {
      EmptyRange(rows, LedgerOnly(ledgerId), start, end);
    }
  }

  /** TransactionSummary: the all-time figures of a ledger. */
  datatype LedgerSummary = LedgerSummary(
    ledgerId: int,
    totalIncome: int,
    totalExpense: int,
    balance: int,
    transactionCount: nat)

  /** The figures getSummaryByLedger assembles from the ledger-wide queries. */
  function BuildLedgerSummary(rows: seq<Transaction>, ledgerId: int): LedgerSummary {
    var income := SumByLedgerAndType(rows, ledgerId, Income);
    var expense := SumByLedgerAndType(rows, ledgerId, Expense);
    LedgerSummary(ledgerId, income, expense, Balance(income, expense), CountByLedger(rows, ledgerId))
  }

  /** The ledger summary is the figures of the ledger's full listing: the
      count is its length, the sums are over its rows of each type, the
      balance is income minus expense, and a ledger with no live rows gives
      0, 0, 0 and 0. */
  lemma LedgerSummarySpec(rows: seq<Transaction>, ledgerId: int)
    ensures var s := BuildLedgerSummary(rows, ledgerId);
      && s.balance == s.totalIncome - s.totalExpense
      && s.transactionCount == |FindByLedger(rows, ledgerId)|
      && s.totalIncome == AmountByType(FindByLedger(rows, ledgerId), Income)
      && s.totalExpense == AmountByType(FindByLedger(rows, ledgerId), Expense)
    ensures (forall t :: t in rows ==> t.ledgerId != ledgerId || t.isDeleted) ==>
      BuildLedgerSummary(rows, ledgerId) == LedgerSummary(ledgerId, 0, 0, 0, 0)
  {
    var c := LedgerOnly(ledgerId);
    var sel := Select(rows, c);
    var txs := FindByLedger(rows, ledgerId);
    ListQueryContents(rows, c);
    assert |txs| == |multiset(txs)| == |multiset(sel)| == |sel|;
    AmountByTypePermutation(txs, sel, Income);
    AmountByTypePermutation(txs, sel, Expense);
    AmountByTypeIsSum(rows, c, Income);
    AmountByTypeIsSum(rows, c, Expense);
    if forall t :: t in rows ==> t.ledgerId != ledgerId || t.isDeleted {
      SelectNothing(rows, c);
    }
  }

  lemma {:induction false} SelectNothing(rows: seq<Transaction>, c: Criteria)
    requires forall t :: t in rows ==> !Matches(t, c)
    ensures Select(rows, c) == []
  {
    if rows != [] {
      assert rows[0] in rows;
      SelectNothing(rows[1..], c);
    }
  }
}
