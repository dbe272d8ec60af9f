/** The aggregation engine: income and expense totals, net savings and savings rate over
    an inclusive date range or one calendar month, and the per-category expense breakdown. */
module Insights {
  import opened Outcomes
  import opened Dates
  import opened Money
  import opened Sorting
  import opened Ledger

  /** The summary dictionary. Amounts are cents; the savings rate is in tenths of a percent. */
  datatype Summary = Summary(totalIncome: int, totalExpenses: int, netSavings: int, savingsRateTenths: int)

  /** The WHERE of both summary queries and of the breakdown: the owner's live records of
      one kind dated within [from, to]. */
  function RangeCriteria(user: int, from: Date, to: Date, kind: TxType): Criteria {
    Criteria(user, Some(from), Some(to), None, Some(kind))
  }

  /** SUM(amount) of the owner's live records of one kind in [from, to]; 0 for no rows. */
  function KindTotal(st: Store, user: int, from: Date, to: Date, kind: TxType): int {
    Sum(Select(st.transactions, RangeCriteria(user, from, to, kind)))
  }

  /** The savings rate: 0 unless income is positive, else net / income * 100 to one decimal. */
  function SavingsRate(net: int, income: int): (r: int)
    ensures income <= 0 ==> r == 0
    ensures income > 0 ==> -income <= 2 * (1000 * net - r * income) <= income
  {
    if income > 0 then RoundedTenthsPercent(net, income) else 0
  }

  /** get_monthly_summary_range. */
  function RangeSummary(st: Store, user: int, from: Date, to: Date): (s: Summary)
    ensures s.totalIncome == KindTotal(st, user, from, to, Income)
    ensures s.totalExpenses == KindTotal(st, user, from, to, Expense)
    ensures s.netSavings == s.totalIncome - s.totalExpenses
    ensures s.totalIncome <= 0 ==> s.savingsRateTenths == 0
    ensures s.totalIncome > 0 ==>
      -s.totalIncome <= 2 * (1000 * s.netSavings - s.savingsRateTenths * s.totalIncome) <= s.totalIncome
  {
    var income := KindTotal(st, user, from, to, Income);
    var expenses := KindTotal(st, user, from, to, Expense);
    Summary(income, expenses, income - expenses, SavingsRate(income - expenses, income))
  }

  /** get_monthly_summary: the range from day 1 to the month's last day. A year or month
      that `date` rejects is an error (None). */
  function MonthlySummary(st: Store, user: int, year: int, month: int): (r: Option<Summary>)
    ensures r.Some? <==> 1 <= year <= 9999 && 1 <= month <= 12
    ensures r.Some? ==> r.value == RangeSummary(st, user, MonthStart(year, month), MonthEnd(year, month))
  {
    if 1 <= year <= 9999 && 1 <= month <= 12 then
      Some(RangeSummary(st, user, MonthStart(year, month), MonthEnd(year, month)))
    else None
  }

  /** The monthly totals count exactly the owner's live records of that kind dated in that
      calendar month. */
  lemma MonthlySummaryCountsMonth(st: Store, user: int, year: int, month: int, kind: TxType, t: Transaction)
    requires Valid(st) && 1 <= year <= 9999 && 1 <= month <= 12
    ensures t in Select(st.transactions, RangeCriteria(user, MonthStart(year, month), MonthEnd(year, month), kind))
        <==> t in st.transactions && t.owner == user && t.status == Active && t.kind == kind
             && t.date.year == year && t.date.month == month
  {
    if t in st.transactions {
      MonthRangeIsMonth(year, month, t.date);
    }
  }

  /** Income plus expenses is the total over both kinds: each record is of exactly one kind. */
  lemma {:induction false} KindsPartition(s: seq<Transaction>, c: Criteria)
    requires c.kind.None?
    ensures Sum(Select(s, c.(kind := Some(Income)))) + Sum(Select(s, c.(kind := Some(Expense)))) == Sum(Select(s, c))
    decreases |s|
  {
    if |s| > 0 {
      KindsPartition(s[..|s| - 1], c);
      KindSplit(c, s[|s| - 1]);
      SumSelectLast(s, c);
      SumSelectLast(s, c.(kind := Some(Income)));
      SumSelectLast(s, c.(kind := Some(Expense)));
    }
  }

  lemma KindSplit(c: Criteria, t: Transaction)
    requires c.kind.None?
    ensures (if Matches(c.(kind := Some(Income)), t) then t.amount else 0)
      + (if Matches(c.(kind := Some(Expense)), t) then t.amount else 0)
      == (if Matches(c, t) then t.amount else 0)
  {
  }

  /** The summary's two totals split the owner's live records in the range between them. */
  lemma SummaryPartitionsRange(st: Store, user: int, from: Date, to: Date)
    ensures RangeSummary(st, user, from, to).totalIncome + RangeSummary(st, user, from, to).totalExpenses
      == Sum(Select(st.transactions, Criteria(user, Some(from), Some(to), None, None)))
  {
    KindsPartition(st.transactions, Criteria(user, Some(from), Some(to), None, None));
  }

  /** Amounts are positive, so the totals are never negative and the savings rate never
      exceeds 100 percent. */
  lemma SummaryBounds(st: Store, user: int, from: Date, to: Date)
    requires Valid(st)
    ensures RangeSummary(st, user, from, to).totalIncome >= 0
    ensures RangeSummary(st, user, from, to).totalExpenses >= 0
    ensures RangeSummary(st, user, from, to).netSavings <= RangeSummary(st, user, from, to).totalIncome
    ensures RangeSummary(st, user, from, to).savingsRateTenths <= 1000
  {
    var s := RangeSummary(st, user, from, to);
    SelectedPositive(st, RangeCriteria(user, from, to, Income));
    SelectedPositive(st, RangeCriteria(user, from, to, Expense));
    if s.totalIncome > 0 && s.savingsRateTenths > 1000 {
      var d := s.savingsRateTenths - 1000;
      assert 1000 * s.netSavings - s.savingsRateTenths * s.totalIncome
          == 1000 * (s.netSavings - s.totalIncome) - d * s.totalIncome;
      MulAtLeast(d, s.totalIncome);
    }
  }

  lemma SelectedPositive(st: Store, c: Criteria)
    requires Valid(st)
    ensures Sum(Select(st.transactions, c)) >= 0
  {
    var r := Select(st.transactions, c);
    assert forall k :: 0 <= k < |r| ==> r[k] in st.transactions;
    SumPositive(r);
  }

  /** A reversed range holds no dates, so every total is zero. */
  lemma EmptyRangeSummary(st: Store, user: int, from: Date, to: Date)
    requires !DateLe(from, to)
    ensures RangeSummary(st, user, from, to) == Summary(0, 0, 0, 0)
  {
    forall t, kind | t in st.transactions ensures !Matches(RangeCriteria(user, from, to, kind), t) {
      DateLeIsTotalOrder(from, t.date, to);
    }
    NothingSelected(st.transactions, RangeCriteria(user, from, to, Income));
    NothingSelected(st.transactions, RangeCriteria(user, from, to, Expense));
  }

  lemma {:induction false} NothingSelected(s: seq<Transaction>, c: Criteria)
    requires forall t :: t in s ==> !Matches(c, t)
    ensures Select(s, c) == []
    decreases |s|
  {
    if |s| > 0 {
      assert forall k :: 0 <= k < |s| - 1 ==> s[..|s| - 1][k] == s[k];
      NothingSelected(s[..|s| - 1], c);
    }
  }

  // ----- Category breakdown -----

  /** One result row of GROUP BY category_id, before names and shares are attached. */
  datatype Group = Group(categoryId: int, total: int)

  /** A breakdown row; the share of total spending is in tenths of a percent. */
  datatype Row = Row(categoryId: int, categoryName: string, total: int, percentTenths: int)

  /** The distinct category ids of s in order of first appearance: one per group. */
  function GroupIds(s: seq<Transaction>): (r: seq<int>)
    ensures NoDuplicates(r)
    ensures forall id :: id in r <==> exists k :: 0 <= k < |s| && s[k].categoryId == id
  {
    if |s| == 0 then []
    else
      var p := s[..|s| - 1];
      var g := GroupIds(p);
      var id := s[|s| - 1].categoryId;
      assert forall k :: 0 <= k < |p| ==> p[k] == s[k];
      if id in g then g else g + [id]
  }

  /** The selection narrowed to one category: the rows of one group. */
  function InGroup(c: Criteria, id: int): Criteria {
    c.(categoryId := Some(id))
  }

  /** SUM(amount) per group, in group order. */
  function Groups(s: seq<Transaction>, c: Criteria, ids: seq<int>): (r: seq<Group>)
    ensures |r| == |ids|
    ensures forall k :: 0 <= k < |ids| ==> r[k] == Group(ids[k], Sum(Select(s, InGroup(c, ids[k]))))
  {
    if |ids| == 0 then []
    else Groups(s, c, ids[..|ids| - 1]) + [Group(ids[|ids| - 1], Sum(Select(s, InGroup(c, ids[|ids| - 1]))))]
  }

  function GroupTotal(g: Group): int { g.total }

  function RowTotal(r: Row): int { r.total }

  function RowCategory(r: Row): int { r.categoryId }

  function RowPercent(r: Row): int { r.percentTenths }

  /** The name reported for a group: the category's, or "Unknown" when the id has no record. */
  function CategoryName(st: Store, id: int): (name: string)
    ensures LookupCategory(st.categories, id).None? ==> name == "Unknown"
    ensures LookupCategory(st.categories, id).Some? ==> name == LookupCategory(st.categories, id).value.name
  {
    match LookupCategory(st.categories, id)
    case Some(cat) => cat.name
    case None => "Unknown"
  }

  /** part / whole * 100 to one decimal, in tenths of a percent; 0 when whole is 0. */
  function Share(part: int, whole: int): (r: int)
    ensures whole == 0 ==> r == 0
    ensures whole > 0 ==> -whole <= 2 * (1000 * part - r * whole) <= whole
    ensures whole < 0 ==> whole <= 2 * (1000 * part - r * whole) <= -whole
  {
    if whole == 0 then 0
    else if whole > 0 then RoundedTenthsPercent(part, whole)
    else RoundedTenthsPercent(-part, -whole)
  }

  function ToRows(st: Store, gs: seq<Group>, grand: int): (r: seq<Row>)
    ensures |r| == |gs|
    ensures forall k :: 0 <= k < |gs| ==>
      r[k] == Row(gs[k].categoryId, CategoryName(st, gs[k].categoryId), gs[k].total, Share(gs[k].total, grand))
  {
    if |gs| == 0 then []
    else
      var row := Row(gs[0].categoryId, CategoryName(st, gs[0].categoryId), gs[0].total, Share(gs[0].total, grand));
      [row] + ToRows(st, gs[1..], grand)
  }

  /** The order of the final sort: a larger total comes first; equal totals tie. */
  predicate LargerTotalFirst(a: Row, b: Row) {
    a.total >= b.total
  }

  lemma LargerTotalFirstIsTotalPreorder()
    ensures TotalPreorder(LargerTotalFirst)
  {
  }

  /** The rows in query order, named and with shares of the grand total attached. */
  function UnsortedBreakdown(st: Store, user: int, from: Date, to: Date): seq<Row> {
    var c := RangeCriteria(user, from, to, Expense);
    var gs := Groups(st.transactions, c, GroupIds(Select(st.transactions, c)));
    ToRows(st, gs, SumOf(gs, GroupTotal))
  }

  /** get_category_breakdown. */
  function CategoryBreakdown(st: Store, user: int, from: Date, to: Date): (r: seq<Row>)
    ensures SortedBy(r, LargerTotalFirst)
    ensures multiset(r) == multiset(UnsortedBreakdown(st, user, from, to))
    ensures forall y :: Peers(r, y, LargerTotalFirst) == Peers(UnsortedBreakdown(st, user, from, to), y, LargerTotalFirst)
  {
    LargerTotalFirstIsTotalPreorder();
    Sort(UnsortedBreakdown(st, user, from, to), LargerTotalFirst)
  }

  lemma {:induction false} ToRowsTotal(st: Store, gs: seq<Group>, grand: int)
    ensures SumOf(ToRows(st, gs, grand), RowTotal) == SumOf(gs, GroupTotal)
    decreases |gs|
  {
    if |gs| > 0 {
      ToRowsTotal(st, gs[1..], grand);
    }
  }

  /** The amount one record adds across the groups ids. */
  function Hits(ids: seq<int>, c: Criteria, t: Transaction): int {
    if |ids| == 0 then 0
    else Hits(ids[..|ids| - 1], c, t) + (if Matches(InGroup(c, ids[|ids| - 1]), t) then t.amount else 0)
  }

  /** With distinct ids, a record counts in its own group only. */
  lemma {:induction false} HitsOnce(ids: seq<int>, c: Criteria, t: Transaction)
    requires NoDuplicates(ids) && c.categoryId.None?
    ensures Hits(ids, c, t) == (if Matches(c, t) && t.categoryId in ids then t.amount else 0)
    decreases |ids|
  {
    if |ids| > 0 {
      var p := ids[..|ids| - 1];
      assert forall k :: 0 <= k < |p| ==> p[k] == ids[k];
      HitsOnce(p, c, t);
      assert ids == p + [ids[|ids| - 1]];
      assert ids[|ids| - 1] !in p;
    }
  }

  lemma {:induction false} GroupsStep(s: seq<Transaction>, c: Criteria, ids: seq<int>)
    requires |s| > 0
    ensures SumOf(Groups(s, c, ids), GroupTotal)
      == SumOf(Groups(s[..|s| - 1], c, ids), GroupTotal) + Hits(ids, c, s[|s| - 1])
    decreases |ids|
  {
    if |ids| > 0 {
      var p := ids[..|ids| - 1];
      var id := ids[|ids| - 1];
      GroupsStep(s, c, p);
      SumSelectLast(s, InGroup(c, id));
      var g := Group(id, Sum(Select(s, InGroup(c, id))));
      var g' := Group(id, Sum(Select(s[..|s| - 1], InGroup(c, id))));
      SumOfAppend(Groups(s, c, p), [g], GroupTotal);
      SumOfAppend(Groups(s[..|s| - 1], c, p), [g'], GroupTotal);
    }
  }

  /** Summing the groups of distinct ids that cover every selected record gives the
      total over the selection. */
  lemma {:induction false} GroupsCover(s: seq<Transaction>, c: Criteria, ids: seq<int>)
    requires NoDuplicates(ids) && c.categoryId.None?
    requires forall k :: 0 <= k < |s| && Matches(c, s[k]) ==> s[k].categoryId in ids
    ensures SumOf(Groups(s, c, ids), GroupTotal) == Sum(Select(s, c))
    decreases |s|
  {
    if |s| == 0 {
      ZeroGroups(s, c, ids);
    } else {
      var p := s[..|s| - 1];
      assert forall k :: 0 <= k < |p| ==> p[k] == s[k];
      GroupsCover(p, c, ids);
      GroupsStep(s, c, ids);
      HitsOnce(ids, c, s[|s| - 1]);
      SumSelectLast(s, c);
    }
  }

  lemma {:induction false} ZeroGroups(s: seq<Transaction>, c: Criteria, ids: seq<int>)
    requires |s| == 0
    ensures SumOf(Groups(s, c, ids), GroupTotal) == 0
    decreases |ids|
  {
    if |ids| > 0 {
      ZeroGroups(s, c, ids[..|ids| - 1]);
      SumOfAppend(Groups(s, c, ids[..|ids| - 1]), [Group(ids[|ids| - 1], 0)], GroupTotal);
    }
  }

  /** The grand total of the breakdown is the range's expense total. */
  lemma GroupsTotalIsExpenses(st: Store, user: int, from: Date, to: Date)
    ensures var c := RangeCriteria(user, from, to, Expense);
      SumOf(Groups(st.transactions, c, GroupIds(Select(st.transactions, c))), GroupTotal)
      == RangeSummary(st, user, from, to).totalExpenses
  {
    var c := RangeCriteria(user, from, to, Expense);
    var sel := Select(st.transactions, c);
    var ids := GroupIds(sel);
    forall k | 0 <= k < |st.transactions| && Matches(c, st.transactions[k])
      ensures st.transactions[k].categoryId in ids
    {
      var t := st.transactions[k];
      assert t in sel;
      var m :| 0 <= m < |sel| && sel[m] == t;
    }
    GroupsCover(st.transactions, c, ids);
  }

  /** Row totals add up to the expense total of the monthly/range summary, whatever the order. */
  lemma BreakdownTotalsMatchSummary(st: Store, user: int, from: Date, to: Date)
    ensures SumOf(CategoryBreakdown(st, user, from, to), RowTotal) == RangeSummary(st, user, from, to).totalExpenses
  {
    var c := RangeCriteria(user, from, to, Expense);
    var gs := Groups(st.transactions, c, GroupIds(Select(st.transactions, c)));
    GroupsTotalIsExpenses(st, user, from, to);
    ToRowsTotal(st, gs, SumOf(gs, GroupTotal));
    PermutationSum(UnsortedBreakdown(st, user, from, to), CategoryBreakdown(st, user, from, to), RowTotal);
  }

  /** Each row is one group: its total is the sum of the owner's live expenses in the range
      with that category, its name is the category's (or "Unknown"), and its share is of the
      range's expense total. */
  lemma BreakdownRows(st: Store, user: int, from: Date, to: Date, row: Row)
    requires row in CategoryBreakdown(st, user, from, to)
    ensures row.total == Sum(Select(st.transactions, InGroup(RangeCriteria(user, from, to, Expense), row.categoryId)))
    ensures row.categoryName == CategoryName(st, row.categoryId)
    ensures row.percentTenths == Share(row.total, RangeSummary(st, user, from, to).totalExpenses)
    ensures exists t :: t in st.transactions && Matches(RangeCriteria(user, from, to, Expense), t) && t.categoryId == row.categoryId
  {
    var c := RangeCriteria(user, from, to, Expense);
    var sel := Select(st.transactions, c);
    var ids := GroupIds(sel);
    var gs := Groups(st.transactions, c, ids);
    GroupsTotalIsExpenses(st, user, from, to);
    assert row in multiset(UnsortedBreakdown(st, user, from, to));
    var k :| 0 <= k < |gs| && UnsortedBreakdown(st, user, from, to)[k] == row;
    assert ids[k] in ids;
    var m :| 0 <= m < |sel| && sel[m].categoryId == ids[k];
    assert sel[m] in sel;
  }

  /** Every category the owner spent on in the range has a row. */
  lemma BreakdownCoversSpending(st: Store, user: int, from: Date, to: Date, t: Transaction)
    requires t in st.transactions && Matches(RangeCriteria(user, from, to, Expense), t)
    ensures exists row :: row in CategoryBreakdown(st, user, from, to) && row.categoryId == t.categoryId
  {
    var c := RangeCriteria(user, from, to, Expense);
    var sel := Select(st.transactions, c);
    var ids := GroupIds(sel);
    assert t in sel;
    var m :| 0 <= m < |sel| && sel[m] == t;
    assert sel[m].categoryId == t.categoryId;
    assert t.categoryId in ids;
    var k :| 0 <= k < |ids| && ids[k] == t.categoryId;
    var row := UnsortedBreakdown(st, user, from, to)[k];
    assert row in multiset(CategoryBreakdown(st, user, from, to));
  }

  /** No category has two rows. */
  lemma BreakdownOneRowPerCategory(st: Store, user: int, from: Date, to: Date)
    ensures DistinctKeys(CategoryBreakdown(st, user, from, to), RowCategory)
  {
    var c := RangeCriteria(user, from, to, Expense);
    var ids := GroupIds(Select(st.transactions, c));
    var u := UnsortedBreakdown(st, user, from, to);
    var r := CategoryBreakdown(st, user, from, to);
    assert DistinctKeys(u, RowCategory) by {
      forall i, j | 0 <= i < j < |u| ensures RowCategory(u[i]) != RowCategory(u[j]) {
        assert u[i].categoryId == ids[i] && u[j].categoryId == ids[j];
      }
    }
    DistinctKeysPermutation(u, r, RowCategory);
  }

  /** Rows whose shares are of a common positive whole: each share is off by at most half
      a tenth, so the shares add up to the rows' part of 1000 tenths within half a tenth
      per row. */
  lemma {:induction false} SharesNearTotal(rows: seq<Row>, grand: int)
    requires grand > 0
    requires forall k :: 0 <= k < |rows| ==> rows[k].percentTenths == Share(rows[k].total, grand)
    ensures -|rows| * grand <= 2 * (1000 * SumOf(rows, RowTotal) - SumOf(rows, RowPercent) * grand) <= |rows| * grand
    decreases |rows|
  {
    if |rows| > 0 {
      var tail := rows[1..];
      assert forall k :: 0 <= k < |tail| ==> tail[k] == rows[k + 1];
      SharesNearTotal(tail, grand);
      assert SumOf(rows, RowTotal) == rows[0].total + SumOf(tail, RowTotal);
      assert SumOf(rows, RowPercent) == rows[0].percentTenths + SumOf(tail, RowPercent);
      BoundStep(rows[0].total, rows[0].percentTenths, SumOf(tail, RowTotal), SumOf(tail, RowPercent), |tail|, grand);
    }
  }

  /** One more term, within half of the whole, widens the bound by one whole. */
  lemma BoundStep(t: int, p: int, ts: int, ps: int, n: int, g: int)
    requires -g <= 2 * (1000 * t - p * g) <= g
    requires -n * g <= 2 * (1000 * ts - ps * g) <= n * g
    ensures -(n + 1) * g <= 2 * (1000 * (t + ts) - (p + ps) * g) <= (n + 1) * g
  {
    assert (p + ps) * g == p * g + ps * g;
    assert (n + 1) * g == n * g + g;
  }

  /** The breakdown's percentages add up to 100.0 up to rounding: within half a tenth of a
      percent per row, whenever there is spending. */
  lemma BreakdownPercentsNearHundred(st: Store, user: int, from: Date, to: Date)
    requires RangeSummary(st, user, from, to).totalExpenses > 0
    ensures var r := CategoryBreakdown(st, user, from, to);
      -|r| <= 2 * (1000 - SumOf(r, RowPercent)) <= |r|
  {
    var r := CategoryBreakdown(st, user, from, to);
    var g := RangeSummary(st, user, from, to).totalExpenses;
    forall k | 0 <= k < |r| ensures r[k].percentTenths == Share(r[k].total, g) {
      BreakdownRows(st, user, from, to, r[k]);
    }
    BreakdownTotalsMatchSummary(st, user, from, to);
    RowsNearHundred(r, g);
  }

  lemma RowsNearHundred(r: seq<Row>, g: int)
    requires g > 0 && SumOf(r, RowTotal) == g
    requires forall k :: 0 <= k < |r| ==> r[k].percentTenths == Share(r[k].total, g)
    ensures -|r| <= 2 * (1000 - SumOf(r, RowPercent)) <= |r|
  {
    SharesNearTotal(r, g);
    DivideBound(SumOf(r, RowPercent), |r|, g);
  }

  lemma DivideBound(p: int, n: int, g: int)
    requires g > 0 && -n * g <= 2 * (1000 * g - p * g) <= n * g
    ensures -n <= 2 * (1000 - p) <= n
  {
    assert 2 * (1000 - p) * g == 2 * (1000 * g - p * g);
    ScaledBound(2 * (1000 - p), n, g);
  }

  /** Dividing a bound through by a positive factor. */
  lemma ScaledBound(e: int, n: int, g: int)
    requires g > 0 && -n * g <= e * g <= n * g
    ensures -n <= e <= n
  {
    if e > n {
      MulStrict(n, e, g);
    }
    if e < -n {
      MulStrict(e, -n, g);
    }
  }

  lemma MulStrict(a: int, b: int, g: int)
    requires a < b && g > 0
    ensures a * g < b * g
  {
    assert b * g - a * g == (b - a) * g;
  }
}
