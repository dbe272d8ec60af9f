/** The alert engine for one calendar month: the budget rule (expenses against income)
    and the large-transaction rule (one expense against income). */
module Alerts {
  import opened Outcomes
  import opened Dates
  import opened Money
  import opened Sorting
  import opened Ledger
  import opened Insights
  import Config

  datatype Severity = Warning | Info

  /** An alert; thresholds are percents, the budget share is in tenths of a percent. */
  datatype Alert =
    | BudgetExceeded(percentTenths: int, thresholdPercent: real)
    | LargeTransaction(
        transactionId: int,
        amount: int,
        date: Date,
        description: Option<string>,
        categoryName: Option<string>)

  function SeverityOf(a: Alert): Severity {
    match a
    case BudgetExceeded(_, _) => Warning
    case LargeTransaction(_, _, _, _, _) => Info
  }

  predicate ValidMonth(year: int, month: int) {
    1 <= year <= 9999 && 1 <= month <= 12
  }

  /** The month's summary, which both rules read. */
  function MonthSummary(st: Store, user: int, year: int, month: int): (s: Summary)
    requires ValidMonth(year, month)
    ensures Some(s) == MonthlySummary(st, user, year, month)
  {
    RangeSummary(st, user, MonthStart(year, month), MonthEnd(year, month))
  }

  /** The records rule 2 looks at: the owner's live expenses dated in that month. */
  function MonthExpenses(user: int, year: int, month: int): Criteria
    requires ValidMonth(year, month)
  {
    RangeCriteria(user, MonthStart(year, month), MonthEnd(year, month), Expense)
  }

  /** The records of s whose amount is at least pct percent of income. */
  function AtLeastShare(s: seq<Transaction>, income: int, pct: real): (r: seq<Transaction>)
    ensures forall t :: t in r <==> t in s && AtLeastPercent(t.amount, income, pct)
    ensures DistinctKeys(s, TransactionId) ==> DistinctKeys(r, TransactionId)
  {
    if |s| == 0 then []
    else
      var p := s[..|s| - 1];
      var t := s[|s| - 1];
      assert s == p + [t];
      var rp := AtLeastShare(p, income, pct);
      assert DistinctKeys(s, TransactionId) ==> DistinctKeys(p, TransactionId) && forall u :: u in p ==> u.id != t.id;
      rp + (if AtLeastPercent(t.amount, income, pct) then [t] else [])
  }

  function TransactionId(t: Transaction): int { t.id }

  /** ORDER BY amount DESC: a larger amount comes first. */
  predicate LargerAmountFirst(a: Transaction, b: Transaction) {
    a.amount >= b.amount
  }

  lemma LargerAmountFirstIsTotalPreorder()
    ensures TotalPreorder(LargerAmountFirst)
  {
  }

  /** The large-transaction query: the month's expenses of at least pct percent of income,
      largest first. */
  function LargeExpenses(st: Store, user: int, year: int, month: int, income: int, pct: real): (r: seq<Transaction>)
    requires ValidMonth(year, month)
    ensures SortedBy(r, LargerAmountFirst)
    ensures forall t :: t in r <==>
      t in st.transactions && Matches(MonthExpenses(user, year, month), t) && AtLeastPercent(t.amount, income, pct)
    ensures TransactionsValid(st) ==> DistinctKeys(r, TransactionId)
  {
    LargerAmountFirstIsTotalPreorder();
    var sel := Select(st.transactions, MonthExpenses(user, year, month));
    var big := AtLeastShare(sel, income, pct);
    var r := Sort(big, LargerAmountFirst);
    assert forall t :: t in r <==> t in multiset(big);
    assert TransactionsValid(st) ==> DistinctKeys(r, TransactionId) by {
      if TransactionsValid(st) {
        SelectDistinctIds(st.transactions, MonthExpenses(user, year, month));
        DistinctKeysPermutation(big, r, TransactionId);
      }
    }
    r
  }

  /** The category name on an alert: none when the record's category no longer exists. */
  function CategoryNameOf(st: Store, id: int): (name: Option<string>)
    ensures name.Some? <==> LookupCategory(st.categories, id).Some?
    ensures name.Some? ==> name.value == LookupCategory(st.categories, id).value.name
  {
    match LookupCategory(st.categories, id)
    case Some(cat) => Some(cat.name)
    case None => None
  }

  /** The alert for one large expense: an informational alert that carries the record's id,
      amount, date and description, and the name of its category while that exists. */
  function AlertFor(st: Store, t: Transaction): (a: Alert)
    ensures a.LargeTransaction? && SeverityOf(a) == Info
    ensures a.transactionId == t.id && a.amount == t.amount && a.date == t.date
    ensures a.description == t.description
    ensures a.categoryName.Some? <==> LookupCategory(st.categories, t.categoryId).Some?
    ensures a.categoryName.Some? ==> a.categoryName.value == LookupCategory(st.categories, t.categoryId).value.name
  {
    LargeTransaction(t.id, t.amount, t.date, t.description, CategoryNameOf(st, t.categoryId))
  }

  function LargeAlerts(st: Store, ts: seq<Transaction>): (r: seq<Alert>)
    ensures |r| == |ts|
    ensures forall k :: 0 <= k < |ts| ==> r[k] == AlertFor(st, ts[k])
  {
    if |ts| == 0 then [] else [AlertFor(st, ts[0])] + LargeAlerts(st, ts[1..])
  }

  /** get_alerts for an explicit month and explicit thresholds. */
  function MonthAlerts(st: Store, user: int, year: int, month: int, budgetPercent: real, largePercent: real): (r: seq<Alert>)
    requires ValidMonth(year, month)
    ensures var s := MonthSummary(st, user, year, month);
      && (s.totalIncome <= 0 ==> r == [])
      && ((|r| > 0 && r[0].BudgetExceeded?)
          <==> s.totalIncome > 0 && AtLeastPercent(s.totalExpenses, s.totalIncome, budgetPercent))
      && (|r| > 0 && r[0].BudgetExceeded? ==>
          r[0] == BudgetExceeded(RoundedTenthsPercent(s.totalExpenses, s.totalIncome), budgetPercent))
    ensures forall k :: 1 <= k < |r| ==> r[k].LargeTransaction?
  {
    var s := MonthSummary(st, user, year, month);
    if s.totalIncome <= 0 then []
    else
      var budget :=
        if AtLeastPercent(s.totalExpenses, s.totalIncome, budgetPercent)
        then [BudgetExceeded(RoundedTenthsPercent(s.totalExpenses, s.totalIncome), budgetPercent)]
        else [];
      budget + LargeAlerts(st, LargeExpenses(st, user, year, month, s.totalIncome, largePercent))
  }

  /** get_alerts: a year or month that `date` rejects is an error (None). */
  function GetAlerts(st: Store, user: int, year: int, month: int, budgetPercent: real, largePercent: real): (r: Option<seq<Alert>>)
    ensures r.Some? <==> ValidMonth(year, month)
    ensures r.Some? ==> r.value == MonthAlerts(st, user, year, month, budgetPercent, largePercent)
  {
    if ValidMonth(year, month) then Some(MonthAlerts(st, user, year, month, budgetPercent, largePercent)) else None
  }

  /** The alerts under the configured thresholds: a budget alert once expenses reach
      90 % of income, a large-transaction alert for each expense of at least 25 %. */
  function DefaultAlerts(st: Store, user: int, year: int, month: int): (r: Option<seq<Alert>>)
    ensures r.Some? <==> ValidMonth(year, month)
    ensures r.Some? ==> var s := MonthSummary(st, user, year, month);
      (|r.value| > 0 && r.value[0].BudgetExceeded?)
      <==> s.totalIncome > 0 && 10 * s.totalExpenses >= 9 * s.totalIncome
  {
    GetAlerts(st, user, year, month, Config.BudgetAlertPercent, Config.LargeTransactionPercent)
  }

  /** The large-transaction alerts, i.e. everything after the optional budget alert. */
  function LargePart(r: seq<Alert>): seq<Alert> {
    if |r| > 0 && r[0].BudgetExceeded? then r[1..] else r
  }

  /** The large-transaction alerts are exactly the alerts for the month's qualifying
      expenses, in amount-descending order. */
  lemma LargePartIsQuery(st: Store, user: int, year: int, month: int, budgetPercent: real, largePercent: real)
    requires ValidMonth(year, month)
    ensures var s := MonthSummary(st, user, year, month);
      s.totalIncome > 0 ==>
        LargePart(MonthAlerts(st, user, year, month, budgetPercent, largePercent))
        == LargeAlerts(st, LargeExpenses(st, user, year, month, s.totalIncome, largePercent))
  {
  }

  /** A live expense of the month gets a large-transaction alert exactly when the month's
      income is positive and the expense is at least largePercent percent of it. */
  lemma LargeAlertExactly(st: Store, user: int, year: int, month: int, budgetPercent: real, largePercent: real, t: Transaction)
    requires ValidMonth(year, month) && Valid(st) && t in st.transactions
    ensures var s := MonthSummary(st, user, year, month);
      AlertFor(st, t) in MonthAlerts(st, user, year, month, budgetPercent, largePercent)
      <==> s.totalIncome > 0 && Matches(MonthExpenses(user, year, month), t)
           && AtLeastPercent(t.amount, s.totalIncome, largePercent)
  {
    var s := MonthSummary(st, user, year, month);
    var r := MonthAlerts(st, user, year, month, budgetPercent, largePercent);
    if s.totalIncome > 0 {
      var big := LargeExpenses(st, user, year, month, s.totalIncome, largePercent);
      LargePartIsQuery(st, user, year, month, budgetPercent, largePercent);
      InLargePart(r, AlertFor(st, t));
      AlertAmongLarge(st, big, t);
    }
  }

  lemma InLargePart(r: seq<Alert>, a: Alert)
    requires a.LargeTransaction?
    ensures a in r <==> a in LargePart(r)
  {
    if |r| > 0 && r[0].BudgetExceeded? {
      assert r == [r[0]] + r[1..];
    }
  }

  /** Within the store an alert names its record: the alert for t is among the alerts
      for big exactly when t is in big. */
  lemma AlertAmongLarge(st: Store, big: seq<Transaction>, t: Transaction)
    requires Valid(st) && t in st.transactions
    requires forall u :: u in big ==> u in st.transactions
    ensures AlertFor(st, t) in LargeAlerts(st, big) <==> t in big
  {
    var la := LargeAlerts(st, big);
    if AlertFor(st, t) in la {
      var k :| 0 <= k < |la| && la[k] == AlertFor(st, t);
      assert big[k] in big;
      SameIdSameRecord(st, big[k], t);
    }
    if t in big {
      var k :| 0 <= k < |big| && big[k] == t;
      assert la[k] == AlertFor(st, t);
    }
  }

  /** Under the store's invariant an alert's id names one record only. */
  lemma SameIdSameRecord(st: Store, a: Transaction, b: Transaction)
    requires Valid(st) && a in st.transactions && b in st.transactions && a.id == b.id
    ensures a == b
  {
    var i :| 0 <= i < |st.transactions| && st.transactions[i] == a;
    var j :| 0 <= j < |st.transactions| && st.transactions[j] == b;
    assert forall p, q :: 0 <= p < q < |st.transactions| ==> st.transactions[p].id != st.transactions[q].id;
    assert i == j;
  }

  /** Under the default threshold a record is reported exactly when it is one of the
      month's expenses and at least a quarter of the month's income. */
  lemma DefaultLargeAlert(st: Store, user: int, year: int, month: int, t: Transaction)
    requires ValidMonth(year, month) && Valid(st) && t in st.transactions
    ensures var s := MonthSummary(st, user, year, month);
      AlertFor(st, t) in DefaultAlerts(st, user, year, month).value
      <==> s.totalIncome > 0 && Matches(MonthExpenses(user, year, month), t) && 4 * t.amount >= s.totalIncome
  {
    LargeAlertExactly(st, user, year, month, Config.BudgetAlertPercent, Config.LargeTransactionPercent, t);
  }

  /** Large-transaction alerts are informational, come in amount-descending order and name
      distinct records: each qualifying expense is reported once. */
  lemma LargeAlertsOrdered(st: Store, user: int, year: int, month: int, budgetPercent: real, largePercent: real)
    requires ValidMonth(year, month) && Valid(st)
    ensures var l := LargePart(MonthAlerts(st, user, year, month, budgetPercent, largePercent));
      && (forall k :: 0 <= k < |l| ==> l[k].LargeTransaction? && SeverityOf(l[k]) == Info)
      && (forall i, j :: 0 <= i < j < |l| ==> l[i].amount >= l[j].amount)
      && (forall i, j :: 0 <= i < j < |l| ==> l[i].transactionId != l[j].transactionId)
  {
    var s := MonthSummary(st, user, year, month);
    if s.totalIncome > 0 {
      LargePartIsQuery(st, user, year, month, budgetPercent, largePercent);
      LargeAlertsFollow(st, LargeExpenses(st, user, year, month, s.totalIncome, largePercent));
    }
  }

  lemma LargeAlertsFollow(st: Store, big: seq<Transaction>)
    requires SortedBy(big, LargerAmountFirst) && DistinctKeys(big, TransactionId)
    ensures var l := LargeAlerts(st, big);
      && (forall k :: 0 <= k < |l| ==> l[k].LargeTransaction? && SeverityOf(l[k]) == Info)
      && (forall i, j :: 0 <= i < j < |l| ==> l[i].amount >= l[j].amount)
      && (forall i, j :: 0 <= i < j < |l| ==> l[i].transactionId != l[j].transactionId)
  {
    var l := LargeAlerts(st, big);
    forall i, j | 0 <= i < j < |l| ensures l[i].amount >= l[j].amount && l[i].transactionId != l[j].transactionId {
      assert LargerAmountFirst(big[i], big[j]);
      assert TransactionId(big[i]) != TransactionId(big[j]);
    }
  }

  /** The budget alert is the only warning and there is at most one of it. */
  lemma AtMostOneBudgetAlert(st: Store, user: int, year: int, month: int, budgetPercent: real, largePercent: real)
    requires ValidMonth(year, month)
    ensures var r := MonthAlerts(st, user, year, month, budgetPercent, largePercent);
      forall k :: 0 <= k < |r| && SeverityOf(r[k]) == Warning ==> k == 0 && r[k].BudgetExceeded?
  {
  }

  /** Raising the large-transaction threshold never adds an alert. */
  lemma HigherThresholdFewerAlerts(st: Store, user: int, year: int, month: int, income: int, low: real, high: real)
    requires ValidMonth(year, month) && income > 0 && low <= high
    ensures forall t :: t in LargeExpenses(st, user, year, month, income, high)
                    ==> t in LargeExpenses(st, user, year, month, income, low)
  {
    forall t | t in LargeExpenses(st, user, year, month, income, high)
      ensures t in LargeExpenses(st, user, year, month, income, low)
    {
      ThresholdMonotone(t.amount, income, low, high);
    }
  }

  lemma ThresholdMonotone(part: int, whole: int, low: real, high: real)
    requires whole > 0 && low <= high && AtLeastPercent(part, whole, high)
    ensures AtLeastPercent(part, whole, low)
  {
    var w := whole as real;
    assert (high - low) * w >= 0.0;
    assert high * w - low * w == (high - low) * w;
  }
}
