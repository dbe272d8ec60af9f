/** The ledger's records and the in-memory store that stands in for the database:
    transactions (soft-deleted by status), categories (global or per user), and the
    selection and summation every read path shares. */
module Ledger {
  import opened Outcomes
  import opened Text
  import opened Dates

  datatype TxType = Income | Expense

  /** The soft-delete marker: a Deleted record is kept but hidden from every read path
      except the lookup by id. */
  datatype Status = Active | Deleted

  /** One ledger entry. The amount is in cents and carries no sign: `kind` says whether
      it is money in or money out. */
  datatype Transaction = Transaction(
    id: int,
    owner: int,
    amount: int,
    kind: TxType,
    categoryId: int,
    description: Option<string>,
    date: Date,
    status: Status)

  /** A category; `owner == None` marks a global one, shared by every user. */
  datatype Category = Category(id: int, owner: Option<int>, name: string, predefined: bool)

  /** The persisted records plus the next identities the database would hand out. */
  datatype Store = Store(
    transactions: seq<Transaction>,
    categories: seq<Category>,
    nextTransactionId: int,
    nextCategoryId: int)

  /** A category the user may see and use: a global one or the user's own. */
  predicate Available(c: Category, user: int) {
    c.owner.None? || c.owner == Some(user)
  }

  /** A stored description is absent or already stripped and non-empty. */
  predicate NormalDescription(d: Option<string>) {
    d.Some? ==> |d.value| > 0 && !IsSpace(d.value[0]) && !IsSpace(d.value[|d.value| - 1])
  }

  predicate TransactionsValid(st: Store) {
    && st.nextTransactionId >= 1
    && (forall i, j :: 0 <= i < j < |st.transactions| ==> st.transactions[i].id != st.transactions[j].id)
    && (forall i :: 0 <= i < |st.transactions| ==>
          && 1 <= st.transactions[i].id < st.nextTransactionId
          && st.transactions[i].amount > 0
          && ValidDate(st.transactions[i].date)
          && 1 <= st.transactions[i].categoryId < st.nextCategoryId
          && NormalDescription(st.transactions[i].description))
  }

  predicate CategoriesValid(st: Store) {
    && st.nextCategoryId >= 1
    && (forall i, j :: 0 <= i < j < |st.categories| ==> st.categories[i].id != st.categories[j].id)
    && (forall i :: 0 <= i < |st.categories| ==> 1 <= st.categories[i].id < st.nextCategoryId)
    && (forall i, j :: 0 <= i < j < |st.categories| && st.categories[i].owner.Some?
          && st.categories[i].owner == st.categories[j].owner
          ==> !SameIgnoringCase(st.categories[i].name, st.categories[j].name))
  }

  /** Every transaction's category, while it exists, is one its owner may use. */
  predicate LinksValid(st: Store) {
    forall i, j :: 0 <= i < |st.transactions| && 0 <= j < |st.categories|
      && st.categories[j].id == st.transactions[i].categoryId
      ==> Available(st.categories[j], st.transactions[i].owner)
  }

  /** What the database and the services keep true of the stored records. */
  predicate Valid(st: Store) {
    TransactionsValid(st) && CategoriesValid(st) && LinksValid(st)
  }

  /** The empty database: identities start at 1. */
  function EmptyStore(): (st: Store)
    ensures Valid(st)
  {
    Store([], [], 1, 1)
  }

  /** Position of the record whose primary key is id (the database's primary-key lookup),
      for any record type with an integer key. */
  function IndexOfKey<T>(s: seq<T>, key: T -> int, id: int): (r: Option<nat>)
    ensures r.Some? ==> r.value < |s| && key(s[r.value]) == id
    ensures r.None? ==> forall k :: 0 <= k < |s| ==> key(s[k]) != id
  {
    if |s| == 0 then None
    else if key(s[|s| - 1]) == id then Some(|s| - 1)
    else IndexOfKey(s[..|s| - 1], key, id)
  }

  function TransactionIndex(s: seq<Transaction>, id: int): (r: Option<nat>)
    ensures r.Some? ==> r.value < |s| && s[r.value].id == id
    ensures r.None? ==> forall k :: 0 <= k < |s| ==> s[k].id != id
  {
    IndexOfKey(s, (t: Transaction) => t.id, id)
  }

  function CategoryIndex(s: seq<Category>, id: int): (r: Option<nat>)
    ensures r.Some? ==> r.value < |s| && s[r.value].id == id
    ensures r.None? ==> forall k :: 0 <= k < |s| ==> s[k].id != id
  {
    IndexOfKey(s, (c: Category) => c.id, id)
  }

  /** db.get(Category, id). */
  function LookupCategory(s: seq<Category>, id: int): (r: Option<Category>)
    ensures r.Some? ==> r.value in s && r.value.id == id
    ensures r.None? ==> forall c :: c in s ==> c.id != id
  {
    match CategoryIndex(s, id)
    case None => None
    case Some(k) => Some(s[k])
  }

  /** The WHERE clauses the read paths put together. Absent fields do not filter. */
  datatype Criteria = Criteria(
    owner: int,
    from: Option<Date>,
    to: Option<Date>,
    categoryId: Option<int>,
    kind: Option<TxType>)

  predicate Matches(c: Criteria, t: Transaction) {
    && t.owner == c.owner
    && t.status == Active
    && (c.from.Some? ==> DateLe(c.from.value, t.date))
    && (c.to.Some? ==> DateLe(t.date, c.to.value))
    && (c.categoryId.Some? ==> t.categoryId == c.categoryId.value)
    && (c.kind.Some? ==> t.kind == c.kind.value)
  }

  /** The records of s that match, in store order. */
  function Select(s: seq<Transaction>, c: Criteria): (r: seq<Transaction>)
    ensures |r| <= |s|
    ensures forall t :: t in r <==> t in s && Matches(c, t)
  {
    if |s| == 0 then []
    else
      var t := s[|s| - 1];
      assert s == s[..|s| - 1] + [t];
      Select(s[..|s| - 1], c) + (if Matches(c, t) then [t] else [])
  }

  /** SUM(amount), with COALESCE(…, 0) for no rows. */
  function Sum(s: seq<Transaction>): int {
    if |s| == 0 then 0 else Sum(s[..|s| - 1]) + s[|s| - 1].amount
  }

  lemma {:induction false} SumAppend(a: seq<Transaction>, b: seq<Transaction>)
    ensures Sum(a + b) == Sum(a) + Sum(b)
    decreases |b|
  {
    if |b| == 0 {
      assert a + b == a;
    } else {
      assert (a + b)[..|a + b| - 1] == a + b[..|b| - 1];
      SumAppend(a, b[..|b| - 1]);
    }
  }

  /** Sums of positive amounts are positive unless empty. */
  lemma {:induction false} SumPositive(s: seq<Transaction>)
    requires forall k :: 0 <= k < |s| ==> s[k].amount > 0
    ensures Sum(s) >= 0
    ensures |s| > 0 ==> Sum(s) >= s[0].amount
    ensures forall k :: 0 <= k < |s| ==> Sum(s) >= s[k].amount
    decreases |s|
  {
    if |s| > 0 {
      var p := s[..|s| - 1];
      SumPositive(p);
      assert forall k :: 0 <= k < |p| ==> p[k] == s[k];
    }
  }

  /** Selecting from a store with distinct records gives distinct records. */
  lemma {:induction false} SelectDistinctIds(s: seq<Transaction>, c: Criteria)
    requires forall i, j :: 0 <= i < j < |s| ==> s[i].id != s[j].id
    ensures forall i, j :: 0 <= i < j < |Select(s, c)| ==> Select(s, c)[i].id != Select(s, c)[j].id
    decreases |s|
  {
    if |s| > 0 {
      var p := s[..|s| - 1];
      var t := s[|s| - 1];
      SelectDistinctIds(p, c);
      var r := Select(s, c);
      var rp := Select(p, c);
      assert forall k :: 0 <= k < |rp| ==> rp[k] in p;
      assert forall k :: 0 <= k < |rp| ==> rp[k].id != t.id by {
        forall k | 0 <= k < |rp| ensures rp[k].id != t.id {
          var m :| 0 <= m < |p| && p[m] == rp[k];
          assert s[m] == p[m];
        }
      }
    }
  }

  /** A record whose replacement no longer matches drops out of the sum over the selection;
      nothing else changes. */
  lemma {:induction false} SumSelectReplace(s: seq<Transaction>, c: Criteria, i: nat, t': Transaction)
    requires i < |s| && !Matches(c, t')
    ensures Sum(Select(s[i := t'], c)) == Sum(Select(s, c)) - (if Matches(c, s[i]) then s[i].amount else 0)
    decreases |s|
  {
    var s' := s[i := t'];
    var n := |s|;
    SumSelectLast(s, c);
    SumSelectLast(s', c);
    if i == n - 1 {
      assert s'[..n - 1] == s[..n - 1];
    } else {
      assert s'[..n - 1] == s[..n - 1][i := t'];
      SumSelectReplace(s[..n - 1], c, i, t');
    }
  }

  /** The selected total grows by the last transaction exactly when it matches. */
  lemma SumSelectLast(s: seq<Transaction>, c: Criteria)
    requires |s| > 0
    ensures Sum(Select(s, c)) == Sum(Select(s[..|s| - 1], c)) + (if Matches(c, s[|s| - 1]) then s[|s| - 1].amount else 0)
  {
    var last := s[|s| - 1];
    var tail := if Matches(c, last) then [last] else [];
    assert Select(s, c) == Select(s[..|s| - 1], c) + tail;
    SumAppend(Select(s[..|s| - 1], c), tail);
  }
}
