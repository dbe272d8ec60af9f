/** The transaction service: validated create and update, lookup, soft delete, and the
    filtered, newest-first, paginated listing. */
module Transactions {
  import opened Outcomes
  import opened Text
  import opened Dates
  import opened Money
  import opened Sorting
  import opened Ledger
  import Config

  const AmountError := "Amount must be a positive number."
  const TypeError := "Type must be income or expense."
  const CategoryRequiredError := "Category is required."
  const DateError := "Transaction date is required."
  const InvalidCategoryError := "Invalid category."
  const NotFoundError := "Transaction not found."

  /** Python truthiness of an optional form field: sent and non-empty. */
  predicate Present(v: Option<string>) {
    v.Some? && v.value != ""
  }

  /** TransactionType(value): only the two member values themselves are accepted. */
  function ParseType(s: string): (r: Option<TxType>)
    ensures r == Some(Income) <==> s == "income"
    ensures r == Some(Expense) <==> s == "expense"
  {
    if s == "income" then Some(Income) else if s == "expense" then Some(Expense) else None
  }

  /** The amount check shared by create and update. */
  predicate PositiveAmount(amount: Option<string>) {
    ParseAmount(amount).Some? && ParseAmount(amount).value > 0
  }

  /** A missing type falls back; a sent one must name a member. */
  predicate TypeAccepted(type_: Option<string>) {
    !Present(type_) || ParseType(type_.value).Some?
  }

  function ChosenType(type_: Option<string>, fallback: TxType): (k: TxType)
    requires TypeAccepted(type_)
    ensures !Present(type_) ==> k == fallback
    ensures Present(type_) ==> Some(k) == ParseType(type_.value)
  {
    if Present(type_) then ParseType(type_.value).value else fallback
  }

  /** On create, the category id is int(field) when the field is sent; an unparsable or
      missing field gives no id. */
  function CreateCategoryChoice(categoryId: Option<string>): (r: Option<int>)
    ensures !Present(categoryId) ==> r.None?
    ensures r.Some? ==> Present(categoryId) && |Trim(categoryId.value)| > 0
    ensures Present(categoryId) && AllSpace(categoryId.value) ==> r.None?
    ensures r.Some? <==> Present(categoryId) && IntSpelling(Trim(categoryId.value))
  {
    if Present(categoryId) then ParseInt(categoryId.value) else None
  }

  /** A category id sent as its decimal spelling is read back as that id. */
  lemma CreateCategoryChoiceReads(n: int)
    ensures CreateCategoryChoice(Some(FormatInt(n))) == Some(n)
  {
    ParseFormatInt(n);
  }

  /** On update, a missing or unparsable category id keeps the record's current one. */
  function UpdateCategoryChoice(categoryId: Option<string>, current: int): (r: int)
    ensures !Present(categoryId) ==> r == current
    ensures Present(categoryId) && ParseInt(categoryId.value).None? ==> r == current
    ensures Present(categoryId) && ParseInt(categoryId.value).Some? ==> r == ParseInt(categoryId.value).value
    ensures Present(categoryId) && !IntSpelling(Trim(categoryId.value)) ==> r == current
  {
    if Present(categoryId) then
      match ParseInt(categoryId.value)
      case Some(n) => n
      case None => current
    else current
  }

  /** An update that sends digits, behind an optional sign and with any whitespace around
      them, sets the record's category id to their value, whatever it was before. */
  lemma UpdateCategoryChoiceReads(pre: string, sign: string, d: string, post: string, current: int)
    requires AllSpace(pre) && AllSpace(post) && SignText(sign)
    requires |d| > 0 && AllDigits(d)
    ensures UpdateCategoryChoice(Some(pre + sign + d + post), current) == Signed(sign, DigitsValue(d))
  {
    ParseIntSpelled(pre, sign, d, post);
  }

  /** A description is stored stripped of surrounding whitespace; a missing or blank one
      is stored as no description. */
  function NormalizeDescription(d: Option<string>): (r: Option<string>)
    ensures NormalDescription(r)
    ensures r.None? <==> d.None? || AllSpace(d.value)
    ensures r.Some? ==> r.value == Trim(d.value)
  {
    var t := Trim(if d.Some? then d.value else "");
    if t == "" then None else Some(t)
  }

  /** The category exists and is global or the user's own. */
  predicate CategoryUsable(st: Store, user: int, id: int) {
    LookupCategory(st.categories, id).Some? && Available(LookupCategory(st.categories, id).value, user)
  }

  /** The store after a successful write, and the written record. */
  datatype Saved = Saved(store: Store, record: Transaction)

  /** create_transaction: the checks run in the order amount, type, category id, date,
      category ownership, and the first one that fails names the error. */
  function CreateTransaction(
    st: Store, user: int,
    amount: Option<string>, type_: Option<string>, categoryId: Option<string>,
    description: Option<string>, date: Option<string>): (r: Result<Saved>)
    ensures r == Err(AmountError) <==> !PositiveAmount(amount)
    ensures r == Err(TypeError) <==> PositiveAmount(amount) && !TypeAccepted(type_)
    ensures r == Err(CategoryRequiredError) <==>
      PositiveAmount(amount) && TypeAccepted(type_)
      && (CreateCategoryChoice(categoryId).None? || CreateCategoryChoice(categoryId) == Some(0))
    ensures r == Err(DateError) <==>
      PositiveAmount(amount) && TypeAccepted(type_)
      && CreateCategoryChoice(categoryId).Some? && CreateCategoryChoice(categoryId) != Some(0)
      && ParseDate(date).None?
    ensures r == Err(InvalidCategoryError) <==>
      PositiveAmount(amount) && TypeAccepted(type_)
      && CreateCategoryChoice(categoryId).Some? && CreateCategoryChoice(categoryId) != Some(0)
      && ParseDate(date).Some? && !CategoryUsable(st, user, CreateCategoryChoice(categoryId).value)
    ensures r.Ok? <==>
      PositiveAmount(amount) && TypeAccepted(type_)
      && CreateCategoryChoice(categoryId).Some? && CreateCategoryChoice(categoryId) != Some(0)
      && ParseDate(date).Some? && CategoryUsable(st, user, CreateCategoryChoice(categoryId).value)
    ensures r.Ok? ==>
      && r.value.record == Transaction(
           st.nextTransactionId, user, ParseAmount(amount).value, ChosenType(type_, Expense),
           CreateCategoryChoice(categoryId).value, NormalizeDescription(description),
           ParseDate(date).value, Active)
      && r.value.store == st.(transactions := st.transactions + [r.value.record],
                              nextTransactionId := st.nextTransactionId + 1)
  {
    var cents := ParseAmount(amount);
    if cents.None? || cents.value <= 0 then Err(AmountError)
    else if !TypeAccepted(type_) then Err(TypeError)
    else
      var catId := CreateCategoryChoice(categoryId);
      if catId.None? || catId.value == 0 then Err(CategoryRequiredError)
      else
        var day := ParseDate(date);
        if day.None? then Err(DateError)
        else if !CategoryUsable(st, user, catId.value) then Err(InvalidCategoryError)
        else
          var t := Transaction(st.nextTransactionId, user, cents.value, ChosenType(type_, Expense),
                               catId.value, NormalizeDescription(description), day.value, Active);
          Ok(Saved(st.(transactions := st.transactions + [t], nextTransactionId := st.nextTransactionId + 1), t))
  }

  /** Owned by the user and not soft-deleted: what every read path may show. */
  predicate VisibleTo(t: Transaction, user: int) {
    t.owner == user && t.status == Active
  }

  /** get_transaction: missing, foreign and deleted records all read as "not found". */
  function GetTransaction(st: Store, user: int, id: int): (r: Option<Transaction>)
    ensures r.Some? ==> r.value in st.transactions && r.value.id == id && VisibleTo(r.value, user)
    ensures TransactionsValid(st) && r.None? ==>
      forall t :: t in st.transactions && t.id == id ==> !VisibleTo(t, user)
  {
    match TransactionIndex(st.transactions, id)
    case None => None
    case Some(k) =>
      var t := st.transactions[k];
      if VisibleTo(t, user) then Some(t)
      else
        assert TransactionsValid(st) ==> forall j :: 0 <= j < |st.transactions| && st.transactions[j].id == id ==> j == k;
        None
  }

  /** update_transaction: "not found" first, then the create checks, except that a missing
      type or category id (or an unparsable id) keeps the record's current value. */
  function UpdateTransaction(
    st: Store, user: int, id: int,
    amount: Option<string>, type_: Option<string>, categoryId: Option<string>,
    description: Option<string>, date: Option<string>): (r: Result<Saved>)
    ensures r == Err(NotFoundError) <==> GetTransaction(st, user, id).None?
    ensures r == Err(AmountError) <==> GetTransaction(st, user, id).Some? && !PositiveAmount(amount)
    ensures r == Err(TypeError) <==>
      GetTransaction(st, user, id).Some? && PositiveAmount(amount) && !TypeAccepted(type_)
    ensures r == Err(CategoryRequiredError) <==>
      GetTransaction(st, user, id).Some? && PositiveAmount(amount) && TypeAccepted(type_)
      && UpdateCategoryChoice(categoryId, GetTransaction(st, user, id).value.categoryId) == 0
    ensures r == Err(DateError) <==>
      GetTransaction(st, user, id).Some? && PositiveAmount(amount) && TypeAccepted(type_)
      && UpdateCategoryChoice(categoryId, GetTransaction(st, user, id).value.categoryId) != 0
      && ParseDate(date).None?
    ensures r == Err(InvalidCategoryError) <==>
      GetTransaction(st, user, id).Some? && PositiveAmount(amount) && TypeAccepted(type_)
      && UpdateCategoryChoice(categoryId, GetTransaction(st, user, id).value.categoryId) != 0
      && ParseDate(date).Some?
      && !CategoryUsable(st, user, UpdateCategoryChoice(categoryId, GetTransaction(st, user, id).value.categoryId))
    ensures r.Ok? <==>
      GetTransaction(st, user, id).Some? && PositiveAmount(amount) && TypeAccepted(type_)
      && UpdateCategoryChoice(categoryId, GetTransaction(st, user, id).value.categoryId) != 0
      && ParseDate(date).Some?
      && CategoryUsable(st, user, UpdateCategoryChoice(categoryId, GetTransaction(st, user, id).value.categoryId))
    ensures r.Ok? ==>
      var old_ := GetTransaction(st, user, id).value;
      && old_ in st.transactions
      && r.value.record == old_.(
           amount := ParseAmount(amount).value,
           kind := ChosenType(type_, old_.kind),
           categoryId := UpdateCategoryChoice(categoryId, old_.categoryId),
           description := NormalizeDescription(description),
           date := ParseDate(date).value)
      && r.value.store.categories == st.categories
      && r.value.store.nextTransactionId == st.nextTransactionId
      && r.value.store.nextCategoryId == st.nextCategoryId
      && TransactionIndex(st.transactions, id).Some?
      && st.transactions[TransactionIndex(st.transactions, id).value] == old_
      && r.value.store.transactions == st.transactions[TransactionIndex(st.transactions, id).value := r.value.record]
  {
    match TransactionIndex(st.transactions, id)
    case None => Err(NotFoundError)
    case Some(k) =>
      var t := st.transactions[k];
      if !VisibleTo(t, user) then Err(NotFoundError)
      else
        var cents := ParseAmount(amount);
        if cents.None? || cents.value <= 0 then Err(AmountError)
        else if !TypeAccepted(type_) then Err(TypeError)
        else
          var catId := UpdateCategoryChoice(categoryId, t.categoryId);
          if catId == 0 then Err(CategoryRequiredError)
          else
            var day := ParseDate(date);
            if day.None? then Err(DateError)
            else if !CategoryUsable(st, user, catId) then Err(InvalidCategoryError)
            else
              var t' := t.(amount := cents.value, kind := ChosenType(type_, t.kind), categoryId := catId,
                           description := NormalizeDescription(description), date := day.value);
              Ok(Saved(st.(transactions := st.transactions[k := t']), t'))
  }

  /** soft_delete_transaction: marks a visible record Deleted and answers true; anything
      else (missing, foreign, already deleted) answers false and changes nothing. */
  function SoftDeleteTransaction(st: Store, user: int, id: int): (r: (Store, bool))
    ensures r.1 <==> GetTransaction(st, user, id).Some?
    ensures !r.1 ==> r.0 == st
    ensures r.1 ==>
      && TransactionIndex(st.transactions, id).Some?
      && var k := TransactionIndex(st.transactions, id).value;
         r.0 == st.(transactions := st.transactions[k := st.transactions[k].(status := Deleted)])
  {
    match TransactionIndex(st.transactions, id)
    case None => (st, false)
    case Some(k) =>
      var t := st.transactions[k];
      if !VisibleTo(t, user) then (st, false)
      else (st.(transactions := st.transactions[k := t.(status := Deleted)]), true)
  }

  /** The listing order, newest date first and the higher id first within one date:
      `NewestFirst(a, b)` when a may be listed before b. */
  predicate NewestFirst(a: Transaction, b: Transaction) {
    if a.date == b.date then a.id >= b.id else DateLe(b.date, a.date)
  }

  lemma NewestFirstIsTotalPreorder()
    ensures TotalPreorder(NewestFirst)
  {
    forall a: Transaction, b: Transaction, c: Transaction
      ensures NewestFirst(a, b) || NewestFirst(b, a)
      ensures NewestFirst(a, b) && NewestFirst(b, c) ==> NewestFirst(a, c)
    {
      DateLeIsTotalOrder(a.date, b.date, c.date);
      DateLeIsTotalOrder(c.date, b.date, a.date);
      DateLeIsTotalOrder(a.date, c.date, b.date);
    }
  }

  /** The listing's query: unparsable dates and unknown type names are dropped filters. */
  function ListCriteria(
    user: int, dateFrom: Option<string>, dateTo: Option<string>,
    categoryId: Option<int>, typeFilter: Option<string>): Criteria
  {
    Criteria(user, ParseDate(dateFrom), ParseDate(dateTo), categoryId,
             if Present(typeFilter) then ParseType(typeFilter.value) else None)
  }

  /** The caller's matching records, newest first. */
  function Ordered(st: Store, c: Criteria): (r: seq<Transaction>)
    ensures SortedBy(r, NewestFirst)
    ensures multiset(r) == multiset(Select(st.transactions, c))
    ensures |r| == |Select(st.transactions, c)|
    ensures forall t :: t in r <==> t in st.transactions && Matches(c, t)
  {
    NewestFirstIsTotalPreorder();
    var r := Sort(Select(st.transactions, c), NewestFirst);
    assert forall t :: t in r <==> t in multiset(r);
    r
  }

  /** The number of pages: enough full pages of perPage items to hold every row, and
      one (empty) page when there are no rows. */
  function PageCount(total: nat, perPage: nat): (n: nat)
    requires perPage >= 1
    ensures n >= 1
    ensures total == 0 ==> n == 1
    ensures total > 0 ==> (n - 1) * perPage < total <= n * perPage
  {
    if total == 0 then 1
    else
      var n := (total + perPage - 1) / perPage;
      var rem := (total + perPage - 1) % perPage;
      assert total + perPage - 1 == n * perPage + rem;
      n
  }

  /** OFFSET (page - 1) * per_page. */
  function PageOffset(page: nat, perPage: nat): nat
    requires page >= 1
  {
    (page - 1) * perPage
  }

  /** OFFSET … LIMIT per_page: the window [lo, hi) of s, clipped to its length. */
  function PageBounds(n: nat, page: nat, perPage: nat): (b: (nat, nat))
    requires page >= 1 && perPage >= 1
    ensures b.0 <= b.1 <= n
    ensures b.1 - b.0 <= perPage
    ensures PageOffset(page, perPage) >= n ==> b.0 == b.1
    ensures PageOffset(page, perPage) < n ==>
      b.0 == PageOffset(page, perPage)
      && b.1 - b.0 == (if n - PageOffset(page, perPage) < perPage then n - PageOffset(page, perPage) else perPage)
  {
    var offset := PageOffset(page, perPage);
    if offset >= n then (n, n)
    else if offset + perPage <= n then (offset, offset + perPage)
    else (offset, n)
  }

  datatype Listing = Listing(items: seq<Transaction>, total: nat, totalPages: nat)

  /** list_transactions. The router guarantees page >= 1 and per_page >= 1. */
  function ListTransactions(
    st: Store, user: int, page: nat, perPage: nat,
    dateFrom: Option<string>, dateTo: Option<string>,
    categoryId: Option<int>, typeFilter: Option<string>): (r: Listing)
    requires page >= 1 && perPage >= 1
    ensures r.total == |Select(st.transactions, ListCriteria(user, dateFrom, dateTo, categoryId, typeFilter))|
    ensures r.totalPages == PageCount(r.total, perPage)
    ensures forall t :: t in r.items ==>
      t in st.transactions && Matches(ListCriteria(user, dateFrom, dateTo, categoryId, typeFilter), t)
    ensures SortedBy(r.items, NewestFirst)
    ensures |r.items| <= perPage
    ensures PageOffset(page, perPage) >= r.total ==> r.items == []
    ensures PageOffset(page, perPage) < r.total ==>
      |r.items| == (if r.total - PageOffset(page, perPage) < perPage then r.total - PageOffset(page, perPage) else perPage)
    ensures var b := PageBounds(r.total, page, perPage);
      r.items == Ordered(st, ListCriteria(user, dateFrom, dateTo, categoryId, typeFilter))[b.0..b.1]
  {
    var c := ListCriteria(user, dateFrom, dateTo, categoryId, typeFilter);
    var all := Ordered(st, c);
    var b := PageBounds(|all|, page, perPage);
    var items := all[b.0..b.1];
    SortedSlice(all, b.0, b.1, NewestFirst);
    forall t | t in items ensures t in all {
      var j :| 0 <= j < |items| && items[j] == t;
      assert all[b.0 + j] == t;
    }
    Listing(items, |all|, PageCount(|all|, perPage))
  }

  /** The listing with the service's default page size of 20 items. */
  function DefaultListing(
    st: Store, user: int, page: nat,
    dateFrom: Option<string>, dateTo: Option<string>,
    categoryId: Option<int>, typeFilter: Option<string>): (r: Listing)
    requires page >= 1
    ensures r.total == |Select(st.transactions, ListCriteria(user, dateFrom, dateTo, categoryId, typeFilter))|
    ensures |r.items| <= 20
    ensures r.total > 0 ==> (r.totalPages - 1) * 20 < r.total <= r.totalPages * 20
    ensures r.total == 0 ==> r.totalPages == 1
    ensures var b := PageBounds(r.total, page, 20);
      r.items == Ordered(st, ListCriteria(user, dateFrom, dateTo, categoryId, typeFilter))[b.0..b.1]
  {
    ListTransactions(st, user, page, Config.DefaultPageSize, dateFrom, dateTo, categoryId, typeFilter)
  }

  /** get_recent_transactions: the newest `limit` visible records. */
  function RecentTransactions(st: Store, user: int, limit: nat): (r: seq<Transaction>)
    ensures |r| == if |Select(st.transactions, Criteria(user, None, None, None, None))| < limit
                   then |Select(st.transactions, Criteria(user, None, None, None, None))| else limit
    ensures forall t :: t in r ==> t in st.transactions && VisibleTo(t, user)
    ensures SortedBy(r, NewestFirst)
  {
    var all := Ordered(st, Criteria(user, None, None, None, None));
    var r := if |all| <= limit then all else all[..limit];
    assert forall k :: 0 <= k < |r| ==> r[k] == all[k];
    assert forall t :: t in r ==> t in all;
    r
  }

  /** A usable category id names exactly one stored category, which the user may use. */
  lemma UsableCategoryIsUnique(st: Store, user: int, id: int)
    requires CategoriesValid(st) && CategoryUsable(st, user, id)
    ensures 1 <= id < st.nextCategoryId
    ensures forall j :: 0 <= j < |st.categories| && st.categories[j].id == id ==> Available(st.categories[j], user)
  {
    var c := LookupCategory(st.categories, id).value;
    var k :| 0 <= k < |st.categories| && st.categories[k] == c;
    assert forall j :: 0 <= j < |st.categories| && st.categories[j].id == id ==> j == k;
  }

  /** What a record needs for the store to stay valid once it is written. */
  predicate Storable(st: Store, t: Transaction) {
    && t.amount > 0
    && ValidDate(t.date)
    && 1 <= t.categoryId < st.nextCategoryId
    && NormalDescription(t.description)
    && (forall j :: 0 <= j < |st.categories| && st.categories[j].id == t.categoryId
          ==> Available(st.categories[j], t.owner))
  }

  lemma AppendKeepsValid(st: Store, t: Transaction)
    requires Valid(st) && Storable(st, t) && t.id == st.nextTransactionId
    ensures Valid(st.(transactions := st.transactions + [t], nextTransactionId := st.nextTransactionId + 1))
  {
    var st' := st.(transactions := st.transactions + [t], nextTransactionId := st.nextTransactionId + 1);
    var n := |st.transactions|;
    assert forall i :: 0 <= i < n ==> st'.transactions[i] == st.transactions[i];
    assert st'.transactions[n] == t;
    assert forall i :: 0 <= i < n ==> st'.transactions[i].id < t.id;
    assert TransactionsValid(st');
    assert LinksValid(st');
  }

  lemma ReplaceKeepsValid(st: Store, k: nat, t: Transaction)
    requires Valid(st) && k < |st.transactions| && Storable(st, t)
    requires t.id == st.transactions[k].id
    ensures Valid(st.(transactions := st.transactions[k := t]))
  {
    var st' := st.(transactions := st.transactions[k := t]);
    assert forall i :: 0 <= i < |st.transactions| && i != k ==> st'.transactions[i] == st.transactions[i];
    assert st'.transactions[k] == t;
    assert TransactionsValid(st');
    assert LinksValid(st');
  }

  /** A successful create keeps the store valid. */
  lemma CreatePreservesValid(
    st: Store, user: int,
    amount: Option<string>, type_: Option<string>, categoryId: Option<string>,
    description: Option<string>, date: Option<string>)
    requires Valid(st)
    ensures var r := CreateTransaction(st, user, amount, type_, categoryId, description, date);
      r.Ok? ==> Valid(r.value.store)
  {
    var r := CreateTransaction(st, user, amount, type_, categoryId, description, date);
    if r.Ok? {
      CreatedIsStorable(st, user, amount, type_, categoryId, description, date);
      var t := r.value.record;
      assert t.id == st.nextTransactionId;
      assert r.value.store == st.(transactions := st.transactions + [t], nextTransactionId := st.nextTransactionId + 1);
      AppendKeepsValid(st, t);
    }
  }

  lemma CreatedIsStorable(
    st: Store, user: int,
    amount: Option<string>, type_: Option<string>, categoryId: Option<string>,
    description: Option<string>, date: Option<string>)
    requires Valid(st)
    ensures var r := CreateTransaction(st, user, amount, type_, categoryId, description, date);
      r.Ok? ==> Storable(st, r.value.record)
  {
    var r := CreateTransaction(st, user, amount, type_, categoryId, description, date);
    if r.Ok? {
      UsableCategoryIsUnique(st, user, r.value.record.categoryId);
    }
  }

  /** A created record can be read back by its new id. */
  lemma CreatedIsRetrievable(
    st: Store, user: int,
    amount: Option<string>, type_: Option<string>, categoryId: Option<string>,
    description: Option<string>, date: Option<string>)
    ensures var r := CreateTransaction(st, user, amount, type_, categoryId, description, date);
      r.Ok? ==> GetTransaction(r.value.store, user, r.value.record.id) == Some(r.value.record)
  {
    var r := CreateTransaction(st, user, amount, type_, categoryId, description, date);
    if r.Ok? {
      AppendedIsFound(st, user, r.value.record);
    }
  }

  /** A visible record appended last is the one found under its id. */
  lemma AppendedIsFound(st: Store, user: int, t: Transaction)
    requires VisibleTo(t, user)
    ensures GetTransaction(st.(transactions := st.transactions + [t],
                               nextTransactionId := st.nextTransactionId + 1), user, t.id) == Some(t)
  {
    var ts := st.transactions + [t];
    assert ts[|ts| - 1] == t;
    assert TransactionIndex(ts, t.id) == Some(|ts| - 1);
  }

  /** A successful update keeps the store valid. */
  lemma UpdatePreservesValid(
    st: Store, user: int, id: int,
    amount: Option<string>, type_: Option<string>, categoryId: Option<string>,
    description: Option<string>, date: Option<string>)
    requires Valid(st)
    ensures var r := UpdateTransaction(st, user, id, amount, type_, categoryId, description, date);
      r.Ok? ==> Valid(r.value.store)
  {
    var r := UpdateTransaction(st, user, id, amount, type_, categoryId, description, date);
    if r.Ok? {
      var k := TransactionIndex(st.transactions, id).value;
      UsableCategoryIsUnique(st, user, r.value.record.categoryId);
      ReplaceKeepsValid(st, k, r.value.record);
    }
  }

  /** A soft delete keeps the store valid. */
  lemma SoftDeletePreservesValid(st: Store, user: int, id: int)
    requires Valid(st)
    ensures Valid(SoftDeleteTransaction(st, user, id).0)
  {
    var r := SoftDeleteTransaction(st, user, id);
    if r.1 {
      var k := TransactionIndex(st.transactions, id).value;
      assert forall i :: 0 <= i < |st.transactions| && i != k ==> r.0.transactions[i] == st.transactions[i];
    }
  }

  /** Deleting twice: the second call finds nothing, and the record no longer reads back. */
  lemma SoftDeleteIsFinal(st: Store, user: int, id: int)
    requires Valid(st)
    requires SoftDeleteTransaction(st, user, id).1
    ensures var st' := SoftDeleteTransaction(st, user, id).0;
      && GetTransaction(st', user, id).None?
      && SoftDeleteTransaction(st', user, id) == (st', false)
  {
    var st' := SoftDeleteTransaction(st, user, id).0;
    var k := TransactionIndex(st.transactions, id).value;
    assert st'.transactions[k].status == Deleted;
    SoftDeletePreservesValid(st, user, id);
    assert forall j :: 0 <= j < |st'.transactions| && st'.transactions[j].id == id ==> j == k;
  }

  /** After a soft delete the record is in no selection at all, and every sum over a
      selection drops by its amount exactly when it used to count. */
  lemma SoftDeleteLeavesReads(st: Store, user: int, id: int, c: Criteria)
    requires Valid(st)
    requires SoftDeleteTransaction(st, user, id).1
    ensures var t := GetTransaction(st, user, id).value;
      var st' := SoftDeleteTransaction(st, user, id).0;
      && (forall x :: x in Select(st'.transactions, c) ==> x.id != id)
      && Sum(Select(st'.transactions, c)) == Sum(Select(st.transactions, c)) - (if Matches(c, t) then t.amount else 0)
  {
    var t := GetTransaction(st, user, id).value;
    var st' := SoftDeleteTransaction(st, user, id).0;
    var k := TransactionIndex(st.transactions, id).value;
    assert st.transactions[k] == t;
    SumSelectReplace(st.transactions, c, k, t.(status := Deleted));
    assert forall j :: 0 <= j < |st'.transactions| && st'.transactions[j].id == id ==> j == k;
  }

  /** Integer division pins the page: q * per <= i < q * per + per means q == i / per. */
  lemma DivisionPinsQuotient(i: nat, per: nat, q: int)
    requires per >= 1 && q * per <= i < q * per + per
    ensures q == i / per
  {
    var d := i / per;
    assert i == d * per + i % per;
    if q < d {
      MulMonotone(q + 1, d, per);
    } else if q > d {
      MulMonotone(d + 1, q, per);
    }
  }

  lemma MulMonotone(a: int, b: int, per: nat)
    requires a <= b
    ensures a * per <= b * per
  {
  }

  /** The page, counted from 1, that shows position i of the ordered listing. */
  function PageOf(i: nat, perPage: nat): (p: nat)
    requires perPage >= 1
    ensures p >= 1
  {
    i / perPage + 1
  }

  /** Position i of the ordered listing is shown on page PageOf(i, perPage) and no other. */
  lemma PageOfPosition(all: seq<Transaction>, perPage: nat, p: nat, i: nat)
    requires perPage >= 1 && p >= 1
    requires NoDuplicates(all) && i < |all|
    ensures var b := PageBounds(|all|, p, perPage);
      all[i] in all[b.0..b.1] <==> p == PageOf(i, perPage)
  {
    var b := PageBounds(|all|, p, perPage);
    var offset := PageOffset(p, perPage);
    assert b.0 <= i < b.1 <==> offset <= i < offset + perPage;
    PageWindow(i, perPage, p);
    if all[i] in all[b.0..b.1] {
      var j :| b.0 <= j < b.1 && all[j] == all[i];
      assert j == i;
    }
    if b.0 <= i < b.1 {
      assert all[b.0..b.1][i - b.0] == all[i];
    }
  }

  /** Page p's window [(p - 1) * perPage, p * perPage) holds position i exactly when p is
      i's page. */
  lemma PageWindow(i: nat, perPage: nat, p: nat)
    requires perPage >= 1 && p >= 1
    ensures PageOffset(p, perPage) <= i < PageOffset(p, perPage) + perPage <==> p == PageOf(i, perPage)
  {
    var offset := PageOffset(p, perPage);
    if offset <= i < offset + perPage {
      DivisionPinsQuotient(i, perPage, p - 1);
    }
    if p == PageOf(i, perPage) {
      assert i == (i / perPage) * perPage + i % perPage;
      assert offset == (i / perPage) * perPage;
    }
  }

  /** The record t is among the items of page p of the listing. */
  predicate OnPage(st: Store, user: int, p: nat, perPage: nat,
    dateFrom: Option<string>, dateTo: Option<string>,
    categoryId: Option<int>, typeFilter: Option<string>, t: Transaction)
    requires perPage >= 1
  {
    1 <= p && t in ListTransactions(st, user, p, perPage, dateFrom, dateTo, categoryId, typeFilter).items
  }

  /** Page p is between the first page and the reported page count. */
  predicate PageExists(st: Store, user: int, p: nat, perPage: nat,
    dateFrom: Option<string>, dateTo: Option<string>,
    categoryId: Option<int>, typeFilter: Option<string>)
    requires perPage >= 1
  {
    1 <= p <= ListTransactions(st, user, 1, perPage, dateFrom, dateTo, categoryId, typeFilter).totalPages
  }

  /** Every record the filters select is listed on some existing page. */
  lemma ListedOnSomePage(
    st: Store, user: int, perPage: nat,
    dateFrom: Option<string>, dateTo: Option<string>,
    categoryId: Option<int>, typeFilter: Option<string>, t: Transaction)
    requires Valid(st) && perPage >= 1
    requires t in st.transactions && Matches(ListCriteria(user, dateFrom, dateTo, categoryId, typeFilter), t)
    ensures exists p: nat :: (PageExists(st, user, p, perPage, dateFrom, dateTo, categoryId, typeFilter)
      && OnPage(st, user, p, perPage, dateFrom, dateTo, categoryId, typeFilter, t))
  {
    var all := Ordered(st, ListCriteria(user, dateFrom, dateTo, categoryId, typeFilter));
    var i :| 0 <= i < |all| && all[i] == t;
    var p: nat := PageOf(i, perPage);
    ListedOnPage(st, user, perPage, p, dateFrom, dateTo, categoryId, typeFilter, i);
    PageWithinCount(st, user, perPage, dateFrom, dateTo, categoryId, typeFilter, i);
    assert OnPage(st, user, p, perPage, dateFrom, dateTo, categoryId, typeFilter, t);
  }

  /** The page of position i is one the listing reports. */
  lemma PageWithinCount(
    st: Store, user: int, perPage: nat,
    dateFrom: Option<string>, dateTo: Option<string>,
    categoryId: Option<int>, typeFilter: Option<string>, i: nat)
    requires perPage >= 1
    requires i < |Ordered(st, ListCriteria(user, dateFrom, dateTo, categoryId, typeFilter))|
    ensures PageExists(st, user, PageOf(i, perPage), perPage, dateFrom, dateTo, categoryId, typeFilter)
  {
    var n := |Ordered(st, ListCriteria(user, dateFrom, dateTo, categoryId, typeFilter))|;
    var q := PageOf(i, perPage);
    LastPageBound(n, perPage, i);
    assert 1 <= q <= PageCount(n, perPage);
    ListingPageCount(st, user, perPage, dateFrom, dateTo, categoryId, typeFilter);
    assert 1 <= q <= ListTransactions(st, user, 1, perPage, dateFrom, dateTo, categoryId, typeFilter).totalPages;
  }

  lemma ListingPageCount(
    st: Store, user: int, perPage: nat,
    dateFrom: Option<string>, dateTo: Option<string>,
    categoryId: Option<int>, typeFilter: Option<string>)
    requires perPage >= 1
    ensures ListTransactions(st, user, 1, perPage, dateFrom, dateTo, categoryId, typeFilter).totalPages
      == PageCount(|Ordered(st, ListCriteria(user, dateFrom, dateTo, categoryId, typeFilter))|, perPage)
  {
  }

  /** No record appears on two different pages of the same listing. */
  lemma ListedOnOnePage(
    st: Store, user: int, perPage: nat, p: nat, q: nat,
    dateFrom: Option<string>, dateTo: Option<string>,
    categoryId: Option<int>, typeFilter: Option<string>, t: Transaction)
    requires Valid(st) && perPage >= 1
    requires OnPage(st, user, p, perPage, dateFrom, dateTo, categoryId, typeFilter, t)
    requires OnPage(st, user, q, perPage, dateFrom, dateTo, categoryId, typeFilter, t)
    ensures p == q
  {
    var all := Ordered(st, ListCriteria(user, dateFrom, dateTo, categoryId, typeFilter));
    var i :| 0 <= i < |all| && all[i] == t;
    ListedOnPage(st, user, perPage, p, dateFrom, dateTo, categoryId, typeFilter, i);
    ListedOnPage(st, user, perPage, q, dateFrom, dateTo, categoryId, typeFilter, i);
  }

  lemma ListedOnPage(
    st: Store, user: int, perPage: nat, p: nat,
    dateFrom: Option<string>, dateTo: Option<string>,
    categoryId: Option<int>, typeFilter: Option<string>, i: nat)
    requires Valid(st) && perPage >= 1 && p >= 1
    requires i < |Ordered(st, ListCriteria(user, dateFrom, dateTo, categoryId, typeFilter))|
    ensures Ordered(st, ListCriteria(user, dateFrom, dateTo, categoryId, typeFilter))[i]
              in ListTransactions(st, user, p, perPage, dateFrom, dateTo, categoryId, typeFilter).items
            <==> p == PageOf(i, perPage)
  {
    var all := Ordered(st, ListCriteria(user, dateFrom, dateTo, categoryId, typeFilter));
    OrderedHasNoDuplicates(st, ListCriteria(user, dateFrom, dateTo, categoryId, typeFilter));
    PageOfPosition(all, perPage, p, i);
  }

  lemma OrderedHasNoDuplicates(st: Store, c: Criteria)
    requires Valid(st)
    ensures NoDuplicates(Ordered(st, c))
  {
    SelectDistinctIds(st.transactions, c);
    assert NoDuplicates(Select(st.transactions, c));
    PermutationNoDuplicates(Select(st.transactions, c), Ordered(st, c));
  }

  /** Position i < total lies on a page no later than the last one. */
  lemma LastPageBound(total: nat, perPage: nat, i: nat)
    requires perPage >= 1 && i < total
    ensures PageOf(i, perPage) <= PageCount(total, perPage)
  {
    var p := PageOf(i, perPage);
    var pages := PageCount(total, perPage);
    assert i == (i / perPage) * perPage + i % perPage;
    if p > pages { MulMonotone(pages, p - 1, perPage); }
  }

  /** The dashboard's recent list is the first page of the unfiltered listing. */
  lemma RecentIsFirstPage(st: Store, user: int, limit: nat)
    requires limit >= 1
    ensures RecentTransactions(st, user, limit) == ListTransactions(st, user, 1, limit, None, None, None, None).items
  {
    assert ListCriteria(user, None, None, None, None) == Criteria(user, None, None, None, None);
  }
}
