/** The category catalogue: the predefined global categories, the per-user listing, and
    the user's own categories (created with a case-insensitive duplicate check, deleted
    only by their owner). */
module Categories {
  import opened Outcomes
  import opened Text
  import opened Sorting
  import opened Ledger

  const NameRequiredError: string := "Category name is required."

  function DuplicateNameError(name: string): string {
    "A category named '" + name + "' already exists."
  }

  /** The eight names every installation starts with. */
  const PredefinedNames: seq<string> :=
    ["Food", "Transport", "Salary", "Rent", "Utilities", "Entertainment", "Health", "Other"]

  /** A global category with exactly this name (case-sensitive, as the seed query). */
  predicate HasGlobal(cats: seq<Category>, name: string) {
    exists k :: 0 <= k < |cats| && cats[k].owner.None? && cats[k].name == name
  }

  /** One seeding step: adds a global predefined category unless one with that name exists. */
  function SeedOne(st: Store, name: string): (r: Store)
    ensures HasGlobal(r.categories, name)
    ensures r.transactions == st.transactions
    ensures HasGlobal(st.categories, name) ==> r == st
    ensures !HasGlobal(st.categories, name) ==>
      && r.categories == st.categories + [Category(st.nextCategoryId, None, name, true)]
      && r.nextCategoryId == st.nextCategoryId + 1
      && r.nextTransactionId == st.nextTransactionId
  {
    if HasGlobal(st.categories, name) then st
    else
      var cat := Category(st.nextCategoryId, None, name, true);
      var r := st.(categories := st.categories + [cat], nextCategoryId := st.nextCategoryId + 1);
      assert r.categories[|st.categories|] == cat;
      r
  }

  /** Seeds the names in order. */
  function SeedNames(st: Store, names: seq<string>): Store
    decreases |names|
  {
    if |names| == 0 then st else SeedNames(SeedOne(st, names[0]), names[1..])
  }

  /** seed_predefined_categories: afterwards every predefined name has a global category;
      existing categories stay in front, and each added one is a new global predefined
      category whose name had none. */
  function SeedPredefined(st: Store): (r: Store)
    ensures r.transactions == st.transactions
    ensures |st.categories| <= |r.categories| && r.categories[..|st.categories|] == st.categories
    ensures forall n :: n in PredefinedNames ==> HasGlobal(r.categories, n)
    ensures forall k :: |st.categories| <= k < |r.categories| ==>
      && r.categories[k].owner.None? && r.categories[k].predefined
      && r.categories[k].name in PredefinedNames
      && !HasGlobal(r.categories[..k], r.categories[k].name)
  {
    SeedKeeps(st, PredefinedNames);
    SeedAddsOnlyMissing(st, PredefinedNames);
    SeedNames(st, PredefinedNames)
  }

  /** Seeding keeps every existing category in place and at the front, touches no
      transaction, and leaves a global category for every name. */
  lemma {:induction false} SeedKeeps(st: Store, names: seq<string>)
    ensures var r := SeedNames(st, names);
      && r.transactions == st.transactions
      && |st.categories| <= |r.categories|
      && r.categories[..|st.categories|] == st.categories
      && forall n :: n in names ==> HasGlobal(r.categories, n)
    decreases |names|
  {
    if |names| > 0 {
      var s1 := SeedOne(st, names[0]);
      SeedKeeps(s1, names[1..]);
      var r := SeedNames(s1, names[1..]);
      assert r.categories[..|st.categories|] == r.categories[..|s1.categories|][..|st.categories|];
      HasGlobalGrows(s1.categories, r.categories, names[0]);
    }
  }

  lemma HasGlobalGrows(a: seq<Category>, b: seq<Category>, name: string)
    requires |a| <= |b| && b[..|a|] == a && HasGlobal(a, name)
    ensures HasGlobal(b, name)
  {
    var k :| 0 <= k < |a| && a[k].owner.None? && a[k].name == name;
    assert b[k] == a[k];
  }

  /** Every category seeding adds is global and predefined, carries one of the names, and
      is the first global category of that name: nothing is added twice. */
  lemma {:induction false} SeedAddsOnlyMissing(st: Store, names: seq<string>)
    ensures var r := SeedNames(st, names);
      forall k :: |st.categories| <= k < |r.categories| ==>
        && r.categories[k].owner.None? && r.categories[k].predefined
        && r.categories[k].name in names
        && !HasGlobal(r.categories[..k], r.categories[k].name)
    decreases |names|
  {
    if |names| > 0 {
      var s1 := SeedOne(st, names[0]);
      var r := SeedNames(s1, names[1..]);
      SeedAddsOnlyMissing(s1, names[1..]);
      SeedKeeps(s1, names[1..]);
      forall k | |st.categories| <= k < |r.categories|
        ensures r.categories[k].owner.None? && r.categories[k].predefined
        ensures r.categories[k].name in names
        ensures !HasGlobal(r.categories[..k], r.categories[k].name)
      {
        if k < |s1.categories| {
          assert k == |st.categories|;
          assert r.categories[k] == s1.categories[k];
          assert r.categories[..k] == st.categories;
        } else {
          assert r.categories[k].name in names[1..];
        }
      }
    }
  }

  /** A store that already has every name seeded is left as it is. */
  lemma {:induction false} SeedNoOp(st: Store, names: seq<string>)
    requires forall n :: n in names ==> HasGlobal(st.categories, n)
    ensures SeedNames(st, names) == st
    decreases |names|
  {
    if |names| > 0 {
      assert SeedOne(st, names[0]) == st;
      SeedNoOp(st, names[1..]);
    }
  }

  /** Seeding twice adds nothing the first run did not. */
  lemma SeedIdempotent(st: Store)
    ensures SeedPredefined(SeedPredefined(st)) == SeedPredefined(st)
  {
    SeedKeeps(st, PredefinedNames);
    SeedNoOp(SeedPredefined(st), PredefinedNames);
  }

  /** Seeding keeps the store's invariant: new categories are global and fresh. */
  lemma {:induction false} SeedPreservesValid(st: Store, names: seq<string>)
    requires Valid(st)
    ensures Valid(SeedNames(st, names))
    decreases |names|
  {
    if |names| > 0 {
      SeedOnePreservesValid(st, names[0]);
      SeedPreservesValid(SeedOne(st, names[0]), names[1..]);
    }
  }

  lemma SeedOnePreservesValid(st: Store, name: string)
    requires Valid(st)
    ensures Valid(SeedOne(st, name))
  {
    if !HasGlobal(st.categories, name) {
      var cat := Category(st.nextCategoryId, None, name, true);
      AppendCategoryKeepsValid(st, cat);
    }
  }

  /** A category with the next id is fresh; one that is global, or whose owner has no
      category of the same name, keeps the invariant. */
  lemma AppendCategoryKeepsValid(st: Store, cat: Category)
    requires Valid(st) && cat.id == st.nextCategoryId
    requires cat.owner.Some? ==> forall c :: c in st.categories && c.owner == cat.owner ==> !SameIgnoringCase(c.name, cat.name)
    ensures Valid(st.(categories := st.categories + [cat], nextCategoryId := st.nextCategoryId + 1))
  {
    var r := st.(categories := st.categories + [cat], nextCategoryId := st.nextCategoryId + 1);
    var n := |st.categories|;
    assert r.categories[n] == cat;
    assert forall i :: 0 <= i < n ==> r.categories[i] == st.categories[i];
    forall i, j | 0 <= i < |r.transactions| && 0 <= j < |r.categories|
      && r.categories[j].id == r.transactions[i].categoryId
      ensures j < n && Available(r.categories[j], r.transactions[i].owner)
    {
      assert r.transactions[i].categoryId < st.nextCategoryId;
    }
    forall i, j | 0 <= i < j < |r.categories| && r.categories[i].owner.Some?
      && r.categories[i].owner == r.categories[j].owner
      ensures !SameIgnoringCase(r.categories[i].name, r.categories[j].name)
    {
      if j == n {
        assert st.categories[i] in st.categories;
      }
    }
  }

  // ----- Listing -----

  predicate NameFirst(a: Category, b: Category) {
    LexLe(a.name, b.name)
  }

  lemma NameFirstIsTotalPreorder()
    ensures TotalPreorder(NameFirst)
  {
    forall a: Category, b: Category ensures NameFirst(a, b) || NameFirst(b, a) {
      LexLeIsTotalOrder(a.name, b.name, b.name);
    }
    forall a: Category, b: Category, c: Category | NameFirst(a, b) && NameFirst(b, c) ensures NameFirst(a, c) {
      LexLeIsTotalOrder(a.name, b.name, c.name);
    }
  }

  /** The categories a user may see, in store order. */
  function AvailableTo(cats: seq<Category>, user: int): (r: seq<Category>)
    ensures forall c :: c in r <==> c in cats && Available(c, user)
  {
    if |cats| == 0 then []
    else
      var last := cats[|cats| - 1];
      assert cats == cats[..|cats| - 1] + [last];
      AvailableTo(cats[..|cats| - 1], user) + (if Available(last, user) then [last] else [])
  }

  /** get_categories_for_user: the global categories and the user's own, by name. */
  function CategoriesForUser(st: Store, user: int): (r: seq<Category>)
    ensures forall c :: c in r <==> c in st.categories && (c.owner.None? || c.owner == Some(user))
    ensures SortedBy(r, NameFirst)
    ensures multiset(r) == multiset(AvailableTo(st.categories, user))
    ensures forall y :: Peers(r, y, NameFirst) == Peers(AvailableTo(st.categories, user), y, NameFirst)
  {
    NameFirstIsTotalPreorder();
    var avail := AvailableTo(st.categories, user);
    var r := Sort(avail, NameFirst);
    assert forall c :: c in r <==> c in multiset(avail);
    r
  }

  // ----- Create and delete -----

  /** The ilike lookup: one of the user's own categories with this name, ignoring case.
      Global and other users' categories are not consulted. */
  predicate OwnNameTaken(cats: seq<Category>, user: int, name: string) {
    exists c :: c in cats && c.owner == Some(user) && SameIgnoringCase(c.name, name)
  }

  datatype Created = Created(store: Store, category: Category)

  /** create_user_category. An absent name counts as empty. */
  function CreateUserCategory(st: Store, user: int, name: Option<string>): (r: Result<Created>)
    ensures var n := Trim(if name.Some? then name.value else "");
      && (r == Err(NameRequiredError) <==> n == [])
      && (r == Err(DuplicateNameError(n)) <==> n != [] && OwnNameTaken(st.categories, user, n))
      && (r.Ok? <==> n != [] && !OwnNameTaken(st.categories, user, n))
      && (r.Ok? ==>
          && r.value.category == Category(st.nextCategoryId, Some(user), n, false)
          && r.value.store == st.(categories := st.categories + [r.value.category],
                                  nextCategoryId := st.nextCategoryId + 1))
  {
    var n := Trim(if name.Some? then name.value else "");
    if n == [] then Err(NameRequiredError)
    else if OwnNameTaken(st.categories, user, n) then Err(DuplicateNameError(n))
    else
      var cat := Category(st.nextCategoryId, Some(user), n, false);
      assert DuplicateNameError(n) != NameRequiredError by {
        assert DuplicateNameError(n)[0] == 'A' && NameRequiredError[0] == 'C';
      }
      Ok(Created(st.(categories := st.categories + [cat], nextCategoryId := st.nextCategoryId + 1), cat))
  }

  /** A successful create keeps the store's invariant. */
  lemma CreatePreservesValid(st: Store, user: int, name: Option<string>)
    requires Valid(st) && CreateUserCategory(st, user, name).Ok?
    ensures Valid(CreateUserCategory(st, user, name).value.store)
  {
    var cat := CreateUserCategory(st, user, name).value.category;
    forall c | c in st.categories && c.owner == cat.owner ensures !SameIgnoringCase(c.name, cat.name) {
    }
    AppendCategoryKeepsValid(st, cat);
  }

  /** After a create the user cannot create the same name again, in any letter case. */
  lemma CreateThenDuplicate(st: Store, user: int, name: string, again: string)
    requires CreateUserCategory(st, user, Some(name)).Ok?
    requires SameIgnoringCase(Trim(again), Trim(name))
    ensures CreateUserCategory(CreateUserCategory(st, user, Some(name)).value.store, user, Some(again)).Err?
  {
    var created := CreateUserCategory(st, user, Some(name)).value;
    SameIgnoringCaseIsEquivalence(Trim(name), Trim(again), Trim(again));
    assert created.category in created.store.categories;
    if Trim(again) == [] {
    } else {
      assert OwnNameTaken(created.store.categories, user, Trim(again));
    }
  }

  /** delete_user_category: only the owner can delete; the category disappears. */
  function DeleteUserCategory(st: Store, user: int, id: int): (r: (Store, bool))
    ensures r.1 <==> LookupCategory(st.categories, id).Some? && LookupCategory(st.categories, id).value.owner == Some(user)
    ensures !r.1 ==> r.0 == st
    ensures r.1 ==> var k := CategoryIndex(st.categories, id).value;
      r.0 == st.(categories := st.categories[..k] + st.categories[k + 1..])
  {
    match CategoryIndex(st.categories, id)
    case None => (st, false)
    case Some(k) =>
      if st.categories[k].owner != Some(user) then (st, false)
      else (st.(categories := st.categories[..k] + st.categories[k + 1..]), true)
  }

  /** Under the invariant, a delete succeeds exactly for the caller's own category with
      that id; so a global category is never deletable. */
  lemma DeleteOnlyOwn(st: Store, user: int, id: int)
    requires Valid(st)
    ensures DeleteUserCategory(st, user, id).1 <==> exists c :: c in st.categories && c.id == id && c.owner == Some(user)
  {
    var cats := st.categories;
    if exists c :: c in cats && c.id == id && c.owner == Some(user) {
      var c :| c in cats && c.id == id && c.owner == Some(user);
      var m :| 0 <= m < |cats| && cats[m] == c;
      var k := CategoryIndex(cats, id).value;
      assert forall i, j :: 0 <= i < j < |cats| ==> cats[i].id != cats[j].id;
      assert m == k;
    }
  }

  /** Under the invariant, a successful delete removes the category with that id and no
      other, and leaves the transactions alone. */
  lemma DeleteRemovesExactly(st: Store, user: int, id: int, c: Category)
    requires CategoriesValid(st) && DeleteUserCategory(st, user, id).1
    ensures c in DeleteUserCategory(st, user, id).0.categories <==> c in st.categories && c.id != id
    ensures DeleteUserCategory(st, user, id).0.transactions == st.transactions
  {
    var k := CategoryIndex(st.categories, id).value;
    RemoveAt(st.categories, k, c);
  }

  /** Removing position k of a sequence with distinct ids removes exactly the entries
      with that position's id. */
  lemma RemoveAt(cats: seq<Category>, k: nat, c: Category)
    requires k < |cats|
    requires forall i, j :: 0 <= i < j < |cats| ==> cats[i].id != cats[j].id
    ensures c in cats[..k] + cats[k + 1..] <==> c in cats && c.id != cats[k].id
  {
    var rest := cats[..k] + cats[k + 1..];
    if c in cats && c.id != cats[k].id {
      var m :| 0 <= m < |cats| && cats[m] == c;
      if m < k {
        assert rest[m] == c;
      } else {
        assert rest[m - 1] == c;
      }
    }
    if c in rest {
      var m :| 0 <= m < |rest| && rest[m] == c;
      var m' := if m < k then m else m + 1;
      assert cats[m'] == c;
    }
  }

  /** Deleting a category keeps the store's invariant. */
  lemma DeletePreservesValid(st: Store, user: int, id: int)
    requires Valid(st)
    ensures Valid(DeleteUserCategory(st, user, id).0)
  {
    var (r, ok) := DeleteUserCategory(st, user, id);
    if ok {
      RemovalKeepsValid(st, CategoryIndex(st.categories, id).value);
    }
  }

  lemma RemovalKeepsValid(st: Store, k: nat)
    requires Valid(st) && k < |st.categories|
    ensures Valid(st.(categories := st.categories[..k] + st.categories[k + 1..]))
  {
    var cats := st.categories;
    var rest := cats[..k] + cats[k + 1..];
    assert forall m :: 0 <= m < |rest| ==> rest[m] == cats[if m < k then m else m + 1];
    RemovalKeepsCategoriesValid(st, k);
    RemovalKeepsLinks(st, k);
  }

  lemma RemovalKeepsCategoriesValid(st: Store, k: nat)
    requires CategoriesValid(st) && k < |st.categories|
    ensures CategoriesValid(st.(categories := st.categories[..k] + st.categories[k + 1..]))
  {
    var cats := st.categories;
    var rest := cats[..k] + cats[k + 1..];
    forall i, j | 0 <= i < j < |rest|
      ensures rest[i].id != rest[j].id
      ensures rest[i].owner.Some? && rest[i].owner == rest[j].owner ==> !SameIgnoringCase(rest[i].name, rest[j].name)
    {
      var i' := if i < k then i else i + 1;
      var j' := if j < k then j else j + 1;
      assert rest[i] == cats[i'] && rest[j] == cats[j'] && i' < j';
    }
    assert forall m :: 0 <= m < |rest| ==> rest[m] in cats;
  }

  lemma RemovalKeepsLinks(st: Store, k: nat)
    requires LinksValid(st) && k < |st.categories|
    ensures LinksValid(st.(categories := st.categories[..k] + st.categories[k + 1..]))
  {
    var cats := st.categories;
    var rest := cats[..k] + cats[k + 1..];
    assert forall m :: 0 <= m < |rest| ==> rest[m] == cats[if m < k then m else m + 1];
  }
}
