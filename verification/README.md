# FinanceTracker ledger core in Dafny

A model of the ledger logic of the FinanceTracker personal-finance application:

- the transaction service: validated create and update, lookup, soft delete, and the
  filtered, newest-first, paginated listing;
- the insights service: income and expense totals, net savings, savings rate and the
  per-category spending breakdown over an inclusive date range or one calendar month;
- the alert engine: the budget-exceeded rule and the large-transaction rule for a month;
- the category catalogue: predefined seeding, the per-user listing, duplicate-checked
  create and owner-only delete;
- the configuration module's database-URL rewrite and its defaults (page size 20, budget
  threshold 90 %, large-transaction threshold 25 %: `Config.DefaultPageSize`,
  `Config.BudgetAlertPercent`, `Config.LargeTransactionPercent`), which
  `Transactions.DefaultListing`, `Alerts.DefaultAlerts` and `Alerts.DefaultLargeAlert` use.

The database is replaced by an immutable `Ledger.Store`: a sequence of transactions, a
sequence of categories and the next identities the database would hand out. Every service
call is a pure function from a store and its inputs to a result (and a new store for
writes). `Ledger.Valid` collects what the services keep true of the stored records
(unique ids, positive amounts, valid dates, normalised descriptions, categories usable by
their transactions' owners, no two own categories of one user with the same name up to
letter case), and each write is proved to preserve it.

Representation choices:

- Money is integer cents: amounts are stored as `Numeric(12,2)`
  (app/models/transaction.py:22).
- A soft-deleted record carries `Status.Deleted` instead of a `deleted_at` timestamp.
- Form fields are `Option<string>`: `None` is a field that was not sent.
- Percentages (savings rate, breakdown share, budget share) are integers in tenths of a
  percent, i.e. rounded to one decimal as the source's `round(x, 1)` does. Thresholds
  stay `real` and comparisons against them are exact.
- Python's exceptions become `Option`/`Result` values. For example, `date(year, month, 1)`
  raising for an impossible month makes `Insights.MonthlySummary` and `Alerts.GetAlerts`
  return `None`.
- Where the database leaves an order open, the model fixes it:
  - rows with equal sort keys keep store order, because `Sorting.Sort` is a stable
    insertion sort;
  - `GROUP BY category_id` yields groups in order of each id's first appearance.

Three behaviours of the code worth knowing:

- Global category names are not checked for case-insensitive uniqueness. Seeding compares
  exact names, and create consults only the caller's own categories.
- A large-transaction alert carries no percent-of-income field; that share appears only
  in its message text.
- The breakdown's percentages add up to 100.0 only within half a tenth per row, not within
  one rounding unit overall (`Insights.BreakdownPercentsNearHundred`).

## Model

| member | source | states |
|---|---|---|
| Money.ParseAmount | app/services/transactions.py:12-18 | an absent, empty or all-whitespace amount field parses to no amount; otherwise the field parses exactly when its whitespace-stripped text is an optional sign, ASCII digits with at most one "." and at most two digits after it, and at least one digit |
| Money.ParsePaddedCents | app/services/transactions.py:12-18 | an amount written with two decimals parses back to itself whatever whitespace surrounds it, because the field is stripped first |
| Money.ParseAmountDotted | app/services/transactions.py:12-18 | digits, a dot and at most two fraction digits, after an optional "+" or "-" and with any whitespace around them, parse to the amount they denote: in cents, with the sign undone and scaled by 10 to the number of fraction digits, it is 100 times the digits read without the dot ("12.5" is 1250, ".5" is 50, "-3.07" is -307) |
| Money.ParseAmountWhole | app/services/transactions.py:12-18 | digits without a dot, after an optional sign and with any whitespace around them, parse to that many whole units ("0" is 0 cents, "+3" is 300, "-5" is -500) |
| Money.ParseFormatCents | app/services/transactions.py:12-18 | every cent value, written as a decimal with two fraction digits, parses back to itself |
| Money.RoundedTenthsPercent | app/services/insights.py:55 | the percent part/whole·100 rounded to one decimal: the result is within half a tenth of the exact value |
| Money.RoundedTenthsExact | app/services/insights.py:55 | a percent that is already a whole number of tenths is reported unchanged |
| Dates.DaysInMonth | app/services/insights.py:18 | the Gregorian month length: 31 days for January, March, May, July, August, October and December, 30 for April, June, September and November, and for February 29 in leap years and 28 otherwise |
| Dates.YearLength | app/services/insights.py:18 | the twelve month lengths add up to 366 days in a leap year and 365 otherwise |
| Dates.ParseIsoDate | app/services/transactions.py:25 | a parsed date is a real calendar date, and the text accepted is exactly that date's ISO spelling "YYYY-MM-DD" |
| Dates.ParseDate | app/services/transactions.py:21-27 | an absent, empty or blank field gives no date; any date produced is a real calendar date whose ISO spelling is exactly the stripped field, so any other text gives no date |
| Dates.ParseFormatDate | app/services/transactions.py:25 | every valid date written as YYYY-MM-DD parses back to itself |
| Dates.ParseDateFormatted | app/services/transactions.py:21-27 | the field parser accepts the ISO spelling of any valid date with any whitespace around it, and returns that date |
| Dates.MonthRangeIsMonth | app/services/insights.py:16-19 | a valid date lies in [first day, last day] of a month exactly when it has that year and month |
| Dates.FebruaryEnd | app/services/insights.py:18 | February's range ends on the 29th in leap years and on the 28th otherwise, and the 29th exists only in leap years |
| Text.Trim | app/services/transactions.py:64 | strip removes exactly the leading and trailing whitespace; the result is empty iff the text is all whitespace |
| Text.TrimIdempotent | app/services/categories.py:41 | stripping a stripped name changes nothing |
| Text.ParseInt | app/services/transactions.py:47 | a blank string reads as no integer; a string is read exactly when its stripped text is one or more digits, optionally after a single leading "+" or "-", and a negative value only after "-" |
| Text.ParseIntSpelled | app/services/transactions.py:47 | digits after an optional sign, leading zeros included and with any whitespace around them, read as their value, negated after "-" |
| Text.ParseFormatInt | app/services/transactions.py:47 | every integer written in decimal is read back by the id parser |
| Text.SameIgnoringCaseIsEquivalence | app/services/categories.py:47 | the case-insensitive name match is reflexive, symmetric and transitive |
| Text.LexLeIsTotalOrder | app/services/categories.py:34 | ordering by name is total, antisymmetric and transitive |
| Sorting.Sort | app/services/insights.py:88 | the stable sort returns an ordered permutation of its input in which records with equal keys keep their input order |
| Ledger.Select | app/services/transactions.py:90-105 | a record is selected exactly when it is stored, owned by the caller, not deleted and passes every given filter (inclusive date bounds, exact category, exact type) |
| Ledger.LookupCategory | app/services/transactions.py:56 | the lookup by id returns a stored category with that id, and none only when no stored category has it |
| Transactions.ParseType | app/services/transactions.py:43-45 | a sent type is accepted exactly when it is "income" or "expense" |
| Transactions.ChosenType | app/services/transactions.py:43 | an absent or empty type falls back to the given default; a sent one is the parsed member |
| Transactions.CreateCategoryChoice | app/services/transactions.py:46-49 | a missing or empty field gives no category id, as does a blank one; an id is read exactly when the field is present and its stripped text is digits after an optional sign, so non-integer text leads to "Category is required." |
| Transactions.CreateCategoryChoiceReads | app/services/transactions.py:46-49 | a category id sent as its decimal spelling is read back as that id |
| Transactions.UpdateCategoryChoice | app/services/transactions.py:136-139 | on update an absent, empty or non-integer category id keeps the record's current id; an integer replaces it |
| Transactions.UpdateCategoryChoiceReads | app/services/transactions.py:136-139 | an update whose category id is digits after an optional sign, with any whitespace around them, sets the record's id to their value, negated after "-" |
| Transactions.NormalizeDescription | app/services/transactions.py:64 | the stored description is none exactly when the field is absent or blank, otherwise the stripped text |
| Transactions.CreateTransaction | app/services/transactions.py:30-70 | each error message is returned exactly when its check is the first to fail, in the order amount, type, category id, date, category ownership; the call succeeds exactly when every check passes, and success appends one record with the next id, the parsed fields and status Active, and nothing else changes |
| Transactions.GetTransaction | app/services/transactions.py:73-77 | the result is the stored record with that id, owned by the caller and not deleted; missing, foreign and deleted records all read as none |
| Transactions.UpdateTransaction | app/services/transactions.py:116-155 | "not found" comes first, then the create checks in order with the fallbacks for type and category; the call succeeds exactly when the record is visible and every check passes, and success replaces only amount, type, category, description and date of that one record |
| Transactions.SoftDeleteTransaction | app/services/transactions.py:158-164 | answers true exactly when the record is visible to the caller; then only its status changes, otherwise the store is unchanged |
| Transactions.Ordered | app/services/transactions.py:108 | the selection ordered newest first (date descending, then id descending), as a permutation of the selected records |
| Transactions.PageCount | app/services/transactions.py:112 | the page count is 1 for no records and otherwise the least n with total ≤ n·perPage, so never 0 |
| Transactions.PageBounds | app/services/transactions.py:109 | the slice starts at (page−1)·perPage and holds at most perPage records, none past the end |
| Transactions.ListTransactions | app/services/transactions.py:80-113 | total is the filtered count before slicing; totalPages follows it; items are the page's slice of the newest-first ordering and all match the filters |
| Transactions.DefaultListing | app/services/transactions.py:80-113 | with the default page size of 20: at most 20 items, total counts every matching record, the page count is the least that holds them all (1 when there are none), and the items are that page's slice of the newest-first ordering |
| Transactions.RecentTransactions | app/services/transactions.py:167-174 | the newest min(limit, count) live records of the caller, newest first |
| Transactions.CreatePreservesValid | app/services/transactions.py:59-69 | a successful create keeps the store's invariant |
| Transactions.CreatedIsRetrievable | app/services/transactions.py:59-77 | a created record reads back by its new id |
| Transactions.UpdatePreservesValid | app/services/transactions.py:145-153 | a successful update keeps the store's invariant |
| Transactions.SoftDeletePreservesValid | app/services/transactions.py:158-164 | a soft delete keeps the store's invariant |
| Transactions.SoftDeleteIsFinal | app/services/transactions.py:158-164 | after a delete the record no longer reads back and a second delete answers false and changes nothing |
| Transactions.SoftDeleteLeavesReads | app/services/transactions.py:90-93 | after a delete the record is in no selection, and every sum over a selection drops by its amount exactly when it used to count |
| Transactions.PageOfPosition | app/services/transactions.py:109 | position i of the ordering is on page p exactly when p = i / perPage + 1 |
| Transactions.ListedOnSomePage | app/services/transactions.py:106-112 | every selected record appears on some page between 1 and totalPages |
| Transactions.ListedOnOnePage | app/services/transactions.py:108-109 | no record appears on two different pages |
| Transactions.RecentIsFirstPage | app/services/transactions.py:167-174 | the recent list is the first page of the unfiltered listing with perPage = limit |
| Insights.SavingsRate | app/services/insights.py:50-55 | the rate is 0 when income ≤ 0, otherwise net/income·100 to within half a tenth |
| Insights.RangeSummary | app/services/insights.py:23-56 | totals are the sums of the caller's live income and expense records dated in [from, to]; net is income − expenses; the rate follows them |
| Insights.MonthlySummary | app/services/insights.py:12-20 | defined exactly for a year in 1..9999 and a month in 1..12, and then the range summary from the month's first to its last day |
| Insights.MonthlySummaryCountsMonth | app/services/insights.py:16-20 | the month's range selects exactly the caller's live records of that kind dated in that year and month |
| Insights.SummaryPartitionsRange | app/services/insights.py:27-48 | income plus expenses is the sum over all of the caller's live records in the range: every record counts in exactly one total |
| Insights.SummaryBounds | app/services/insights.py:47-50 | totals are never negative, net never exceeds income, the savings rate never exceeds 100.0 % |
| Insights.EmptyRangeSummary | app/services/insights.py:27-56 | an empty date range (from after to) gives zero totals, zero net and a zero rate |
| Insights.GroupIds | app/services/insights.py:73 | one group per distinct category id among the selected records, no id twice |
| Insights.CategoryName | app/services/insights.py:79-80 | the category's name, or "Unknown" when no category has the id |
| Insights.Share | app/services/insights.py:81-86 | 0 when the grand total is 0, otherwise part/whole·100 to within half a tenth |
| Insights.CategoryBreakdown | app/services/insights.py:59-89 | the rows sorted by total descending, as a permutation of the query's rows that keeps query order among equal totals |
| Insights.BreakdownTotalsMatchSummary | app/services/insights.py:76 | the row totals add up to the range summary's expense total |
| Insights.BreakdownRows | app/services/insights.py:64-87 | each row's total is the sum of the caller's live expenses in range with that category; its name is the category's or "Unknown"; its percent is its share of total spending; some such expense exists |
| Insights.BreakdownCoversSpending | app/services/insights.py:64-75 | every category the caller spent on in the range has a row |
| Insights.BreakdownOneRowPerCategory | app/services/insights.py:73 | no category id has two rows |
| Insights.BreakdownPercentsNearHundred | app/services/insights.py:76-86 | with positive spending the percentages add up to 100.0 within half a tenth per row |
| Alerts.MonthSummary | app/services/alerts.py:23-25 | both rules read exactly the monthly summary of that month |
| Alerts.AtLeastShare | app/services/alerts.py:43-56 | keeps exactly the records whose amount is at least pct percent of income (inclusive) |
| Alerts.LargeExpenses | app/services/alerts.py:48-60 | exactly the caller's live expenses of the month at or above the threshold, largest first, each record once |
| Alerts.CategoryNameOf | app/services/alerts.py:72 | the record's category name, or none when the category does not exist |
| Alerts.AlertFor | app/services/alerts.py:63-73 | a large-transaction alert is informational and carries the record's id, amount, date and description, and its category's name exactly when that category exists |
| Alerts.LargeAlerts | app/services/alerts.py:61-73 | one alert per large record, in the records' order |
| Alerts.MonthAlerts | app/services/alerts.py:26-75 | no alerts when income ≤ 0; a leading budget alert exactly when expenses reach the budget percent of income, carrying the rounded share and the threshold; everything after it is a large-transaction alert |
| Alerts.GetAlerts | app/services/alerts.py:14-25 | an impossible year or month is an error; otherwise the month's alerts |
| Alerts.DefaultAlerts | app/config.py:33-36 | with the configured thresholds: alerts exist exactly for a possible year and month, and the budget alert is raised exactly when income is positive and expenses are at least 90 % of it |
| Alerts.LargePartIsQuery | app/services/alerts.py:42-73 | with positive income the alerts after the budget alert are one per large expense, in the query's order |
| Alerts.LargeAlertExactly | app/services/alerts.py:42-73 | a stored record gets a large-transaction alert exactly when income is positive, it is a live expense of the caller in that month and its amount reaches the large percent of income |
| Alerts.DefaultLargeAlert | app/services/alerts.py:42-73 | with the configured 25 % threshold, a stored record is reported exactly when it is one of the owner's live expenses in the month and at least a quarter of the month's positive income |
| Alerts.LargeAlertsOrdered | app/services/alerts.py:58-73 | large-transaction alerts have severity info, come in amount-descending order and name distinct records |
| Alerts.AtMostOneBudgetAlert | app/services/alerts.py:28-39 | the only warning is the budget alert, and it can only be the first alert |
| Alerts.HigherThresholdFewerAlerts | app/services/alerts.py:43-56 | raising the large-transaction percent never adds a record to the large query |
| Categories.SeedPredefined | app/services/categories.py:14-25 | afterwards each of the eight names has a global category; existing categories stay in front, transactions are untouched, and each added category is global, predefined, one of the names, and the first global one of its name |
| Categories.SeedOne | app/services/categories.py:16-24 | one seed step adds a global predefined category only when no global category has that exact name, and afterwards one does |
| Categories.SeedKeeps | app/services/categories.py:14-25 | seeding keeps every existing category in place, touches no transaction and leaves a global category for every name |
| Categories.SeedAddsOnlyMissing | app/services/categories.py:14-25 | every category seeding adds is global, predefined, carries one of the names, and no global category of that name existed before it |
| Categories.SeedNoOp | app/services/categories.py:16-24 | when every name already has a global category, seeding changes nothing |
| Categories.SeedIdempotent | app/services/categories.py:14-25 | a second seeding run adds nothing |
| Categories.SeedPreservesValid | app/services/categories.py:14-25 | seeding keeps the store's invariant |
| Categories.CategoriesForUser | app/services/categories.py:28-36 | exactly the global categories and the caller's own, ordered by name, keeping store order among equal names |
| Categories.CreateUserCategory | app/services/categories.py:39-56 | a blank name is "required"; a name matching one of the caller's own categories up to letter case is a duplicate; otherwise one own, non-predefined category with the stripped name and the next id is appended and nothing else changes |
| Categories.CreatePreservesValid | app/services/categories.py:52-56 | a successful create keeps the store's invariant |
| Categories.CreateThenDuplicate | app/services/categories.py:44-51 | once a name is created, the same name in any letter case is refused for that user |
| Categories.DeleteUserCategory | app/services/categories.py:59-66 | answers true exactly when the category exists and is owned by the caller; then exactly that entry is removed, otherwise nothing changes |
| Categories.DeleteOnlyOwn | app/services/categories.py:59-63 | a delete succeeds exactly for the caller's own category with that id, so global categories are never deletable |
| Categories.DeleteRemovesExactly | app/services/categories.py:64-66 | after a delete the remaining categories are exactly those with another id, and transactions are untouched |
| Categories.DeletePreservesValid | app/services/categories.py:59-66 | a delete keeps the store's invariant |
| Config.NormalizeDatabaseUrl | app/config.py:14-18 | a "postgres://" URL comes out starting with "postgresql://" and naming an sslmode; any other URL keeps its text as a prefix; any PostgreSQL URL ends up naming an sslmode |
| Config.NormalizeScheme | app/config.py:14-15 | a "postgres://" URL gets the "postgresql://" scheme with the rest unchanged; other URLs are untouched; no result starts with "postgres://" |
| Config.EnsureSsl | app/config.py:17-18 | the input is always a prefix of the result; the URL changes exactly when it names postgresql but no sslmode, and then gains "sslmode=require" after "&" when it already has a "?" and after "?" otherwise; afterwards a PostgreSQL URL always names an sslmode and still names postgresql |
| Config.NormalizeSchemeIdempotent | app/config.py:14-15 | the scheme rewrite applied twice equals applying it once |
| Config.EnsureSslIdempotent | app/config.py:17-18 | the SSL step applied twice equals applying it once |
| Config.NormalizeDatabaseUrlIdempotent | app/config.py:14-18 | the two rewrite steps applied to their own output change nothing |
| Config.OtherUrlsUnchanged | app/config.py:14-18 | a URL that is not PostgreSQL, such as a SQLite one, passes through both steps unchanged |

## Left out

- Float arithmetic and Python's `round` (app/services/insights.py:50, 81; app/services/alerts.py:30, 43, 56) are not modelled: shares are computed exactly and rounded to the nearest tenth, and on an exact tie the contracts allow either neighbour. The model does not reproduce binary-float or half-to-even artefacts, nor `Decimal(str(float))` in the threshold.
- Money.ParseAmount: accepts only an optional sign, ASCII digits and at most two fraction digits. `Decimal` also reads non-ASCII decimal digits (Arabic-Indic, fullwidth and so on), which the model rejects. Forms that `Decimal` also reads are rejected: exponents, "NaN", "Infinity", underscores, and more than two fraction digits (which the column would round). The column's 12-digit overflow is not modelled.
- Dates.ParseDate: accepts only the YYYY-MM-DD form, not the extended forms newer `date.fromisoformat` versions read.
- Text.ParseInt: reads an optional sign and decimal digits around whitespace, without underscores or non-ASCII digits.
- Text.Trim: whitespace is the set `str.strip` removes within Latin-1; other Unicode spaces are not stripped.
- Text.SameIgnoringCase: `ilike` is modelled as ASCII case-insensitive equality. The `%` and `_` wildcards and non-ASCII case folding are not modelled.
- Text.LexLe: `ORDER BY name` is ordered by code point; database collations are not modelled.
- Database constraints are not modelled: the case-sensitive unique (user_id, name) constraint (app/models/category.py:18) and the RESTRICT foreign key (app/models/transaction.py:27).
- Categories.DeleteUserCategory: the source's delete fails at flush whenever live or soft-deleted transactions reference the category, but the model lets it succeed. Deleting the parent first sets the children's `category_id` to NULL, and that column is NOT NULL (app/models/transaction.py:26-28), so the flush fails even where the foreign key is not enforced.
- Column lengths are not modelled: the model accepts a description longer than `String(500)` (app/models/transaction.py:29) and a category name longer than `String(100)` (app/models/category.py:15), which a database enforcing lengths would refuse.
- `scalar_one_or_none` raising on several matches (app/services/categories.py:22, 49) is not modelled. Under the model's invariant the create lookup cannot match twice, and the seed lookup matches twice only when global names were duplicated outside the service.
- Order among SQL rows that tie on the sort key (equal amounts, equal names) is left to store order, and GROUP BY returns groups in first-appearance order. The database promises neither.
- `date.today()` is not modelled: the defaults for year and month (app/services/alerts.py:20-22) do not exist in the model. Year and month are explicit parameters, so a year or month of 0 is an error rather than "current".
- The thresholds are parameters of the alert functions instead of values read from the environment. Their defaults are the constants in `Config`.
- Alert titles and messages, and the transaction's percent-of-income inside the large-transaction message, are formatted text and are left out.
- Timestamps (`created_at`, the `deleted_at` value) are not modelled: only the fact of deletion is kept.
- The SQLite relative-path rewrite (app/config.py:19-22) depends on the filesystem and is left out.
- Routers, the application entry point, authentication, CSRF, the models' declarations and the database-inspection script are plumbing around the core and are left out.
