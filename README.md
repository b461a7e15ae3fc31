# Expense tracker: a verified model of `script.js`

This is a model of the browser expense tracker's application logic, taken from
the single script that drives the page. The page keeps a list of expense
records (id, amount, category, date, description) in storage. It has five parts:

- an entry form that validates and appends a record;
- delete and clear-all buttons and a demo loader;
- a list that shows the records newest first, narrowed by a category selector
  and a case-insensitive search box;
- a running total and a pie chart of per-category totals, coloured from a
  nine-colour palette;
- a CSV export.

The page passes a record's description and each chart legend label through
`escapeHtml` before putting them into its HTML. The amount, the date and the
id are inserted without escaping. The form's date defaults to today's date,
written as `YYYY-MM-DD`.

Modules, one per file:

- `Optional` (`option.dfy`): the `Option` type.
- `Seqs` (`seqs.dfy`): `Array.prototype.filter` as `Filter`, and sums.
- `Strings` (`strings.dfy`): `toLowerCase`, `includes`, `trim`, `join`,
  `split`, and text order.
- `Numerals` (`numerals.dfy`): the decimal text of numbers and amounts.
- `Expenses` (`expenses.dfy`): the record, and the `amount || 0` and
  `category || 'Other'` defaults.
- `Escape` (`escape.dfy`): `escapeHtml` and its decoder.
- `Dates` (`dates.dfy`): `getTodayDate` and why text order is date order.
- `ListView` (`listview.dfy`): the sort and filter of `renderExpenses`.
- `Aggregation` (`aggregation.dfy`): `updateTotal` and the series built by
  `updateChart`.
- `CsvExport` (`csv.dfy`): the export text, and a reader for it.
- `Store` (`store.dfy`): the stored list as a class `ExpenseStore`, with the
  submit, delete, clear-all and demo handlers as methods.

Modelling choices:

- **Amounts** are whole numbers of paise, of type `int`. A record's `amount` is
  `None` when the field is missing or null.
- **Missing text fields.** A missing category or description is the empty
  string. The script treats both as falsy, and `join` writes both as nothing.
- **Dates** are the stored `YYYY-MM-DD` texts. Records are sorted by
  comparing these texts. `Dates.TodayTextOrder` proves that for four-digit
  years this comparison agrees with calendar order.
- **`updateChart`'s `map`** is a `map<string, int>` filled by a loop.
  `Object.keys(map)` becomes the sequence of keys in the order they were
  inserted.
- **Entry form inputs.** What `parseFloat` made of the amount field is a
  parameter (`None` for NaN), and so is the generated id.

The specification of the widget and the code differ in places. The model
follows the code:

- **Negative amounts.** A stored negative amount is added to the totals as it
  is (`Number(i.amount || 0)`). It is not counted as zero.
- **Unknown categories.** Only a missing or empty category is counted under
  `'Other'`. Any other category name is its own chart key.
- **List order.** The list is sorted newest first before it is filtered.
  Filtering keeps the order of the sorted list, not the order in storage.
- **Category filter.** The category selector compares the stored category
  itself. So a record without a category is counted under `'Other'` in the
  chart but hidden when `'Other'` is selected
  (`ListView.UncategorisedHiddenUnderOther`).
- **Dead check.** The submit handler's `!category` check (script.js:266-269)
  can never fire, because the category was already defaulted to `'Other'`.
  It has no counterpart in `Store.NewExpense`.

## Model

| member | source | states |
|---|---|---|
| Seqs.FilterIsSubsequence | script.js:116-120 | `Array.filter` keeps an order-preserving subsequence of its input |
| Seqs.FilterCount | script.js:116-120 | filtering keeps every occurrence of an accepted element and none of a rejected one |
| Seqs.FilterMembership | script.js:163 | an element is in the filtered list iff it is in the input and passes the test |
| Seqs.FilterKeepsAll | script.js:118 | when every element passes, filtering returns its input unchanged |
| Seqs.FilterIdempotent | script.js:163 | filtering twice by the same test is filtering once |
| Strings.IncludesIffOccurs | script.js:119 | `includes` holds iff the search text occurs at some position of the text |
| Strings.TrimSpec | script.js:260 | `trim` returns a contiguous piece of its input, cut only at white space, that neither starts nor ends with white space |
| Strings.TrimUnchanged | script.js:260 | text without white space at either end is its own trim |
| Strings.LexLeTotal | script.js:110 | any two date texts are comparable |
| Strings.LexLeTransitive | script.js:110 | the date comparison is transitive |
| Strings.LexLeAntisymmetric | script.js:110 | two date texts each ordered before the other are equal |
| Numerals.NatText | script.js:64-66 | `String(n)` is a non-empty string of digits, one digit exactly for n < 10 |
| Numerals.NatTextNoLeadingZero | script.js:64-66 | `String(n)` for n of 10 or more never starts with the digit zero |
| Numerals.NatTextValue | script.js:64-66 | the digits written for n read back as n |
| Numerals.AmountTextChars | script.js:319 | an amount's text holds only digits, a minus sign and a point |
| Numerals.AmountTextRoundTrip | script.js:319 | reading back the text written for any amount in paise gives that amount |
| Dates.PadStartSpec | script.js:64-65 | `padStart` leaves a long enough string alone and otherwise prefixes just enough fill characters |
| Dates.TwoDigitsSpec | script.js:64-65 | a month or day below 100 is written as exactly two digits that read back as it |
| Dates.TodayTextRoundTrip | script.js:61-67 | for a four-digit year the default date parses back as that year, one-based month and day |
| Dates.TodayTextOrder | script.js:61-67 | for four-digit years, one default date text is ordered before another iff its calendar date is on or before the other's |
| Escape.EscapeText | script.js:68-70 | the escaped text is no shorter than the input and holds no raw `<`, `>`, `"` or `'` |
| Escape.EscapeHtmlRoundTrip | script.js:68-70 | decoding the five entities, `&amp;` last, recovers the input text, and a missing value escapes to the empty string |
| Escape.EscapeUnchangedIff | script.js:69 | escaping returns its input unchanged iff the input holds none of the five special characters |
| ListView.InsertCount | script.js:110 | inserting a record into the sorted list adds exactly that record |
| ListView.InsertSorted | script.js:110 | inserting a record into a newest-first list keeps it newest first |
| ListView.SortSpec | script.js:110 | sorting yields a newest-first permutation of the records |
| ListView.SortStable | script.js:110 | records of one date keep their stored order after the sort |
| ListView.FilterNewestFirst | script.js:116-120 | filtering a newest-first list keeps it newest first |
| ListView.VisibleOrder | script.js:110-120 | the shown list is an order-preserving subsequence of the sorted records and is newest first |
| ListView.VisibleCount | script.js:111-120 | a record is shown as often as it is stored if it passes the selector and the search, and never otherwise |
| ListView.VisibleAll | script.js:112-118 | with `'All'` selected (or nothing) and an empty search, every record is shown, newest first |
| ListView.VisibleCategory | script.js:117 | with a category other than `'All'` selected, every shown record has that category, whatever the search |
| ListView.SearchIff | script.js:118-119 | a record passes a non-empty search iff the search text occurs in its lower-cased description or category |
| ListView.VisibleIgnoresCase | script.js:111 | the shown list is the same for the search text and its lower-cased form |
| ListView.UncategorisedHiddenUnderOther | script.js:117 | a record without a category is charted under `'Other'` but not shown when `'Other'` is selected |
| Aggregation.CategoryTotals | script.js:192-198 | the loop yields the first-seen keys and, for each key, the total of the records counted under it, and no other key |
| Aggregation.ChartSeries | script.js:190-202 | the pie gets the first-seen keys, each key's total, the palette colour at its index modulo nine, and values summing to the grand total |
| Aggregation.GrandTotalAppend | script.js:173 | the total of two lists in sequence is the sum of their totals |
| Aggregation.GrandTotalSplit | script.js:173 | splitting the records by any test splits the total between the two parts |
| Aggregation.CategoryTotalIsFilteredTotal | script.js:193-196 | a key's total is the grand total of the records counted under that key |
| Aggregation.OtherBucket | script.js:194 | records with an empty category and records filed as `'Other'` are counted together under `'Other'`; no key is empty |
| Aggregation.LabelsAbsent | script.js:193-198 | a key that is not listed has a total of zero |
| Aggregation.LabelsMembership | script.js:193-198 | a key is listed iff some record is counted under it, so an empty input gives no key |
| Aggregation.LabelsDistinct | script.js:198 | each key is listed once |
| Aggregation.FirstSeenSpec | script.js:193-198 | the first-seen index points at the first record counted under the key, and only listed keys have one |
| Aggregation.LabelsFirstSeenOrder | script.js:198 | keys are listed in the order their first records appear |
| Aggregation.LabelsSum | script.js:193-199 | the per-key totals add up to the grand total |
| Aggregation.ColorsCycle | script.js:202 | colours repeat with period nine |
| Aggregation.PaletteDistinct | script.js:73-75 | the nine palette colours are distinct |
| Aggregation.ColorsNearDiffer | script.js:202 | keys fewer than nine places apart get different colours |
| CsvExport.ExportLines | script.js:315-320 | no file is produced exactly when there are no records; otherwise the file's lines are the header and one row per record, in order, when no field holds a newline |
| CsvExport.DoubleQuotesChars | script.js:319 | doubling quotes neither adds nor removes any other character |
| CsvExport.DoubleQuotesUnchanged | script.js:319 | a description without quotes is written as it is |
| CsvExport.ReadQuotedDoubled | script.js:319 | a reader finds the closing quote after a doubled description and un-doubles it |
| CsvExport.QuoteFieldRoundTrip | script.js:319 | stripping the outer quotes and un-doubling `""` recovers the description |
| CsvExport.RowText | script.js:319-320 | a row is id, amount, category, date and quoted description joined by commas |
| CsvExport.RowRoundTrip | script.js:318-320 | reading a row back gives the record's five fields when id, category and date hold no comma and no leading quote |
| CsvExport.CsvLines | script.js:318-320 | the file is the header line followed by one line per record, in order, when no field holds a newline |
| Store.ExpenseStore.constructor | script.js:42-50 | the store starts with the records read from storage |
| Store.ExpenseStore.Submit | script.js:255-294 | the outcome is the validation's; if accepted, the record is appended at the end and the total grows by its amount; if refused, nothing changes |
| Store.ExpenseStore.Delete | script.js:158-166 | the list becomes the records whose id differs from the target, or is unchanged for an empty id |
| Store.ExpenseStore.Clear | script.js:297-301 | the list becomes empty |
| Store.ExpenseStore.LoadDemo | script.js:304-312 | the list becomes the three demo records |
| Store.NewExpenseOutcome | script.js:257-281 | submission is refused iff the amount is missing, NaN or not positive, or the date is empty, the amount being checked first; an accepted record has the fresh id, the date, the amount, a non-empty category (the input or `'Other'`) and the trimmed description |
| Store.RemainingSpec | script.js:162-164 | delete leaves no record with the target id, keeps every other record as often as before and in order, and is idempotent |
| Store.RemainingTotal | script.js:162-164 | the total drops by exactly the amounts of the deleted records |
| Store.RemainingUnique | script.js:163 | with unique ids, delete removes one record if the id is present and none otherwise, and ids stay unique |
| Store.AddKeepsUnique | script.js:276-284 | appending a record with a fresh id keeps the ids unique |
| Store.DemoSummary | script.js:305-309 | the demo data totals 1,051,000 paise under the keys Food, Shopping, Other, with distinct ids |

## Left out

- DOM building, `innerHTML`, the category icons and CSS classes, animation
  classes, `requestAnimationFrame`, `setTimeout`, `debounce` and the theme
  toggle are page plumbing. They are not modelled.
- Chart.js construction and the legend are not modelled. The model stops at
  the labels, data and colours handed to the chart (`Aggregation.ChartSeries`).
- `localStorage` reads and writes and JSON parse errors are not modelled. The
  store is the in-memory list, and a failed parse is simply an empty initial
  list passed to the constructor.
- `Intl.NumberFormat` currency text, `toLocaleDateString` and `new Date`
  parsing are locale and library behaviour, so they are not modelled.
- `confirm` and `alert` dialogs are not modelled. Confirmation is taken as
  given, and the alerts are the `Rejected` outcomes and the `None` of
  `CsvExport.Export`.
- Id generation from `Date.now()` and `Math.random()` is not modelled; the id
  is a parameter. The download file name built from `toISOString()` and the
  `Blob` and object URL are not modelled either.
- Budget status and monthly totals appear in no code of this script, so
  they are not modelled.
- Store.NewExpense: `parseFloat` itself is a parameter. Floating-point
  amounts with more than two fraction digits, `Infinity` (which the
  validation accepts) and float rounding are not represented by whole paise.
- Numerals.AmountText: amounts of 10^21 and more, which JavaScript writes in
  exponent form, and fractions JavaScript would print with more than two
  digits are not modelled.
- Strings.Lower: `toLowerCase` is modelled on ASCII letters only. Other
  letters are left unchanged.
- ListView.SortByDateDesc: the sort compares date texts instead of `new Date`
  values. This agrees for well-formed dates with four-digit years
  (`Dates.TodayTextOrder`). Invalid dates, whose `NaN` difference makes the
  comparator inconsistent, are not modelled.
- Aggregation.Labels: `Object.keys` lists integer-like keys first in
  ascending order, which is not modelled; keys are in first-insertion order.
- Aggregation.CategoryTotal: a category whose name is inherited by every
  object (`__proto__`, `toString`, `constructor`, `valueOf`,
  `hasOwnProperty` and the like) is not modelled. For such a name
  `map[c] || 0` starts from the inherited value rather than 0. The chart value
  then becomes a concatenated string instead of a sum, or no key is created
  for `__proto__`. The model counts a number there as for any other name.
- Dates.TodayTextOrder: stated for four-digit years only, since longer or
  shorter years change the width of the first field.
- Dates.TodayTextRoundTrip: stated for four-digit years only. The year is
  written without padding, so for other years the default date is not of the
  form `YYYY-MM-DD`.
- CsvExport.CsvLines: requires that no field holds a newline. A quoted
  description may hold one in the real file, and then the file is no longer
  one line per record.
- CsvExport.RowRoundTrip: requires that id, category and date hold no comma
  and no leading quote. The script writes those three fields unquoted.
- Ids are strings. The script's `String(i.id)` conversion of a non-string id
  is not modelled, and neither is the `"undefined"` a button gets for a
  record without an id.
