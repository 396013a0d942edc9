# Table column sorter, modelled in Dafny

The deployment-status dashboard has one piece of logic: `sortTable(colIndex, type)` in
`scripts.js`. It takes every row of the page's table except the first (the header). It
sorts those rows by one column with a comparator picked by the column type (`string`,
`date` or `status`). It reverses the result when the table's `data-sort-desc` attribute
reads `'true'` and then flips that attribute. Finally it writes the rows back to the
table body in the new order.

This project states that routine without the document, as a pure function:

- `TableSort.SortTable(t, col, kind)` takes a `Table` and returns an `Outcome`. The
  `Table` holds all rows, header first, plus the attribute text (`None` when absent).
  The `Outcome` is either the rewritten table or `MissingCell`. `MissingCell` is the
  `TypeError` a comparison throws when a row lacks cell `col`.
- The three comparators are `TableSort.Compare`. Its `None` result is JavaScript's NaN.
  `TableSort.Before` is the relation the sort obeys: "the comparator is not positive".
- The sort is an insertion sort over `seq<Row>` (`TableSort.Insert`,
  `TableSort.SortRows`). It is proved to return a permutation in comparator order.
- `SortLaws` relates calls to each other: descending is the exact reverse of ascending,
  two calls restore the flag, and with distinct keys the second call reverses the
  first. It also states the per-type orders.
- `SortCases` states the sorted order of three concrete columns.
- `Text` holds lower-casing and `localeCompare`, modelled as code-point lexicographic
  order.

## Model

| member | source | states |
|---|---|---|
| `TableSort.SortTable` | scripts.js:6-44 | A call throws exactly when there are at least two data rows and one of them lacks cell `col`. Otherwise the header stays first and the row count is unchanged. The written data rows are a permutation of the old data rows. The flag read afterwards is the negation of the flag read before. When every cell converts, the rows are in comparator order, reversed if the flag read descending. |
| `TableSort.SortRows` | scripts.js:13-33 | The sorted rows are a permutation of the input in which each row may precede the next. The host `rows.sort(comparator)` promises this when every cell converts; the model's insertion sort gives it for every input, reading NaN as a tie. |
| `TableSort.Insert` | scripts.js:13-33 | Inserting a row into an ordered sequence adds exactly that row and keeps the sequence ordered. |
| `TableSort.Reverse` | scripts.js:37 | `reverse()` keeps the rows and puts row `i` at position `n-1-i`. |
| `TableSort.DataRows` | scripts.js:8 | The data rows are everything after the first row: header and data rows together make up the table, and there is one data row fewer than rows (none for an empty table). |
| `TableSort.HeaderRows` | scripts.js:8 | The part `slice(1)` leaves out is at most one row, and it is the first row whenever the table has one. |
| `TableSort.IsDescending` | scripts.js:36 | The flag reads descending exactly when the attribute is the text `true`; an absent attribute or any other text reads ascending. |
| `TableSort.FlagText` | scripts.js:38 | `setAttribute` stores `true` or `false`, and that text reads back as the flag it was written for. |
| `TableSort.StatusRank` | scripts.js:27-31 | Only cells that lower-case to `success` or `fail` have a rank. The rank is 0 or 1, and it is 1 exactly for `success`. |
| `TableSort.Compare` | scripts.js:11-32 | The `string` comparator always returns -1, 0 or 1, and 0 exactly when the lower-cased cells are equal. The `date` comparator is NaN exactly when one of the two cells does not parse. The `status` comparator is NaN exactly when one of the two cells has no rank, and otherwise lies in -1..1. |
| `TableSort.CompareFlip` | scripts.js:13-32 | Swapping the two rows negates each comparator, and a NaN result stays NaN. |
| `TableSort.NaNIsTie` | scripts.js:20-32 | A NaN comparison is not positive either way, so the sort may put either row first. |
| `TableSort.BeforeTotal` | scripts.js:13-33 | Any two rows are ordered one way or the other under each of the three comparators. |
| `TableSort.BeforeTransitive` | scripts.js:13-33 | On rows whose cells convert, the comparator order is transitive. |
| `TableSort.StringIgnoresCase` | scripts.js:14-16 | In a `string` column, two cells that differ only in the case of their letters compare the same way against any row. |
| `Text.LowerFacts` | scripts.js:14-15 | `toLowerCase` turns each ASCII upper-case letter into its own lower-case letter, keeps every other character in place, and leaves no upper-case letter. |
| `Text.LowerIgnoresCase` | scripts.js:14-15 | Two texts lower-case to the same text exactly when they differ only in the case of their letters. |
| `Text.LowerIdempotent` | scripts.js:14-15 | Lower-casing twice is the same as lower-casing once. |
| `Text.LocaleCompare` | scripts.js:16 | The string comparison returns -1, 0 or 1, and returns 0 exactly for equal strings. |
| `Text.LocaleCompareFlip` | scripts.js:16 | Swapping the operands negates the comparison. |
| `Text.LocaleCompareTransitive` | scripts.js:16 | "Not after" is transitive, so the string order is a total order. |
| `SortLaws.OrderedAllPairs` | scripts.js:13-33 | When cells convert, comparator order between neighbours extends to every earlier/later pair. |
| `SortLaws.OrderedUnique` | scripts.js:13-33 | Rows that share a key are identical, so there is only one comparator-ordered arrangement of a given collection of rows. |
| `SortLaws.DescendingReverses` | scripts.js:36-37 | On the same rows, a table whose attribute is `'true'` gets exactly the reverse of what a table with any other or absent attribute gets. |
| `SortLaws.NextCallThrowsAlike` | scripts.js:8-43 | A later call reading any column throws on the written-back rows exactly when it would have thrown on the original data rows. |
| `SortLaws.TwoCallsRestoreFlag` | scripts.js:36-38 | Two calls whose columns every data row has (or with fewer than two data rows) both succeed and restore the flag as read, whatever columns and types they use. |
| `SortLaws.SecondCallReverses` | scripts.js:13-38 | Take distinct keys and an ascending start. The first call leaves the rows in comparator order. A second call with the same arguments gives exactly their reverse. |
| `SortLaws.StringAscending` | scripts.js:11-17 | `string` column, ascending flag: each written row's lower-cased cell is not after the previous row's. |
| `SortLaws.OrderedDates` | scripts.js:20-24 | On rows whose dates all parse, the rows are in comparator order exactly when their parsed dates do not decrease. |
| `SortLaws.DateAscending` | scripts.js:18-24 | `date` column, ascending flag, every cell parses: each written row's date is not earlier than the previous row's. |
| `SortLaws.StatusOrderPutsSuccessFirst` | scripts.js:25-32 | In comparator order of a `status` column, no `fail` row comes before a `success` row. |
| `SortLaws.SuccessBeforeFail` | scripts.js:25-37 | Every `status` cell is `success` or `fail`. With an ascending flag every `success` row is written before every `fail` row. With a descending flag every `fail` row comes first. |
| `SortCases.MixedCaseNames` | scripts.js:11-17 | `banana, Apple, cherry` sort to `Apple, banana, cherry`. |
| `SortCases.MixedCaseCherry` | scripts.js:11-17 | `banana, Cherry, apple` sort to `apple, banana, Cherry`: lower-casing decides, where code-point order alone would put `Cherry` first. |
| `SortCases.StatusColumn` | scripts.js:25-32 | `fail, success, fail` sort to `success, fail, fail`. |

## Left out

- The document: `querySelector`, `table.rows`, `innerText`, `getAttribute`/`setAttribute`, `innerHTML = ''` and `appendChild` (scripts.js:7, 36, 38, 41-43). They are replaced by the `Table` value. The attribute is kept as its text, so that an absent or foreign value can be seen to read as ascending.
- The header's place in the document. The model assumes the header sits outside the body (in `thead`). If it sat in `tbody`, line 42 would delete it and it would not be written back. A table with no `tbody` makes line 42 throw. Neither case is modelled.
- `localeCompare` is locale-specific. It is modelled as code-point lexicographic order. `toLowerCase` is modelled for ASCII letters only.
- `new Date(text)` and the subtraction of two dates are library parsing and float arithmetic. The `Date` sort type carries the parser as a function from text to an integer timestamp, with `None` for an invalid date. For the same reason no concrete `date` column is worked through.
- TableSort.SortTable: promises comparator order only when every data row's cell converts. A NaN comparison (an unparseable date, or a status other than `success`/`fail`) gives an order the host sort does not define. For those inputs only the permutation, header, throw and flag clauses are stated. `Before` reads NaN as a tie so that the model stays total.
- Stability. `Array.prototype.sort` is stable (ECMAScript 2019 and later), and the model's insertion sort is stable too, but no contract states it. `SortLaws.SecondCallReverses` relies on distinct keys, not on stability.
- An unrecognised `type` is excluded by the closed `SortType`. In the code `sortedRows` then stays `undefined`. With a descending flag the call throws at line 37. Otherwise it flips the flag and empties the body (lines 38 and 42), then throws at line 43.
