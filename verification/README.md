# Employee tracker: table renderer and manager grouping

This project models two pieces of the command-line employee tracker (`server.js`):

- `outputData(rows)` is the text-table renderer that every "view" action uses to print the
  rows the store returns. An absent or empty result prints a single notice. Otherwise it prints:
  - a blank line;
  - a header line built from the first record's property names;
  - a dashed underline;
  - one line per record;
  - a closing blank line.

  Every column is padded with spaces to the widest of its header and its values. Columns are
  separated by a single space.
- "View Employees by Manager" folds the rows of the manager self-join into one list per manager
  name. Rows whose manager name is null or empty go under `"No Manager"`. The result is then
  printed bucket by bucket.

Printing is modelled as the sequence of lines logged, in order. A logged string that starts
with `"\n"` appears as a blank line followed by the rest of the string. Records are ordered lists of
`(name, stringified value)` properties. The headers are therefore the first record's property names
in order, and a record that lacks a header renders as `"undefined"` in that column, as
`String(undefined)` does. An absent result (`null` or `undefined`) is `Options.None`.

Files:

- `options.dfy`: the `Option` type.
- `text.dfy`: `repeat`, `padEnd`, `join` and a `Split` that inverts `join`, with lemmas locating
  each column inside a joined line.
- `table.dfy`: `outputData`.
- `groups.dfy`: the reducer, the fold, reference definitions of the grouping, and the print loop.

The grouping is proved against a reference definition that is independent of the fold.
`RowsUnder(rows, key)` filters the rows by key in input order. `FirstRowUnder(rows, key)` is the
position of the first row with that key.

## Model

| member | source | states |
|---|---|---|
| Text.Repeat | server.js:129-131 | `'-'.repeat(width)` is exactly `width` characters long and consists only of that character |
| Text.PadEnd | server.js:141 | `padEnd` never truncates: the result starts with the original text, continues only with spaces, and is as long as the wider of the text and the target width |
| Text.ColumnStartClosedForm | server.js:124-126 | in a line joined with single spaces, column `i` starts after the widths of the earlier columns plus one separator for each of them |
| Text.Join | server.js:126 | `join(' ')`; `JoinLength`, `JoinColumn` and `SplitJoin` state where each part lands and that `Split` inverts it |
| Text.JoinLength | server.js:124-126 | joining parts of given widths with one separator gives a line of the widths' sum plus one character per gap; a line with no columns is empty |
| Text.JoinColumn | server.js:140-142 | part `i` of a joined line sits at its column start, is followed by the separator unless it is the last part, and fits in the line |
| Text.SplitJoin | server.js:129-131 | cutting a joined line at the separator gives back exactly the parts when no part contains the separator |
| TableRender.OutputData | server.js:111-148 | an absent or empty result logs exactly `"No data available."`; otherwise the lines are the records plus four, and the first and last are blank |
| TableRender.TableLines | server.js:133-147 | a non-empty table logs `\|rows\| + 4` lines, the first and last of them blank; `HeaderLineColumn`, `UnderlineRun` and `RowLineColumn` state what lines 1, 2 and `3 + k` hold |
| TableRender.TableLine | server.js:134-147 | line `l` of a table: blank, header, underline, the record lines in input order, blank; specified by `HeaderLineColumn`, `UnderlineRun` and `RowLineColumn` |
| TableRender.Keys | server.js:118 | `Object.keys(rows[0])`: the headers, in property order; `HeaderLineColumn` states that header column `j` shows the `j`-th name |
| TableRender.Cell | server.js:120 | `String(row[header])` for a string-valued record; specified by `CellIsFirstMatch` |
| TableRender.CellIsFirstMatch | server.js:141 | the value shown for a header is that of the record's property with that name, and `"undefined"` when the record has no such property |
| TableRender.ColumnWidth | server.js:119-121 | a column is at least as wide as its header |
| TableRender.ColumnWidthBounds | server.js:120 | a column is at least as wide as every value in it |
| TableRender.ColumnWidthAttained | server.js:120 | the width is the header's length or the length of some value in the column: no width exceeds the maximum |
| TableRender.WidthsAreColumnMaxima | server.js:118-121 | there is one width per header; each width is the maximum of the header length and the lengths of the column's values, stringifying a missing property as `undefined` |
| TableRender.LayoutLength | server.js:124-126 | a line of texts that fit their columns is the widths' sum plus the gaps long |
| TableRender.LayoutColumn | server.js:140-142 | column `j` of a laid-out line holds text `j` followed only by spaces, then one space unless it is the last column |
| TableRender.HeaderLineWidth | server.js:124-126 | the header line is the column widths' sum plus one less than the number of columns long (empty when there are no columns) |
| TableRender.UnderlineWidth | server.js:129-131 | the underline has the same length as the header line |
| TableRender.DataLineWidth | server.js:139-144 | every data line has the same length as the header line |
| TableRender.HeaderLineColumn | server.js:124-126 | header column `j` holds the `j`-th property name padded with spaces to the column width, then a single space unless it is the last column |
| TableRender.RowLineColumn | server.js:139-144 | records print in input order: column `j` of data line `3 + k` holds record `k`'s value for header `j`, uncut and padded with spaces, then a single space unless it is the last column |
| TableRender.DashRunColumn | server.js:129-131 | for any widths, column `j` of the underline is exactly `ws[j]` dashes, then a space unless it is the last column |
| TableRender.UnderlineRun | server.js:129-131 | the underline has a run of dashes under each column, exactly as long as the column, followed by a single space unless it is the last column |
| TableRender.UnderlineSplitsIntoRuns | server.js:129-131 | cutting the underline at its spaces gives exactly one dash run per column, in column order |
| ManagerGroups.GroupKey | server.js:452 | `cur.manager_name \|\| 'No Manager'`; specified by `ManagedRowsUnderTheirManager` and `UnmanagedRowsUnderNoManager` |
| ManagerGroups.AddRow | server.js:453-455 | one reducer step; `AddRowKeepsGrouped` states that it keeps the grouping invariant |
| ManagerGroups.GroupByManager | server.js:451-456 | `rows.reduce(..., {})`; specified by `GroupByManagerIsGrouped` and the lemmas below it |
| ManagerGroups.FindBucket | server.js:453 | the lookup `acc[managerName]` finds the only bucket with that name, or reports that there is none |
| ManagerGroups.GroupByManagerIsGrouped | server.js:451-456 | the fold satisfies the grouping invariant: buckets are the key filters, non-empty, distinct, cover every key, and are in first-appearance order |
| ManagerGroups.BucketsAreOrderedFilters | server.js:451-456 | each bucket holds exactly the rows whose key is its name, in input order |
| ManagerGroups.NoEmptyBucket | server.js:453-454 | a bucket is created only when a row is pushed into it, so none is empty |
| ManagerGroups.BucketNamesAreFirstOccurrences | server.js:451-456 | bucket names are distinct; a name is a bucket exactly when some row has that key; buckets come in order of their keys' first occurrence |
| ManagerGroups.EachRowInExactlyOneBucket | server.js:451-456 | every row is in the bucket named by its key and in no other bucket |
| ManagerGroups.UnmanagedRowsUnderNoManager | server.js:452 | a row whose manager name is null or empty is filed under `"No Manager"` |
| ManagerGroups.ManagedRowsUnderTheirManager | server.js:452 | a row with a non-empty manager name is filed under exactly that name |
| ManagerGroups.AtMostOneBucketPerRow | server.js:451-456 | there are never more buckets than rows |
| ManagerGroups.GroupingPartitionsRows | server.js:451-456 | the buckets together hold the input rows as a multiset, and the bucket sizes sum to the number of rows |
| ManagerGroups.BucketsKeepQueryOrder | server.js:442-456 | whatever order the query returns the rows in, each bucket lists its employees in that order |
| ManagerGroups.EmployeeLine | server.js:463 | the line of one employee; `DisplayBlocks` places it |
| ManagerGroups.BucketLines | server.js:461-464 | the block of one bucket; specified by `DisplayBlocks` |
| ManagerGroups.DisplayByManager | server.js:459-465 | everything the print loop logs; specified by `DisplayBlocks`, `BlocksAreConsecutive` and `DisplayLineCount` |
| ManagerGroups.BlocksAreConsecutive | server.js:460-465 | each bucket's printed block starts where the previous bucket's block ends |
| ManagerGroups.DisplayBlocks | server.js:460-465 | the block of bucket `i` is a blank line, then `name:`, then one `  first last \| title \| department` line per employee, in bucket order |
| ManagerGroups.DisplayLineCount | server.js:459-465 | printing the grouping logs a blank line and the heading, then two lines per bucket and one per row |

## Left out

- The MySQL connection, the queries and their `ORDER BY`: the rows arrive as a parameter. The order the query guarantees is a hypothesis of `BucketsKeepQueryOrder`, not something modelled.
- The `inquirer` prompts, the menu recursion (`displayMenu`), the banner (`cfonts`), `toLocaleString` and every other action of the program: they are outside these two functions.
- `console.log` is modelled as appending a line to the output. The text `"\n..."` is modelled as two lines.
- `String(value)` for non-string values such as numbers, dates and `null`: a record holds its values already stringified. A missing property is the only coercion modelled, as `"undefined"`.
- String lengths are counted in `char`s, which matches JavaScript's UTF-16 `length` only when each `char` is one code unit.
- `Math.max(...array)` throws a `RangeError` when the spread has more arguments than the engine allows. This happens only for results far larger than a terminal table, so it is not modelled.
- The error branches (`catch` that logs "Failed to view employees by manager") and the `finally` that shows the menu again: they involve I/O only.
- A manager whose full name is literally `"No Manager"` shares the bucket with the employees that have no manager. The model reproduces this, because `GroupKey` maps both to the same key.
- `Object.entries` lists integer-like keys first, in numeric order. The model keeps plain insertion order. A manager name is `CONCAT(first, ' ', last)`, which always contains a space, or `"No Manager"`, so no key is integer-like.
- A table whose first record has no properties has no columns. `join(' ')` of an empty array is `""`, so every line is empty. `LineWidth` is 0 in that case, not the `-1` that "widths plus gaps" would give.
- `Object.keys` also lists integer-like property names first. `Keys` keeps the order in which the record's properties were returned. The records come from the program's queries, whose column names are fixed identifiers such as `id`, `title` or `department_name`; none is integer-like, so the two orders agree.
- The accumulator `{}` inherits from `Object.prototype`. For a key such as `"toString"`, `"constructor"` or `"__proto__"`, `acc[k] || []` returns the inherited value and `push` throws a `TypeError`, which the `catch` logs. `AddRow` groups such a key like any other. A key is `CONCAT(first, ' ', last)`, which always contains a space, or `"No Manager"`, so no key can name an inherited property.
- A `Record` may list the same property name twice, and `Cell` then reads the first. A JavaScript row object holds one value per name. The rows come from SQL result sets whose column names are distinct, so the case does not arise.
