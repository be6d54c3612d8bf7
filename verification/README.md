# Salary table aggregation — a Dafny model

This project models the logic of the ML-engineer salary table in
`src/MainTable.tsx`. The modelled function is `processData`. It takes the
raw CSV text of the salary data set and turns it into one table entry per
work year. Each entry is `{year, totalJobs, averageSalary}`. The project
also models the three column comparators the table sorts by.

What `processData` does, in the source's own steps:

- It splits the text on `'\n'` and drops the first line, which is the header.
- It splits every remaining line on `','`.
- It reads the year from column 0 and the USD salary from column 6. Both go through `parseInt`.
- It keeps a map from year to `{totalJobs, totalSalary}`. A missing bucket is created on the same step that adds to it.
- It turns every key of that map into an entry. The entry's average is `totalSalary / totalJobs`.

The JavaScript semantics that matter are written out:

- A number is `NaNOr<int>`: either NaN or an exact integer (`Numbers`). A year that does not parse is the NaN key. A salary that does not parse makes its year's sum NaN, because `NaN + x` is NaN.
- `parseInt` is called without a radix. So after optional white space and a sign, a `0x`/`0X` prefix switches it to base 16; otherwise it reads base 10. It reads the longest run of digits and gives NaN if there is none (`JsStrings.ParseInt`).
- `split` with a one-character separator is modelled as `JsStrings.Split`.
- A line with fewer than seven cells has `columns[6] === undefined`. `parseInt(undefined)` reads the string `"undefined"` and gives NaN (`MainTable.Column`).
- `Object.keys` returns the keys as strings, and line 62 parses them back. The model converts each key with `KeyString` and parses it back with `ParseInt`. It then proves that this round trip returns the original key.
- The order of `Object.keys` is a runtime detail. It is a parameter `order` that must list every key once (`IsKeyOrder`).

The average is a `real`. It is characterised by `average * totalJobs == totalSalary`.

Two consequences of the code as written are proved:

- A CSV that ends with a line break has an empty last line. That line produces a NaN year whose average is NaN (`TrailingLineBreakAddsNaNYear`).
- A short line poisons its year's average (`ParseRowOfCells`).

Files:

- `numbers.dfy`: the NaN-or-exact numbers and their arithmetic.
- `js_strings.dfy`: `split`/`join`, `parseInt`, and the number-to-key conversion, with their round trips.
- `main_table.dfy`: the rows, the fold, the entries, and the theorems.
- `columns.dfy`: the sorters.

## Model

| member | source | states |
|---|---|---|
| `JsStrings.Split` | src/MainTable.tsx:46 | splitting always yields at least one piece (so the model's `[1..]` for `slice(1)` is well-formed) and no piece contains the separator |
| `JsStrings.JoinSplit` | src/MainTable.tsx:46-50 | joining the pieces of a split with the separator gives back the original text: splitting loses nothing |
| `JsStrings.SplitJoin` | src/MainTable.tsx:50 | splitting a comma-join of comma-free cells gives back exactly those cells, in order |
| `JsStrings.SplitCount` | src/MainTable.tsx:46 | a split yields one more piece than there are separators, so the text has as many data lines as line breaks |
| `JsStrings.TrimStart` | src/MainTable.tsx:51-52 | the white space `parseInt` skips is a prefix of the input made only of white-space characters, and what remains does not start with one |
| `JsStrings.ParseInt` | src/MainTable.tsx:51-52 | a number is read only when the text, after white space and one sign, starts with a decimal digit; such text is always read unless it starts a `0x` prefix; a negative result needs a minus sign. ParseIntDecimal, ParseIntHex, ParseIntEmptyHex, ParseIntToString, ParseIntSkipsWhiteSpace, ParseIntRejects and KeyStringRoundTrip give its value |
| `JsStrings.KeyString` | src/MainTable.tsx:54-61 | the property key a year is stored under: "NaN" or the decimal numeral. It has no contract of its own; KeyStringRoundTrip proves `parseInt` gives the year back from it |
| `JsStrings.NatToString` | src/MainTable.tsx:61 | the decimal key string of a number is made of digits, has no leading zero, and its digits denote the number |
| `JsStrings.ParseIntToString` | src/MainTable.tsx:51-52 | `parseInt` reads back an integer's decimal numeral, and text after it (a carriage return, a unit) that does not continue the numeral is ignored |
| `JsStrings.ParseIntDecimal` | src/MainTable.tsx:51-52 | a decimal numeral after an optional `+` or `-`, leading zeros allowed, is read up to the first non-digit; its value is the digits' value, negated after `-` |
| `JsStrings.ParseIntHex` | src/MainTable.tsx:51-52 | with no radix argument, text starting `0x` or `0X` (after an optional sign) is read in base 16 up to the first non-hex digit |
| `JsStrings.ParseIntEmptyHex` | src/MainTable.tsx:51-52 | a `0x` prefix with no hex digit after it reads as NaN, not as 0 |
| `JsStrings.ParseIntSkipsWhiteSpace` | src/MainTable.tsx:51-52 | leading white space does not change what `parseInt` reads |
| `JsStrings.ParseIntRejects` | src/MainTable.tsx:51-52 | a cell starting with something other than white space, a sign or a digit (a title, "undefined", "NaN") reads as NaN |
| `JsStrings.KeyStringRoundTrip` | src/MainTable.tsx:61-62 | parsing the property key of a year gives back that year, NaN included, so each key's bucket is found again |
| `Numbers.PlusLaws` | src/MainTable.tsx:58 | the `+=` of the running salary sum is commutative and associative, has 0 (the fresh bucket's sum) as unit and NaN as absorbing element, so one NaN salary poisons the sum whatever order the rows come in |
| `Numbers.Divide` | src/MainTable.tsx:66 | the average is NaN exactly when the salary sum is NaN, and otherwise times the job count equals the sum |
| `MainTable.DataLines` | src/MainTable.tsx:46 | `split('\n').slice(1)` leaves one data line per line break of the text, none of which holds a line break |
| `MainTable.Column` | src/MainTable.tsx:51-52 | `columns[i]`, which is `undefined` (the string "undefined" to `parseInt`) past the end of the line. It has no contract of its own; ParseRowOfCells states what it yields |
| `MainTable.ParseRow` | src/MainTable.tsx:50-52 | one line's year and salary. It has no contract of its own; ParseRowOfCells and EmptyLineReadsNaN characterise it |
| `MainTable.IsKeyOrder` | src/MainTable.tsx:61 | what the model requires of `Object.keys`: it lists every key of the map once, in some order. It is a predicate; HitsOnce and ProcessData use it |
| `MainTable.AddRow` | src/MainTable.tsx:54-58 | one row adds its year to the keys, one job to that year's bucket and its salary to that bucket's sum (NaN if the salary or the old sum is NaN), and leaves every other bucket unchanged |
| `MainTable.AbsentYear` | src/MainTable.tsx:54-55 | a year without rows has a zero salary sum and no NaN salary, matching the fresh bucket `{0, 0}` |
| `MainTable.Aggregate` | src/MainTable.tsx:47-59 | the keys are exactly the years that occur in the data rows; each bucket's job count is the number of rows of that year; its sum is the sum of their column-6 values, or NaN if any of them is NaN |
| `MainTable.Entry` | src/MainTable.tsx:62-67 | an entry built from a key string carries the parsed year, that bucket's job count, and that bucket's average |
| `MainTable.Format` | src/MainTable.tsx:61-68 | one entry per listed key, in the listed order; entry i has key i as its year, key i's job count, and sum over count as its average |
| `MainTable.FormatOfAggregate` | src/MainTable.tsx:61-68 | formatting the fold's map over any key listing gives entries whose job counts are the per-year row counts (at least one), whose averages match the per-year sums, with no year twice and every occurring year present |
| `MainTable.ProcessData` | src/MainTable.tsx:45-68 | every entry has at least one job and exactly as many jobs as data rows of its year; its average times its jobs is that year's salary sum (NaN if poisoned); no year appears twice; every year that occurs appears |
| `MainTable.HeaderNeverCounted` | src/MainTable.tsx:46 | the rows read are exactly the lines after the first, and replacing the header line does not change the map |
| `MainTable.HeaderOnlyIsEmpty` | src/MainTable.tsx:46 | text without a line break is all header and gives an empty map |
| `MainTable.HitsOnce` | src/MainTable.tsx:61 | a key list without repetitions names each of its keys exactly once |
| `MainTable.CountsOverAll` | src/MainTable.tsx:49-57 | summing the per-year counts over a list naming every occurring year once counts every row exactly once |
| `MainTable.FormatTotalJobs` | src/MainTable.tsx:61-68 | the job column of the formatted entries sums the per-year row counts of the listed keys |
| `MainTable.TotalJobsIsLineCount` | src/MainTable.tsx:46-68 | the `totalJobs` of all entries, the NaN year included, add up to the number of lines after the header, which is the number of line breaks in the text |
| `MainTable.TallyPermutation` | src/MainTable.tsx:49-59 | a year's count and salary sum depend only on which rows there are, not on their order |
| `MainTable.AggregateOrderIndependent` | src/MainTable.tsx:49-59 | folding the same rows in any order builds the same map |
| `MainTable.ParseRowsPermutation` | src/MainTable.tsx:49-52 | permuted lines parse to the same multiset of rows |
| `MainTable.LineOrderIrrelevant` | src/MainTable.tsx:46-59 | two texts with the same data lines in any order build the same map |
| `MainTable.ParseRowOfCells` | src/MainTable.tsx:50-52 | a line reads its year from cell 0 and its salary from cell 6; a line with fewer than seven cells has a NaN salary |
| `MainTable.EmptyLineReadsNaN` | src/MainTable.tsx:50-52 | an empty line reads as year NaN with salary NaN |
| `MainTable.LastDataLineEmpty` | src/MainTable.tsx:46 | text ending in a line break has an empty last data line |
| `MainTable.TrailingLineBreakAddsNaNYear` | src/MainTable.tsx:46-58 | text ending in a line break yields a NaN-year bucket whose salary sum (hence average) is NaN |
| `MainTable.ThreeRecordExample` | src/MainTable.tsx:49-66 | rows (2021, 100000), (2021, 200000), (2022, 300000) give 2021 two jobs summing to 300000 with average 150000, and 2022 one job of 300000 with average 300000 |
| `Columns.YearSorter` | src/MainTable.tsx:80 | the year comparison is NaN exactly when a year is NaN; otherwise it is negative, zero or positive exactly when the first year is smaller, equal or larger |
| `Columns.TotalJobsSorter` | src/MainTable.tsx:86 | the job-count comparison is negative, zero or positive exactly when the first count is smaller, equal or larger |
| `Columns.AverageSalarySorter` | src/MainTable.tsx:92 | the average comparison is NaN exactly when an average is NaN; otherwise its sign follows the order of the averages |
| `Columns.SortersAntisymmetric` | src/MainTable.tsx:80-92 | swapping the two entries negates every comparator's result |
| `Columns.YearSorterNoTies` | src/MainTable.tsx:80 | two different entries of one table never compare equal by year, since years are unique (the table's `rowKey`) |

## Left out

- The `fetch` of `/salary_data.csv`, `async`/`await`, `useEffect` and the `loading`/`setData` state: these are I/O and React plumbing. The CSV text is a parameter.
- The JSX, the antd `Table` component and the `toLocaleString` currency rendering: these are presentation.
- `src/App.tsx`: static page layout.
- The iteration order of `Object.keys` is a parameter `order`. The model only requires that it lists each key once.
- Floating point: numbers are exact. The model ignores precision loss above 2^53, the rounding of the average, and the exponent notation `String` uses from 1e21 on. With that notation a key would no longer parse back to itself, so `KeyStringRoundTrip` holds only below that bound: in the source, `String(1e21)` is `"1e+21"`, which `parseInt` reads as 1, so line 65 would look up year 1's bucket. If there is none, that lookup throws a `TypeError`, the `catch` at line 36 takes it and the table stays empty; if there is one, year 1's bucket is reported a second time.
- `-0`: `parseInt("-0")` is the key "0" in JavaScript. In the model it is the integer 0, so both land in the same bucket, as they do in the source.
- Columns.AverageSalarySorter: compares exact averages; IEEE-754 rounding of the subtraction is not modelled.
- What antd's sorter does with a NaN comparison result is library behaviour and is not modelled.
- Nothing beyond the per-year rollup: columns are read by position, and a value that does not parse flows into the sums as NaN rather than being skipped.
