/** The data pipeline behind the salary table: `processData` turns the raw
    CSV text into one entry per work year, holding the number of jobs of
    that year and their average salary in USD.

    The text is split into lines, the header line is dropped, each
    remaining line is split on commas, and the year (column 0) and the USD
    salary (column 6) are read with `parseInt`. A map keyed by year keeps a
    job count and a salary sum; every key becomes one entry whose average
    is the sum divided by the count. A year that does not parse is the NaN
    key, and a salary that does not parse turns its year's sum into NaN. */
module MainTable {
  import opened Numbers
  import opened JsStrings

  /** A work year as the code holds it: `parseInt` of column 0. */
  type Year = NaNOr<int>

  /** What one data line contributes: its year and its USD salary. */
  datatype Row = Row(year: Year, salaryInUsd: NaNOr<int>)

  /** The accumulator kept under one year key. */
  datatype Bucket = Bucket(totalJobs: nat, totalSalary: NaNOr<int>)

  /** One entry of the table. */
  datatype SalaryData = SalaryData(year: Year, totalJobs: nat, averageSalary: NaNOr<real>)

  const YearColumn: nat := 0
  const SalaryInUsdColumn: nat := 6

  // ---------------------------------------------------------------------
  // Reading the text
  // ---------------------------------------------------------------------

  /** `columns[i]` as `parseInt` receives it: a column past the end of the
      line is `undefined`, which converts to the string "undefined". */
  function Column(cells: seq<string>, i: nat): string
  {
    if i < |cells| then cells[i] else "undefined"
  }

  /** One data line: the year from column 0, the USD salary from column 6. */
  function ParseRow(line: string): Row
  {
    var cells := Split(line, ',');
    Row(ParseInt(Column(cells, YearColumn)), ParseInt(Column(cells, SalaryInUsdColumn)))
  }

  /** The lines after the header: `csvData.split('\n').slice(1)`. There is
      one per line break, and none holds a line break. */
  function DataLines(csv: string): (lines: seq<string>)
    ensures |lines| == multiset(csv)['\n']
    ensures forall i :: 0 <= i < |lines| ==> '\n' !in lines[i]
  {
    SplitCount(csv, '\n');
    Split(csv, '\n')[1..]
  }

  function ParseRows(lines: seq<string>): seq<Row>
  {
    seq(|lines|, i requires 0 <= i < |lines| => ParseRow(lines[i]))
  }

  /** The rows the fold visits, in the order of the text. */
  function Records(csv: string): seq<Row>
  {
    ParseRows(DataLines(csv))
  }

  // ---------------------------------------------------------------------
  // Reference definitions: what the map should hold for a year
  // ---------------------------------------------------------------------

  /** The number of rows whose year is `y`. */
  function CountYear(rows: seq<Row>, y: Year): nat
    decreases |rows|
  {
    if |rows| == 0 then 0
    else CountYear(rows[..|rows| - 1], y) + (if rows[|rows| - 1].year == y then 1 else 0)
  }

  /** The sum of the salaries that parsed, over the rows whose year is `y`. */
  function SalarySum(rows: seq<Row>, y: Year): int
    decreases |rows|
  {
    if |rows| == 0 then 0
    else
      var last := rows[|rows| - 1];
      SalarySum(rows[..|rows| - 1], y) + (if last.year == y && last.salaryInUsd.Num? then last.salaryInUsd.value else 0)
  }

  /** Some row of year `y` has a salary that did not parse. */
  predicate Poisoned(rows: seq<Row>, y: Year)
  {
    Row(y, NaN) in rows
  }

  /** The salary total of year `y`: NaN once one of its salaries is NaN. */
  function ExpectedTotal(rows: seq<Row>, y: Year): NaNOr<int>
  {
    if Poisoned(rows, y) then NaN else Num(SalarySum(rows, y))
  }

  /** A year without rows has nothing to sum and nothing to poison. */
  lemma {:induction false} AbsentYear(rows: seq<Row>, y: Year)
    requires CountYear(rows, y) == 0
    ensures SalarySum(rows, y) == 0
    ensures !Poisoned(rows, y)
    decreases |rows|
  {
    if |rows| > 0 {
      var prefix := rows[..|rows| - 1];
      AbsentYear(prefix, y);
      assert rows == prefix + [rows[|rows| - 1]];
    }
  }

  // ---------------------------------------------------------------------
  // The fold over the rows
  // ---------------------------------------------------------------------

  /** One step of the `forEach`: create the year's bucket if it is missing,
      then add one job and the row's salary to it. */
  function AddRow(agg: map<Year, Bucket>, row: Row): (r: map<Year, Bucket>)
    ensures r.Keys == agg.Keys + {row.year}
    ensures r[row.year].totalJobs == (if row.year in agg then agg[row.year].totalJobs else 0) + 1
    ensures r[row.year].totalSalary.NaN? <==> row.salaryInUsd.NaN? || (row.year in agg && agg[row.year].totalSalary.NaN?)
    ensures r[row.year].totalSalary.Num? ==>
              r[row.year].totalSalary.value == (if row.year in agg then agg[row.year].totalSalary.value else 0) + row.salaryInUsd.value
    ensures forall y :: y in agg && y != row.year ==> r[y] == agg[y]
  {
    var b := if row.year in agg then agg[row.year] else Bucket(0, Num(0));
    agg[row.year := Bucket(b.totalJobs + 1, Plus(b.totalSalary, row.salaryInUsd))]
  }

  /** The map `aggregatedData` after the `forEach` over `rows`: exactly the
      years that occur are keys, each holding its number of rows and its
      salary total. */
  function Aggregate(rows: seq<Row>): (agg: map<Year, Bucket>)
    ensures forall y :: y in agg <==> CountYear(rows, y) > 0
    ensures forall y :: y in agg ==> agg[y] == Bucket(CountYear(rows, y), ExpectedTotal(rows, y))
    decreases |rows|
  {
    if |rows| == 0 then map[]
    else
      var prefix := rows[..|rows| - 1];
      var last := rows[|rows| - 1];
      assert rows == prefix + [last];
      var before := Aggregate(prefix);
      if last.year !in before then
        AbsentYear(prefix, last.year);
        AddRow(before, last)
      else
        AddRow(before, last)
  }

  /** The map built from the CSV text. */
  function AggregateCsv(csv: string): map<Year, Bucket>
  {
    Aggregate(Records(csv))
  }

  // ---------------------------------------------------------------------
  // From the map to the table entries
  // ---------------------------------------------------------------------

  /** `avg` is `total / count`: NaN exactly when the total is NaN, and
      otherwise the number that multiplied by `count` gives the total. */
  predicate IsAverage(avg: NaNOr<real>, total: NaNOr<int>, count: nat)
  {
    && (avg.NaN? <==> total.NaN?)
    && (avg.Num? && total.Num? ==> avg.value * count as real == total.value as real)
  }

  /** Every bucket has at least one job. */
  predicate NoEmptyBucket(agg: map<Year, Bucket>)
  {
    forall y :: y in agg ==> agg[y].totalJobs >= 1
  }

  /** `order` lists every key of the map exactly once: what `Object.keys`
      returns, in whatever order the runtime chooses. */
  predicate IsKeyOrder(order: seq<Year>, keys: set<Year>)
  {
    && (forall i, j :: 0 <= i < j < |order| ==> order[i] != order[j])
    && (forall y :: y in order ==> y in keys)
    && (forall y :: y in keys ==> y in order)
  }

  /** `e` is the table entry of year `y` with bucket `b`. */
  predicate Describes(e: SalaryData, y: Year, b: Bucket)
  {
    && e.year == y
    && e.totalJobs == b.totalJobs
    && IsAverage(e.averageSalary, b.totalSalary, e.totalJobs)
  }

  /** The entry for the key string `yearStr`: the year is parsed back from
      the string and the bucket is looked up under it. */
  function Entry(agg: map<Year, Bucket>, yearStr: string): (e: SalaryData)
    requires ParseInt(yearStr) in agg
    requires NoEmptyBucket(agg)
    ensures Describes(e, ParseInt(yearStr), agg[ParseInt(yearStr)])
  {
    var year := ParseInt(yearStr);
    var b := agg[year];
    SalaryData(year, b.totalJobs, Divide(b.totalSalary, b.totalJobs))
  }

  /** The entry for the key `y`, built from its property key string. */
  function KeyEntry(agg: map<Year, Bucket>, y: Year): (e: SalaryData)
    requires y in agg
    requires NoEmptyBucket(agg)
    ensures Describes(e, y, agg[y])
  {
    KeyStringRoundTrip(y);
    Entry(agg, KeyString(y))
  }

  /** `Object.keys(aggregatedData).map(...)`: one entry per listed key, in
      the listed order. Each entry carries the key it came from, its
      bucket's job count, and the bucket's average. */
  function Format(agg: map<Year, Bucket>, order: seq<Year>): (data: seq<SalaryData>)
    requires forall i :: 0 <= i < |order| ==> order[i] in agg
    requires NoEmptyBucket(agg)
    ensures |data| == |order|
    ensures forall i :: 0 <= i < |order| ==> Describes(data[i], order[i], agg[order[i]])
    decreases |order|
  {
    if |order| == 0 then []
    else
      var rest := Format(agg, order[1..]);
      var e := KeyEntry(agg, order[0]);
      DescribesCons(agg, order, e, rest);
      [e] + rest
  }

  /** Entry 0 for key 0 and the entries of the remaining keys describe
      all the keys. */
  lemma {:induction false} DescribesCons(agg: map<Year, Bucket>, order: seq<Year>, e: SalaryData, rest: seq<SalaryData>)
    requires |order| >= 1 && |rest| == |order| - 1
    requires forall i :: 0 <= i < |order| ==> order[i] in agg
    requires Describes(e, order[0], agg[order[0]])
    requires forall i :: 0 <= i < |rest| ==> Describes(rest[i], order[1..][i], agg[order[1..][i]])
    ensures forall i :: 0 <= i < |order| ==> Describes(([e] + rest)[i], order[i], agg[order[i]])
  {
    var data := [e] + rest;
    forall i | 0 <= i < |order| ensures Describes(data[i], order[i], agg[order[i]]) {
      if i > 0 {
        assert data[i] == rest[i - 1] && order[i] == order[1..][i - 1];
      }
    }
  }

  /** `processData`: the table entries built from the CSV text, listed in
      the key order `order` of the year map. */
  function ProcessData(csv: string, order: seq<Year>): (data: seq<SalaryData>)
    requires IsKeyOrder(order, AggregateCsv(csv).Keys)
    ensures |data| == |order|
    ensures forall i :: 0 <= i < |data| ==>
              && data[i].totalJobs >= 1
              && data[i].totalJobs == CountYear(Records(csv), data[i].year)
              && IsAverage(data[i].averageSalary, ExpectedTotal(Records(csv), data[i].year), data[i].totalJobs)
    ensures forall i, j :: 0 <= i < j < |data| ==> data[i].year != data[j].year
    ensures forall y :: CountYear(Records(csv), y) > 0 ==> exists i :: 0 <= i < |data| && data[i].year == y
  {
    var rows := Records(csv);
    var data := Format(Aggregate(rows), order);
    FormatOfAggregate(rows, order);
    data
  }

  /** The entries formatted from the fold's map, described by the
      reference definitions. */
  lemma {:induction false} FormatOfAggregate(rows: seq<Row>, order: seq<Year>)
    requires IsKeyOrder(order, Aggregate(rows).Keys)
    ensures var data := Format(Aggregate(rows), order);
            && (forall i :: 0 <= i < |data| ==>
                  && data[i].totalJobs >= 1
                  && data[i].totalJobs == CountYear(rows, data[i].year)
                  && IsAverage(data[i].averageSalary, ExpectedTotal(rows, data[i].year), data[i].totalJobs))
            && (forall i, j :: 0 <= i < j < |data| ==> data[i].year != data[j].year)
            && (forall y :: CountYear(rows, y) > 0 ==> exists i :: 0 <= i < |data| && data[i].year == y)
  {
    var agg := Aggregate(rows);
    var data := Format(agg, order);
    forall i | 0 <= i < |data|
      ensures data[i].totalJobs == CountYear(rows, data[i].year) >= 1
      ensures IsAverage(data[i].averageSalary, ExpectedTotal(rows, data[i].year), data[i].totalJobs)
    {
      assert Describes(data[i], order[i], agg[order[i]]);
    }
    forall i, j | 0 <= i < j < |data| ensures data[i].year != data[j].year {
      assert data[i].year == order[i] && data[j].year == order[j];
    }
    forall y | CountYear(rows, y) > 0 ensures exists i :: 0 <= i < |data| && data[i].year == y {
      var k := IndexOf(order, y);
      assert data[k].year == y;
    }
  }

  /** The position of `y` in `order`. */
  function IndexOf(order: seq<Year>, y: Year): (i: nat)
    requires y in order
    ensures i < |order| && order[i] == y
  {
    if order[0] == y then 0 else 1 + IndexOf(order[1..], y)
  }

  // ---------------------------------------------------------------------
  // The header line
  // ---------------------------------------------------------------------

  /** The first line of the text never reaches the fold: only the lines of
      the body are read, so any two header lines give the same map. */
  lemma {:induction false} HeaderNeverCounted(header1: string, header2: string, body: string)
    requires '\n' !in header1 && '\n' !in header2
    ensures DataLines(header1 + "\n" + body) == Split(body, '\n')
    ensures AggregateCsv(header1 + "\n" + body) == AggregateCsv(header2 + "\n" + body)
  {
    SplitCons(header1, '\n', body);
    SplitCons(header2, '\n', body);
  }

  /** Text without a line break is all header: the table is empty. */
  lemma {:induction false} HeaderOnlyIsEmpty(csv: string)
    requires '\n' !in csv
    ensures AggregateCsv(csv) == map[]
  {
    SplitPlain(csv, '\n');
  }

  // ---------------------------------------------------------------------
  // Job counts add up to the number of data lines
  // ---------------------------------------------------------------------

  /** The sum of the `totalJobs` column. */
  function TotalJobs(data: seq<SalaryData>): nat
    decreases |data|
  {
    if |data| == 0 then 0 else data[0].totalJobs + TotalJobs(data[1..])
  }

  /** The number of rows of the years listed in `order`, summed per year. */
  function CountsOver(rows: seq<Row>, order: seq<Year>): nat
    decreases |order|
  {
    if |order| == 0 then 0 else CountYear(rows, order[0]) + CountsOver(rows, order[1..])
  }

  /** How many times `y` is listed in `order`. */
  function Hits(order: seq<Year>, y: Year): nat
    decreases |order|
  {
    if |order| == 0 then 0 else (if order[0] == y then 1 else 0) + Hits(order[1..], y)
  }

  lemma {:induction false} HitsAbsent(order: seq<Year>, y: Year)
    requires y !in order
    ensures Hits(order, y) == 0
    decreases |order|
  {
    if |order| > 0 {
      HitsAbsent(order[1..], y);
    }
  }

  /** A list without repetitions names each of its members once. */
  lemma {:induction false} HitsOnce(order: seq<Year>, y: Year)
    requires forall i, j :: 0 <= i < j < |order| ==> order[i] != order[j]
    requires y in order
    ensures Hits(order, y) == 1
    decreases |order|
  {
    if order[0] == y {
      assert y !in order[1..] by {
        forall k | 0 <= k < |order[1..]| ensures order[1..][k] != y {
          assert order[1..][k] == order[k + 1];
        }
      }
      HitsAbsent(order[1..], y);
    } else {
      HitsOnce(order[1..], y);
    }
  }

  /** Appending a row adds one to the count of each listing of its year. */
  lemma {:induction false} CountsOverSnoc(rows: seq<Row>, x: Row, order: seq<Year>)
    ensures CountsOver(rows + [x], order) == CountsOver(rows, order) + Hits(order, x.year)
    decreases |order|
  {
    if |order| > 0 {
      CountsOverSnoc(rows, x, order[1..]);
      assert (rows + [x])[..|rows|] == rows;
    }
  }

  /** Counting per listed year, over a list naming every year once, counts
      every row once. */
  lemma {:induction false} CountsOverAll(rows: seq<Row>, order: seq<Year>)
    requires forall i, j :: 0 <= i < j < |order| ==> order[i] != order[j]
    requires forall y :: CountYear(rows, y) > 0 ==> y in order
    ensures CountsOver(rows, order) == |rows|
    decreases |rows|
  {
    if |rows| == 0 {
      CountsOverZero(order);
    } else {
      var prefix := rows[..|rows| - 1];
      var x := rows[|rows| - 1];
      assert rows == prefix + [x];
      assert CountYear(rows, x.year) > 0;
      CountsOverAll(prefix, order);
      CountsOverSnoc(prefix, x, order);
      HitsOnce(order, x.year);
    }
  }

  lemma {:induction false} CountsOverZero(order: seq<Year>)
    ensures CountsOver([], order) == 0
    decreases |order|
  {
    if |order| > 0 {
      CountsOverZero(order[1..]);
    }
  }

  /** The job column of the formatted table sums the per-year counts. */
  lemma {:induction false} FormatTotalJobs(rows: seq<Row>, order: seq<Year>)
    requires forall i :: 0 <= i < |order| ==> order[i] in Aggregate(rows)
    ensures TotalJobs(Format(Aggregate(rows), order)) == CountsOver(rows, order)
    decreases |order|
  {
    if |order| > 0 {
      var data := Format(Aggregate(rows), order);
      assert data[1..] == Format(Aggregate(rows), order[1..]);
      FormatTotalJobs(rows, order[1..]);
    }
  }

  /** Every line after the header adds exactly one job to exactly one
      entry: the jobs of all entries, the NaN year included, add up to the
      number of data lines, which is the number of line breaks. */
  lemma TotalJobsIsLineCount(csv: string, order: seq<Year>)
    requires IsKeyOrder(order, AggregateCsv(csv).Keys)
    ensures TotalJobs(ProcessData(csv, order)) == |DataLines(csv)|
    ensures TotalJobs(ProcessData(csv, order)) == multiset(csv)['\n']
  {
    var rows := Records(csv);
    FormatTotalJobs(rows, order);
    CountsOverAll(rows, order);
    SplitCount(csv, '\n');
  }

  // ---------------------------------------------------------------------
  // Order of the data lines
  // ---------------------------------------------------------------------

  lemma {:induction false} TallyAppend(p: seq<Row>, q: seq<Row>, y: Year)
    ensures CountYear(p + q, y) == CountYear(p, y) + CountYear(q, y)
    ensures SalarySum(p + q, y) == SalarySum(p, y) + SalarySum(q, y)
    decreases |q|
  {
    if |q| == 0 {
      assert p + q == p;
    } else {
      var q' := q[..|q| - 1];
      TallyAppend(p, q', y);
      assert (p + q)[..|p + q| - 1] == p + q';
    }
  }

  /** The last element of `a` occurs in any `b` with the same elements;
      taking it out of both leaves two lists with the same elements. */
  lemma {:induction false} PickOut<T>(a: seq<T>, b: seq<T>) returns (b1: seq<T>, b2: seq<T>)
    requires multiset(a) == multiset(b) && |a| > 0
    ensures b == b1 + [a[|a| - 1]] + b2
    ensures multiset(a[..|a| - 1]) == multiset(b1 + b2)
  {
    var a' := a[..|a| - 1];
    var x := a[|a| - 1];
    assert x in multiset(b) by {
      assert a == a' + [x];
      assert x in multiset(a);
    }
    var j :| 0 <= j < |b| && b[j] == x;
    b1, b2 := b[..j], b[j + 1..];
    var c := b1 + b2;
    assert c[..j] == b1 && c[j..] == b2;
    assert b == c[..j] + [x] + c[j..];
    MultisetInsert(c, j, x);
    assert multiset(a) == multiset(a') + multiset{x} by {
      assert a == a' + [x];
    }
    MultisetCancel(multiset(a'), multiset(c), x);
  }

  /** Adding the same element to two multisets keeps them apart or equal. */
  lemma {:induction false} MultisetCancel<T>(m: multiset<T>, n: multiset<T>, x: T)
    requires m + multiset{x} == n + multiset{x}
    ensures m == n
  {
    assert m == (m + multiset{x}) - multiset{x};
    assert n == (n + multiset{x}) - multiset{x};
  }

  /** Inserting `x` into a list adds one `x` to its elements. */
  lemma {:induction false} MultisetInsert<T>(s: seq<T>, j: nat, x: T)
    requires j <= |s|
    ensures multiset(s[..j] + [x] + s[j..]) == multiset(s) + multiset{x}
  {
    assert s == s[..j] + s[j..];
  }

  /** Count and salary sum of a row taken from the middle of a list. */
  lemma {:induction false} TallyMiddle(b1: seq<Row>, x: Row, b2: seq<Row>, y: Year)
    ensures CountYear(b1 + [x] + b2, y) == CountYear(b1 + b2, y) + CountYear([x], y)
    ensures SalarySum(b1 + [x] + b2, y) == SalarySum(b1 + b2, y) + SalarySum([x], y)
  {
    TallyAppend(b1, b2, y);
    TallyAppend(b1 + [x], b2, y);
    TallyAppend(b1, [x], y);
  }

  /** Count and salary sum of a year depend only on which rows there are,
      not on their order. */
  lemma {:induction false} TallyPermutation(a: seq<Row>, b: seq<Row>, y: Year)
    requires multiset(a) == multiset(b)
    ensures CountYear(a, y) == CountYear(b, y)
    ensures SalarySum(a, y) == SalarySum(b, y)
    decreases |a|
  {
    if |a| == 0 {
      assert |b| == |multiset(b)| == 0;
    } else {
      var a' := a[..|a| - 1];
      var x := a[|a| - 1];
      var b1, b2 := PickOut(a, b);
      TallyPermutation(a', b1 + b2, y);
      TallyMiddle(b1, x, b2, y);
      assert a == a' + [x];
      TallyAppend(a', [x], y);
    }
  }

  /** The map does not depend on the order in which the rows are folded. */
  lemma {:induction false} AggregateOrderIndependent(a: seq<Row>, b: seq<Row>)
    requires multiset(a) == multiset(b)
    ensures Aggregate(a) == Aggregate(b)
  {
    forall y ensures CountYear(a, y) == CountYear(b, y) && SalarySum(a, y) == SalarySum(b, y) {
      TallyPermutation(a, b, y);
    }
    var m, n := Aggregate(a), Aggregate(b);
    assert m.Keys == n.Keys;
    forall y | y in m ensures m[y] == n[y] {
      assert Poisoned(a, y) == Poisoned(b, y) by {
        assert Row(y, NaN) in a <==> Row(y, NaN) in multiset(a);
      }
    }
  }

  lemma {:induction false} ParseRowsAppend(p: seq<string>, q: seq<string>)
    ensures ParseRows(p + q) == ParseRows(p) + ParseRows(q)
  {
    var l, r := ParseRows(p + q), ParseRows(p) + ParseRows(q);
    assert |l| == |r|;
    forall i | 0 <= i < |l| ensures l[i] == r[i] {
      assert l[i] == ParseRow((p + q)[i]);
      if i < |p| {
        assert (p + q)[i] == p[i] && r[i] == ParseRows(p)[i];
      } else {
        assert (p + q)[i] == q[i - |p|] && r[i] == ParseRows(q)[i - |p|];
      }
    }
  }

  /** Reordering the lines reorders the parsed rows the same way. */
  lemma {:induction false} ParseRowsPermutation(a: seq<string>, b: seq<string>)
    requires multiset(a) == multiset(b)
    ensures multiset(ParseRows(a)) == multiset(ParseRows(b))
    decreases |a|
  {
    if |a| == 0 {
      assert |b| == |multiset(b)| == 0;
    } else {
      var a' := a[..|a| - 1];
      var x := a[|a| - 1];
      var b1, b2 := PickOut(a, b);
      ParseRowsPermutation(a', b1 + b2);
      assert a == a' + [x];
      ParseRowsAppend(a', [x]);
      ParseRowsAppend(b1, b2);
      ParseRowsAppend(b1 + [x], b2);
      ParseRowsAppend(b1, [x]);
    }
  }

  /** Two texts whose data lines are the same lines in any order give the
      same map, hence the same table up to the order of its entries. */
  lemma {:induction false} LineOrderIrrelevant(csv1: string, csv2: string)
    requires multiset(DataLines(csv1)) == multiset(DataLines(csv2))
    ensures AggregateCsv(csv1) == AggregateCsv(csv2)
  {
    ParseRowsPermutation(DataLines(csv1), DataLines(csv2));
    AggregateOrderIndependent(Records(csv1), Records(csv2));
  }

  // ---------------------------------------------------------------------
  // What a line reads
  // ---------------------------------------------------------------------

  /** A line made of comma-free cells reads its year from the first cell
      and its salary from the seventh; a line with fewer than seven cells
      has a NaN salary. */
  lemma {:induction false} ParseRowOfCells(cells: seq<string>)
    requires |cells| >= 1
    requires forall i :: 0 <= i < |cells| ==> ',' !in cells[i]
    ensures ParseRow(Join(cells, ',')) ==
            Row(ParseInt(cells[0]), if |cells| > 6 then ParseInt(cells[6]) else NaN)
  {
    SplitJoin(cells, ',');
    if |cells| <= 6 {
      ParseIntRejects("undefined");
    }
  }

  lemma {:induction false} SplitSnocSeparator(s: string, sep: char)
    ensures Split(s + [sep], sep) == Split(s, sep) + [""]
    decreases |s|
  {
    if |s| == 0 {
      assert [sep][1..] == "";
    } else {
      assert (s + [sep])[1..] == s[1..] + [sep];
      SplitSnocSeparator(s[1..], sep);
    }
  }

  /** An empty line reads as year NaN with salary NaN. */
  lemma {:induction false} EmptyLineReadsNaN()
    ensures ParseRow("") == Row(NaN, NaN)
  {
    ParseIntRejects("undefined");
  }

  /** Text that ends with a line break has an empty last data line. */
  lemma {:induction false} LastDataLineEmpty(csv: string)
    requires |csv| >= 1 && csv[|csv| - 1] == '\n'
    ensures |DataLines(csv)| >= 1 && DataLines(csv)[|DataLines(csv)| - 1] == ""
  {
    var s := csv[..|csv| - 1];
    assert csv == s + ['\n'];
    SplitSnocSeparator(s, '\n');
  }

  /** Text that ends with a line break has an empty last line, which reads
      as year NaN with salary NaN: the table gets a NaN year whose average
      is NaN. */
  lemma {:induction false} TrailingLineBreakAddsNaNYear(csv: string)
    requires |csv| >= 1 && csv[|csv| - 1] == '\n'
    ensures NaN in AggregateCsv(csv)
    ensures AggregateCsv(csv)[NaN].totalSalary == NaN
  {
    LastDataLineEmpty(csv);
    EmptyLineReadsNaN();
    var rows := Records(csv);
    assert rows[|rows| - 1] == Row(NaN, NaN);
    assert Poisoned(rows, NaN);
    assert CountYear(rows, NaN) > 0;
  }

  /** The three-record example: two jobs of 2021 averaging 150000 and one
      job of 2022 averaging 300000. */
  lemma ThreeRecordExample()
    ensures var agg := Aggregate([Row(Num(2021), Num(100000)), Row(Num(2021), Num(200000)), Row(Num(2022), Num(300000))]);
            && agg.Keys == {Num(2021), Num(2022)}
            && agg[Num(2021)] == Bucket(2, Num(300000))
            && agg[Num(2022)] == Bucket(1, Num(300000))
            && Divide(agg[Num(2021)].totalSalary, 2) == Num(150000.0)
            && Divide(agg[Num(2022)].totalSalary, 1) == Num(300000.0)
  {
    var rows := [Row(Num(2021), Num(100000)), Row(Num(2021), Num(200000)), Row(Num(2022), Num(300000))];
    assert rows[..2] == [Row(Num(2021), Num(100000)), Row(Num(2021), Num(200000))];
    assert rows[..2][..1] == [Row(Num(2021), Num(100000))];
    assert rows[..2][..1][..0] == [];
  }
}
