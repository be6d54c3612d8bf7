/** The comparators the table's three columns sort by. Each returns
    `a.field - b.field`; a negative result puts `a` first. */
module Columns {
  import opened Numbers
  import opened MainTable

  /** The sorter of the Year column. A NaN year makes the difference NaN. */
  function YearSorter(a: SalaryData, b: SalaryData): (r: NaNOr<int>)
    ensures r.NaN? <==> a.year.NaN? || b.year.NaN?
    ensures r.Num? ==> (r.value < 0 <==> a.year.value < b.year.value)
    ensures r.Num? ==> (r.value == 0 <==> a.year == b.year)
    ensures r.Num? ==> (r.value > 0 <==> a.year.value > b.year.value)
  {
    Minus(a.year, b.year)
  }

  /** The sorter of the Number of Total Jobs column. */
  function TotalJobsSorter(a: SalaryData, b: SalaryData): (r: int)
    ensures r < 0 <==> a.totalJobs < b.totalJobs
    ensures r == 0 <==> a.totalJobs == b.totalJobs
    ensures r > 0 <==> a.totalJobs > b.totalJobs
  {
    a.totalJobs - b.totalJobs
  }

  /** The sorter of the Average Salary column, on exact averages. */
  function AverageSalarySorter(a: SalaryData, b: SalaryData): (r: NaNOr<real>)
    ensures r.NaN? <==> a.averageSalary.NaN? || b.averageSalary.NaN?
    ensures r.Num? ==> (r.value < 0.0 <==> a.averageSalary.value < b.averageSalary.value)
    ensures r.Num? ==> (r.value == 0.0 <==> a.averageSalary == b.averageSalary)
  {
    MinusReal(a.averageSalary, b.averageSalary)
  }

  /** Swapping the operands negates each sorter's result. */
  lemma SortersAntisymmetric(a: SalaryData, b: SalaryData)
    ensures YearSorter(a, b) == Negate(YearSorter(b, a))
    ensures TotalJobsSorter(a, b) == -TotalJobsSorter(b, a)
    ensures AverageSalarySorter(a, b) == NegateReal(AverageSalarySorter(b, a))
  {
  }

  /** Sorting the table by year never meets a tie: two different entries
      of one table have different years, so their comparison is NaN (a NaN
      year is involved) or non-zero. */
  lemma YearSorterNoTies(csv: string, order: seq<Year>, i: nat, j: nat)
    requires IsKeyOrder(order, AggregateCsv(csv).Keys)
    requires i < |order| && j < |order| && i != j
    ensures YearSorter(ProcessData(csv, order)[i], ProcessData(csv, order)[j]) != Num(0)
  {
    var data := ProcessData(csv, order);
    if i < j {
      assert data[i].year != data[j].year;
    } else {
      assert data[j].year != data[i].year;
    }
  }
}
