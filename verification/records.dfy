/**
 * Population records as derived from the rows of the county population CSV
 * (`processPopDataFile`). Every record carries one absolute estimate and one
 * normalised change ratio per year 2010..MaxYear.
 */
module Records {

  const MinYear: int := 2010
  const MaxYear: int := 2016

  /** The years for which the data set carries an estimate column. */
  type Year = y: int | MinYear <= y <= MaxYear witness MinYear

  /** True when `m` holds an entry for every year in range. */
  predicate CoversYears<V>(m: map<int, V>)
  {
    forall y :: MinYear <= y <= MaxYear ==> y in m
  }

  /** One parsed CSV row: the columns the record derivation reads. */
  datatype CsvRow = CsvRow(
    id: string,
    county: string,
    estimatesBase2010: int,
    popEstimate: map<int, int>)

  /**
   * A row the derivation can process: an estimate for every year, none of
   * them zero (each is the divisor of that year's change ratio).
   */
  predicate ValidRow(row: CsvRow)
  {
    forall y :: MinYear <= y <= MaxYear ==> y in row.popEstimate && row.popEstimate[y] != 0
  }

  /** A derived record: yearly estimates `popestimateY` and change ratios `npopchgY`. */
  datatype PopRecord = PopRecord(
    id: string,
    county: string,
    popEstimate: map<int, int>,
    popChange: map<int, real>)

  predicate WellFormed(r: PopRecord)
  {
    CoversYears(r.popEstimate) && CoversYears(r.popChange)
  }

  /** The estimate a year's change is measured against: the base column for the first year. */
  function PreviousEstimate(row: CsvRow, y: Year): (prev: int)
    requires ValidRow(row)
    ensures y == MinYear ==> prev == row.estimatesBase2010
    ensures y > MinYear ==> prev == row.popEstimate[y - 1]
  {
    if y == MinYear then row.estimatesBase2010 else row.popEstimate[y - 1]
  }

  /** The change from `prev` to `curr`, normalised by the current value. */
  function ChangeRatio(prev: int, curr: int): (r: real)
    requires curr != 0
  {
    (curr - prev) as real / curr as real
  }

  /**
   * The ratio is the difference measured in units of the current value:
   * equal values give 0, and for a positive current value the sign of the
   * ratio is the sign of `curr - prev`.
   */
  lemma ChangeRatioSign(prev: int, curr: int)
    requires curr != 0
    ensures ChangeRatio(prev, curr) * (curr as real) == (curr - prev) as real
    ensures prev == curr ==> ChangeRatio(prev, curr) == 0.0
    ensures curr > 0 ==> (ChangeRatio(prev, curr) > 0.0 <==> curr > prev)
    ensures curr > 0 ==> (ChangeRatio(prev, curr) < 0.0 <==> curr < prev)
  {
  }

  /**
   * Derives a record from a row: the estimates are copied year by year and
   * every year's change compares it with the previous year, except 2010,
   * which compares against `estimatesbase2010`.
   */
  function ProcessRow(row: CsvRow): (r: PopRecord)
    requires ValidRow(row)
    ensures WellFormed(r)
    ensures r.id == row.id && r.county == row.county
    ensures forall y :: y in r.popEstimate <==> MinYear <= y <= MaxYear
    ensures forall y :: y in r.popChange <==> MinYear <= y <= MaxYear
    ensures forall y :: MinYear <= y <= MaxYear ==> r.popEstimate[y] == row.popEstimate[y]
    ensures forall y {:trigger r.popChange[y]} :: MinYear <= y <= MaxYear ==>
      r.popChange[y] == ChangeRatio(PreviousEstimate(row, y), row.popEstimate[y])
  {
    PopRecord(
      row.id,
      row.county,
      map y | MinYear <= y <= MaxYear :: row.popEstimate[y],
      map y | MinYear <= y <= MaxYear :: ChangeRatio(PreviousEstimate(row, y), row.popEstimate[y]))
  }

  /** The two columns `calculateMinMaxExtent` is applied to. */
  datatype Column = PopEstimateColumn | PopChangeColumn

  /** The value of a record's column for a year, as a real number. */
  function ColumnValue(r: PopRecord, c: Column, y: Year): real
    requires WellFormed(r)
  {
    match c
    case PopEstimateColumn => r.popEstimate[y] as real
    case PopChangeColumn => r.popChange[y]
  }
}
