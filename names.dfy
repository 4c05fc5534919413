/**
 * The data model of the baby-names pipeline: one parsed line of a year file,
 * an archive member, and one row of the aggregated table.
 */
module Names {

  /** One line of a year file after CSV parsing: the columns `name`, `sex`, `count`. */
  datatype CsvLine = CsvLine(name: string, sex: string, count: nat)

  /** A member of the names archive: its name in the listing and its parsed lines. */
  datatype Entry = Entry(fileName: string, lines: seq<CsvLine>)

  /** The key the table is grouped by: `['year', 'sex']`. */
  datatype GroupKey = GroupKey(year: int, sex: string)

  /** A row of the table: the three parsed columns and the `year` column of its entry. */
  datatype Row = Row(name: string, sex: string, count: nat, year: int) {
    function Key(): GroupKey {
      GroupKey(year, sex)
    }
  }
}
