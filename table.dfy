/**
 * The DataFrame of the script: built once by `load_name_data`, then extended in
 * place with the `total_births` and `prop` columns before any view reads it.
 */
module Table {
  import opened Results
  import opened Names
  import opened Loader
  import opened Aggregate

  /**
   * The table's rows and its derived columns. `totalBirths` and `prop` are
   * `None` until the statements that add them have run.
   */
  class NameTable {
    var rows: seq<Row>
    var pct: seq<Quotient>
    var totalBirths: Option<seq<nat>>
    var prop: Option<seq<Quotient>>

    /** Every derived column agrees with the rows it was computed from. */
    ghost predicate Valid()
      reads this
    {
      && pct == Proportions(rows)
      && (totalBirths.Some? ==> totalBirths.value == GroupTotals(rows))
      && (prop.Some? ==> prop.value == pct)
    }

    /** `data = pd.concat(dfs, ignore_index=True)`, then `data['pct'] = data['count'] / <group sum>`. */
    constructor Concat(dfs: seq<seq<Row>>)
      ensures Valid()
      ensures rows == Flatten(dfs) && totalBirths == None && prop == None
    {
      rows := Flatten(dfs);
      pct := Proportions(Flatten(dfs));
      totalBirths := None;
      prop := None;
    }

    /** `df['total_births'] = df.groupby(['year', 'sex'])['count'].transform('sum')`. */
    method AddTotalBirths()
      requires Valid()
      modifies this
      ensures Valid()
      ensures totalBirths == Some(GroupTotals(rows))
      ensures rows == old(rows) && pct == old(pct) && prop == old(prop)
    {
      totalBirths := Some(GroupTotals(rows));
    }

    /** `df['prop'] = df['count'] / df['total_births']`: the same values as `pct`. */
    method AddProp()
      requires Valid() && totalBirths.Some?
      modifies this
      ensures Valid()
      ensures prop == Some(pct)
      ensures rows == old(rows) && pct == old(pct) && totalBirths == old(totalBirths)
    {
      PropIsPct(rows);
      prop := Some(DivideColumns(Counts(rows), totalBirths.value));
    }
  }

  /**
   * `load_name_data` on an archive already fetched and parsed: the table of
   * every `.txt` member's rows with its `pct` column, or the exception raised.
   */
  method LoadNameData(archive: seq<Entry>) returns (res: Result<NameTable, LoadError>)
    ensures res.Err? <==> Load(archive).Err?
    ensures res.Err? ==> res.error == Load(archive).error
    ensures res.Ok? ==>
      && fresh(res.value) && res.value.Valid()
      && res.value.rows == Load(archive).value
      && res.value.totalBirths == None && res.value.prop == None
  {
    var files := SelectTxt(archive);
    var read := ReadEntries(files);
    if read.Err? {
      return Err(read.error);
    }
    var dfs := read.value;
    if |dfs| == 0 {
      return Err(NoObjectsToConcatenate);
    }
    var data := new NameTable.Concat(dfs);
    return Ok(data);
  }

  /** The script's top level before the views: load the table, then add `total_births` and `prop`. */
  method BuildTable(archive: seq<Entry>) returns (res: Result<NameTable, LoadError>)
    ensures res.Err? <==> Load(archive).Err?
    ensures res.Err? ==> res.error == Load(archive).error
    ensures res.Ok? ==>
      && fresh(res.value) && res.value.Valid()
      && res.value.rows == Load(archive).value
      && res.value.totalBirths == Some(GroupTotals(res.value.rows))
      && res.value.prop == Some(res.value.pct)
  {
    res := LoadNameData(archive);
    if res.Ok? {
      var df := res.value;
      df.AddTotalBirths();
      df.AddProp();
    }
  }
}
