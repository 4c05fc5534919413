/**
 * `load_name_data` up to the concatenation: which archive members are read,
 * the year each one gives its rows, and the loop that collects one frame per member.
 */
module Loader {
  import opened Results
  import opened PyText
  import opened Names

  /** The exceptions that end a load; no table is produced after any of them. */
  datatype LoadError =
    | EmptyData(fileName: string)  // `read_csv` of a member with no lines
    | BadYear(fileName: string)    // `int(file[3:7])` raised ValueError
    | NoObjectsToConcatenate       // `pd.concat` of an empty list

  /** The members the comprehension keeps: `file.endswith('.txt')`. */
  predicate IsTxt(fileName: string) {
    EndsWith(fileName, ".txt")
  }

  /** `[file for file in z.namelist() if file.endswith('.txt')]`, in listing order. */
  function SelectTxt(entries: seq<Entry>): (files: seq<Entry>)
    ensures |files| <= |entries|
    ensures forall e :: e in files <==> e in entries && IsTxt(e.fileName)
  {
    if entries == [] then []
    else (if IsTxt(entries[0].fileName) then [entries[0]] else []) + SelectTxt(entries[1..])
  }

  /** `int(file[3:7])`: the year a member's name gives its rows. */
  function YearOf(fileName: string): Option<int> {
    ParseInt(Slice(fileName, 3, 7))
  }

  /** The member's lines with the year column set: `df['year'] = year`. */
  function Tag(lines: seq<CsvLine>, year: int): (rows: seq<Row>)
    ensures |rows| == |lines|
  {
    seq(|lines|, k requires 0 <= k < |lines| => Row(lines[k].name, lines[k].sex, lines[k].count, year))
  }

  /** One pass of the loop body: read the member, name its columns, set its year. */
  function ReadFrame(e: Entry): Result<seq<Row>, LoadError> {
    if |e.lines| == 0 then Err(EmptyData(e.fileName))
    else match YearOf(e.fileName)
      case None => Err(BadYear(e.fileName))
      case Some(y) => Ok(Tag(e.lines, y))
  }

  /** The outcome of reading each member, in order. */
  function Frames(files: seq<Entry>): (rs: seq<Result<seq<Row>, LoadError>>)
    ensures |rs| == |files|
  {
    seq(|files|, k requires 0 <= k < |files| => ReadFrame(files[k]))
  }

  /** The values of `rs` in order, or the first error among them: an exception ends the loop. */
  function Collect<T, E>(rs: seq<Result<T, E>>): Result<seq<T>, E>
    decreases |rs|
  {
    if rs == [] then Ok([])
    else match Collect(rs[..|rs| - 1])
      case Err(e) => Err(e)
      case Ok(vs) =>
        match rs[|rs| - 1]
        case Err(e) => Err(e)
        case Ok(v) => Ok(vs + [v])
  }

  /** The list `dfs` after the loop has run over `files`, or the exception that ended it. */
  function ReadAll(files: seq<Entry>): Result<seq<seq<Row>>, LoadError> {
    Collect(Frames(files))
  }

  /** `pd.concat(dfs, ignore_index=True)` on the rows: the frames one after another. */
  function Flatten(dfs: seq<seq<Row>>): (rows: seq<Row>)
  {
    if dfs == [] then [] else Flatten(dfs[..|dfs| - 1]) + dfs[|dfs| - 1]
  }

  /** The rows `load_name_data` builds from an archive, or the exception it raises. */
  function Load(archive: seq<Entry>): Result<seq<Row>, LoadError> {
    match ReadAll(SelectTxt(archive))
    case Err(e) => Err(e)
    case Ok(dfs) => if dfs == [] then Err(NoObjectsToConcatenate) else Ok(Flatten(dfs))
  }

  /** The loop of `load_name_data`: one frame appended to `dfs` per member, in order. */
  method ReadEntries(files: seq<Entry>) returns (res: Result<seq<seq<Row>>, LoadError>)
    ensures res == ReadAll(files)
  {
    ghost var rs := Frames(files);
    var dfs: seq<seq<Row>> := [];
    var i := 0;
    while i < |files|
      invariant 0 <= i <= |files|
      invariant Collect(rs[..i]) == Ok(dfs)
    {
      assert rs[..i + 1][..i] == rs[..i];
      var df := ReadFrame(files[i]);
      if df.Err? {
        CollectKeepsError(rs, i + 1);
        return Err(df.error);
      }
      dfs := dfs + [df.value];
      i := i + 1;
    }
    assert rs[..i] == rs;
    res := Ok(dfs);
  }

  // ---------------------------------------------------------------------------
  // Properties of the load

  /** Once a prefix fails, the whole sequence fails with that error. */
  lemma {:induction false} CollectKeepsError<T, E>(rs: seq<Result<T, E>>, n: nat)
    requires n <= |rs| && Collect(rs[..n]).Err?
    ensures Collect(rs) == Collect(rs[..n])
    decreases |rs|
  {
    if n < |rs| {
      var m := |rs| - 1;
      assert rs[..m][..n] == rs[..n];
      CollectKeepsError(rs[..m], n);
    } else {
      assert rs[..n] == rs;
    }
  }

  /** Collecting succeeds exactly when every element does, and then keeps every value in order. */
  lemma {:induction false} CollectOk<T, E>(rs: seq<Result<T, E>>)
    ensures Collect(rs).Ok? <==> forall k :: 0 <= k < |rs| ==> rs[k].Ok?
    ensures Collect(rs).Ok? ==>
      |Collect(rs).value| == |rs| &&
      forall k :: 0 <= k < |rs| ==> Collect(rs).value[k] == rs[k].value
    decreases |rs|
  {
    if rs != [] {
      CollectOk(rs[..|rs| - 1]);
    }
  }

  /** The first error decides the outcome. */
  lemma CollectFirstError<T, E>(rs: seq<Result<T, E>>, k: nat)
    requires k < |rs| && rs[k].Err?
    requires forall j :: 0 <= j < k ==> rs[j].Ok?
    ensures Collect(rs) == Err(rs[k].error)
  {
    CollectOk(rs[..k]);
    assert rs[..k + 1][..k] == rs[..k];
    CollectKeepsError(rs, k + 1);
  }

  /** The member listing is filtered piecewise: a filter of a concatenation is the concatenation of filters. */
  lemma {:induction false} SelectTxtAppend(a: seq<Entry>, b: seq<Entry>)
    ensures SelectTxt(a + b) == SelectTxt(a) + SelectTxt(b)
  {
    if a == [] {
      assert a + b == b;
    } else {
      assert (a + b)[0] == a[0];
      assert (a + b)[1..] == a[1..] + b;
      SelectTxtAppend(a[1..], b);
    }
  }

  /** A member whose name does not end in `.txt` has no effect on the load, whatever it holds. */
  lemma IgnoresNonTxt(a: seq<Entry>, e: Entry, b: seq<Entry>)
    requires !IsTxt(e.fileName)
    ensures Load(a + [e] + b) == Load(a + b)
  {
    SelectTxtAppend(a + [e], b);
    SelectTxtAppend(a, [e]);
    SelectTxtAppend(a, b);
    assert SelectTxt([e]) == [] by {
      assert [e][1..] == [];
    }
    assert SelectTxt(a + [e]) == SelectTxt(a);
    assert SelectTxt(a + [e] + b) == SelectTxt(a + b);
  }

  lemma ShowFourDigits(y: int)
    requires 1000 <= y <= 9999
    ensures |Show(y)| == 4
  {
    var a := y / 10;
    var b := a / 10;
    var c := b / 10;
    assert 100 <= a <= 999 && 10 <= b <= 99 && 1 <= c <= 9;
    assert |ShowNat(c)| == 1;
    assert |ShowNat(b)| == 2;
    assert |ShowNat(a)| == 3;
  }

  /** A name that follows the archive's `yobYYYY.txt` convention gives its four-digit year. */
  lemma YearOfConvention(prefix: string, y: int, rest: string)
    requires |prefix| == 3 && 1000 <= y <= 9999
    ensures YearOf(prefix + Show(y) + rest) == Some(y)
  {
    var digits := Show(y);
    ShowFourDigits(y);
    var f := prefix + digits + rest;
    assert Slice(f, 3, 7) == digits by {
      assert |f| >= 7;
      assert f[3..7] == digits;
    }
    ParseShow(y);
    assert YearOf(f) == ParseInt(digits);
  }

  /**
   * A character among positions 3 to 6 of the name that cannot occur in an
   * integer literal makes `int(file[3:7])` raise.
   */
  lemma YearOfNonNumeric(fileName: string, k: nat)
    requires 3 <= k < 7 && k < |fileName|
    requires var c := fileName[k]; !IsSpace(c) && !IsDigit(c) && c != '+' && c != '-' && c != '_'
    ensures YearOf(fileName) == None
  {
    var slice := Slice(fileName, 3, 7);
    assert slice[k - 3] == fileName[k];
    ParseIntRejects(slice, k - 3);
  }

  /**
   * A `.txt` member whose name has at most seven characters has no year:
   * `file[3:7]` then holds the final `t` of the extension, which `int()` rejects.
   */
  lemma YearOfShortTxtName(fileName: string)
    requires IsTxt(fileName) && |fileName| <= 7
    ensures YearOf(fileName) == None
  {
    var last := |fileName| - 1;
    assert fileName[|fileName| - 4..][3] == fileName[last];
    YearOfNonNumeric(fileName, last);
  }

  /** The number of lines in the members. */
  function TotalLines(files: seq<Entry>): nat {
    if files == [] then 0 else TotalLines(files[..|files| - 1]) + |files[|files| - 1].lines|
  }

  lemma {:induction false} FlattenAppend(a: seq<seq<Row>>, b: seq<seq<Row>>)
    ensures Flatten(a + b) == Flatten(a) + Flatten(b)
    decreases |b|
  {
    if b == [] {
      assert a + b == a;
    } else {
      var m := |b| - 1;
      assert (a + b)[..|a + b| - 1] == a + b[..m];
      FlattenAppend(a, b[..m]);
    }
  }

  lemma {:induction false} FramesLength(files: seq<Entry>, dfs: seq<seq<Row>>, k: nat)
    requires |dfs| == |files| && k <= |files|
    requires forall j :: 0 <= j < |files| ==> |dfs[j]| == |files[j].lines|
    ensures |Flatten(dfs[..k])| == TotalLines(files[..k])
  {
    if k > 0 {
      FramesLength(files, dfs, k - 1);
      assert dfs[..k][..k - 1] == dfs[..k - 1];
      assert files[..k][..k - 1] == files[..k - 1];
    }
  }

  /** The load fails exactly when no member is a `.txt` file or some `.txt` member cannot be read. */
  lemma LoadOk(archive: seq<Entry>)
    ensures var files := SelectTxt(archive);
      Load(archive).Ok? <==>
        |files| > 0 && forall e :: e in files ==> |e.lines| > 0 && YearOf(e.fileName).Some?
  {
    var files := SelectTxt(archive);
    var rs := Frames(files);
    assert forall k :: 0 <= k < |files| ==> rs[k] == ReadFrame(files[k]);
    CollectOk(rs);
    if Load(archive).Ok? {
      forall e | e in files ensures |e.lines| > 0 && YearOf(e.fileName).Some? {
        var k :| 0 <= k < |files| && files[k] == e;
        assert ReadFrame(files[k]).Ok?;
      }
    }
  }

  /** With no `.txt` member the concatenation has nothing to join and raises. */
  lemma LoadNoFiles(archive: seq<Entry>)
    requires forall e :: e in archive ==> !IsTxt(e.fileName)
    ensures Load(archive) == Err(NoObjectsToConcatenate)
  {
    SelectNoTxt(archive);
  }

  lemma {:induction false} SelectNoTxt(entries: seq<Entry>)
    ensures (forall e :: e in entries ==> !IsTxt(e.fileName)) ==> SelectTxt(entries) == []
  {
    if entries != [] {
      assert forall e :: e in entries[1..] ==> e in entries;
      SelectNoTxt(entries[1..]);
    }
  }

  /** A `.txt` member whose name holds no year makes the whole load fail. */
  lemma LoadBadYear(archive: seq<Entry>, e: Entry)
    requires e in archive && IsTxt(e.fileName) && YearOf(e.fileName) == None
    ensures Load(archive).Err?
  {
    LoadOk(archive);
  }

  /** The load raises the error of the first `.txt` member that cannot be read. */
  lemma LoadFirstError(archive: seq<Entry>, k: nat)
    requires var files := SelectTxt(archive);
      k < |files| && ReadFrame(files[k]).Err? &&
      forall j :: 0 <= j < k ==> ReadFrame(files[j]).Ok?
    ensures Load(archive) == Err(ReadFrame(SelectTxt(archive)[k]).error)
  {
    CollectFirstError(Frames(SelectTxt(archive)), k);
  }

  lemma ReadFrameOk(e: Entry)
    requires ReadFrame(e).Ok?
    ensures YearOf(e.fileName).Some? && ReadFrame(e).value == Tag(e.lines, YearOf(e.fileName).value)
  {
  }

  /** Frame `k` sits in the concatenation right after the frames before it. */
  lemma FlattenSlice(dfs: seq<seq<Row>>, k: nat)
    requires k < |dfs|
    ensures |Flatten(dfs[..k])| + |dfs[k]| <= |Flatten(dfs)|
    ensures Flatten(dfs)[|Flatten(dfs[..k])|..|Flatten(dfs[..k])| + |dfs[k]|] == dfs[k]
  {
    assert dfs == dfs[..k] + [dfs[k]] + dfs[k + 1..];
    FlattenAppend(dfs[..k] + [dfs[k]], dfs[k + 1..]);
    FlattenAppend(dfs[..k], [dfs[k]]);
    assert Flatten([dfs[k]]) == dfs[k] by {
      assert [dfs[k]][..0] == [];
    }
  }

  /** Member `k`'s frame starts after the lines of the members before it. */
  lemma FrameInConcat(files: seq<Entry>, dfs: seq<seq<Row>>, k: nat)
    requires |dfs| == |files| && k < |files|
    requires forall j :: 0 <= j < |files| ==> |dfs[j]| == |files[j].lines|
    ensures TotalLines(files[..k]) + |files[k].lines| <= |Flatten(dfs)|
    ensures Flatten(dfs)[TotalLines(files[..k])..TotalLines(files[..k]) + |files[k].lines|] == dfs[k]
  {
    FramesLength(files, dfs, k);
    FlattenSlice(dfs, k);
  }

  /**
   * `rows` is the concatenation of the members' lines, in order, each member's
   * lines tagged with the year of its name: exactly what `pd.concat` of the
   * loop's frames holds.
   */
  ghost predicate ConcatenatesFiles(rows: seq<Row>, files: seq<Entry>) {
    |rows| == TotalLines(files) &&
    forall k :: 0 <= k < |files| ==>
      YearOf(files[k].fileName).Some? &&
      TotalLines(files[..k]) + |files[k].lines| <= |rows| &&
      rows[TotalLines(files[..k])..TotalLines(files[..k]) + |files[k].lines|]
        == Tag(files[k].lines, YearOf(files[k].fileName).value)
  }

  /** Concatenating the frames read from `files` gives their tagged lines in order. */
  lemma ConcatOfFrames(files: seq<Entry>, dfs: seq<seq<Row>>)
    requires |dfs| == |files|
    requires forall j :: 0 <= j < |files| ==> ReadFrame(files[j]).Ok? && dfs[j] == ReadFrame(files[j]).value
    ensures ConcatenatesFiles(Flatten(dfs), files)
  {
    var rows := Flatten(dfs);
    assert |rows| == TotalLines(files) by {
      forall j | 0 <= j < |files| ensures |dfs[j]| == |files[j].lines| {
        ReadFrameOk(files[j]);
      }
      FramesLength(files, dfs, |files|);
      assert dfs[..|files|] == dfs && files[..|files|] == files;
    }
    forall k | 0 <= k < |files|
      ensures YearOf(files[k].fileName).Some?
      ensures TotalLines(files[..k]) + |files[k].lines| <= |rows|
      ensures rows[TotalLines(files[..k])..TotalLines(files[..k]) + |files[k].lines|]
          == Tag(files[k].lines, YearOf(files[k].fileName).value)
    {
      ReadFrameOk(files[k]);
      assert forall j :: 0 <= j < |files| ==> |dfs[j]| == |files[j].lines| by {
        forall j | 0 <= j < |files| ensures |dfs[j]| == |files[j].lines| {
          ReadFrameOk(files[j]);
        }
      }
      FrameInConcat(files, dfs, k);
    }
  }

  /** The loaded table holds the lines of every `.txt` member, in listing order, and nothing else. */
  lemma LoadRows(archive: seq<Entry>)
    requires Load(archive).Ok?
    ensures ConcatenatesFiles(Load(archive).value, SelectTxt(archive))
  {
    var files := SelectTxt(archive);
    var rs := Frames(files);
    assert forall k :: 0 <= k < |files| ==> rs[k] == ReadFrame(files[k]);
    CollectOk(rs);
    ConcatOfFrames(files, Collect(rs).value);
  }
}
