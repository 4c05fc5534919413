# Baby names: a verified model of the data pipeline of `main.py`

`main.py` is a small Streamlit app over the Social Security Administration's
baby-names archive. It downloads `names.zip` and reads every `.txt` member
(`yobYYYY.txt`, one line `name,sex,count` per name) into one pandas table. Each
row is tagged with the year found at characters 3 to 6 of its member's name. The
app then adds each row's share of its (year, sex) group twice: as `pct` inside
`load_name_data` and again as `total_births` / `prop` at top level. Three views
read the finished table:

- the number of distinct names per (year, sex) group;
- the rows of one name;
- the ten largest counts of one year and sex.

This project models that pipeline in Dafny and proves what each step
guarantees.

The modules follow the steps of the script:

- `Results`: `Option` and `Result`.
- `PyText`: the Python string semantics the loader relies on. These are
  `str.endswith`, slicing with clamped bounds, and `int()` of a `str`. `int()`
  strips the whitespace it accepts at both ends (`\t \n \v \f \r`, space and
  the non-ASCII characters `str.isspace()` accepts, but not U+001C to U+001F)
  and takes an optional sign and `_` separators.
- `Names`: the data model. `CsvLine` is one parsed line of a member. `Entry` is
  an archive member with its parsed lines. `Row` is one table row, and
  `GroupKey` is a (year, sex) key.
- `Loader`: the member filter, the year of a member, the read loop
  (`ReadEntries`, a method with a loop) and `pd.concat`, with every exception
  that ends the load.
- `Aggregate`: the `groupby(['year', 'sex'])['count'].transform('sum')` totals
  and the `count / total` proportions. A float64 quotient is modelled as a
  finite value, `+inf` or NaN.
- `Table`: the DataFrame the script extends in place, as the class
  `NameTable`. `LoadNameData` builds it, and `AddTotalBirths` and `AddProp`
  add the two columns of lines 32 and 33.
- `Order`: the order in which `groupby` lists its groups. This is year first,
  then the sex code compared as Python compares `str`.
- `Queries`: the three views. Row selections are lists of index labels,
  because pandas keeps the labels through boolean indexing and `nlargest`.

The top-ten view ranks rows by `Queries.Before`: a larger count ranks first,
and among equal counts the row earlier in the table ranks first. pandas'
default `keep='first'` of `nlargest(10, 'count')` keeps the earliest of the
rows tied at the cut, and `Before` agrees with that. The order of tied rows
inside the result is this model's own rule. pandas does not promise it.

Behaviour of the code worth noting:

- A zero group total is not reported as an integrity error. `count / total` in
  pandas gives NaN for `0 / 0` (and `+inf` for `n / 0`). `Aggregate.Divide`
  models this, and `Aggregate.Proportions` proves that only NaN can occur, and
  only in a group whose total is zero.
- The members read are those whose name ends in `.txt`; no name pattern is
  checked beyond that. A `.txt` member whose characters 3 to 6 are not an
  integer literal makes `int()` raise. This ends the whole load
  (`LoadError.BadYear`).
- The concatenated table keeps the members' order and each member's line order.
- Ties among the top ten are ordered by table position, not by name.
- The rows of one name come back in table order, not sorted by year.

## Model

| member | source | states |
|---|---|---|
| Loader.Load | main.py:12-24 | no contract of its own. It is the whole load: the `.txt` filter, the read loop, then `pd.concat` of the frames, which raises on an empty list. `LoadOk`, `LoadRows`, `LoadFirstError`, `LoadNoFiles` and `IgnoresNonTxt` state its behaviour |
| Loader.YearOf | main.py:22 | no contract of its own. It is `int(file[3:7])`. `YearOfConvention`, `YearOfNonNumeric` and `YearOfShortTxtName` state its behaviour |
| Loader.ReadFrame | main.py:19-23 | no contract of its own. It is one pass of the loop body: a member with no lines raises `EmptyData`, a name without a year raises `BadYear`, otherwise the member's lines tagged with its year. `ReadFrameOk` and `LoadOk` state its behaviour |
| Loader.Collect | main.py:18-24 | no contract of its own. It gives the frames of the loop in order, or the first exception. `CollectOk`, `CollectFirstError` and `CollectKeepsError` state its behaviour |
| Loader.Flatten | main.py:24 | no contract of its own. It is `pd.concat(dfs, ignore_index=True)` on the rows. `FlattenAppend`, `FlattenSlice` and `ConcatOfFrames` state its behaviour |
| PyText.ParseInt | main.py:22 | no contract of its own. It is `int()` of a `str`, where `None` stands for `ValueError`. `ParseShow`, `ParseIntRejects` and `ParseIntBlank` state its behaviour |
| PyText.Slice | main.py:22 | no contract of its own. It is `s[lo:hi]`, with both bounds clamped to the length. `YearOfConvention` and `YearOfShortTxtName` use it |
| PyText.EndsWith | main.py:17 | no contract of its own. It is `str.endswith`: the suffix fits and equals the string's tail. `SelectTxt` and `IgnoresNonTxt` use it |
| Aggregate.GroupTotal | main.py:25 | no contract of its own. It is the sum of `count` over the rows of one (year, sex) group. `CountWithinTotal`, `GroupTotalAppend` and `ProportionsSumToOne` state its behaviour |
| Queries.Before | main.py:87 | no contract of its own. It is the ranking `nlargest(10, 'count')` uses: larger count first, and among equal counts the earlier row. `NLargestRanked` and `TopByCount` state its consequences |
| Queries.Best | main.py:87 | no contract of its own. It is the candidate that ranks first. `BestRanks` states its behaviour |
| Queries.NLargest | main.py:87 | no contract of its own. It is `nlargest(n, 'count')` over a list of labels. `NLargestSelects` and `NLargestRanked` state its behaviour |
| Queries.ChosenSex | main.py:86-89 | the sex filtered on is "F" or "M", and it is "F" exactly when the selector gives "F" |
| Queries.NamesOf | main.py:40 | no contract of its own. It is the set of distinct names in one group, which `nunique` counts. `NamesOfSnoc`, `NamesWithinGroup` and `OccurringGroupsHaveNames` state its behaviour |
| Loader.SelectTxt | main.py:17 | the kept members are exactly those listed whose name ends in `.txt`; no more members than listed |
| Loader.SelectTxtAppend | main.py:17 | filtering a concatenated listing equals concatenating the filtered parts, so the listing order is kept |
| Loader.IgnoresNonTxt | main.py:17 | inserting a member whose name does not end in `.txt` anywhere in the archive leaves the load's outcome unchanged |
| Loader.LoadNoFiles | main.py:17-24 | an archive with no `.txt` member makes `pd.concat` raise (`NoObjectsToConcatenate`) |
| PyText.ParseShow | main.py:22 | `int(str(n)) == n` for every integer `n` |
| PyText.ParseIntRejects | main.py:22 | a character that is not whitespace, a digit, a sign or `_` anywhere in the text makes `int()` fail |
| PyText.ParseIntBlank | main.py:22 | `int()` of an empty or all-whitespace text fails |
| Loader.YearOfConvention | main.py:22 | a member named three characters, then a four-digit year, then anything, gets exactly that year |
| Loader.YearOfNonNumeric | main.py:22 | a non-numeric character among positions 3 to 6 of the name means no year |
| Loader.YearOfShortTxtName | main.py:17-22 | a `.txt` member whose name has at most seven characters has no year, because `file[3:7]` then holds the extension's final `t` |
| Loader.Tag | main.py:21-22 | every line of a member becomes one row with its year set; the row count is preserved |
| Loader.ReadEntries | main.py:16-23 | the loop of `load_name_data` appends one frame per member in order, or stops at the first member that raises; the outcome equals `ReadAll` |
| Loader.CollectOk | main.py:18-23 | the loop finishes exactly when every member can be read, and then holds every member's frame in order |
| Loader.CollectFirstError | main.py:18-23 | the exception of the first member that cannot be read is the exception of the loop |
| Loader.LoadOk | main.py:12-24 | the load succeeds if and only if there is at least one `.txt` member and every `.txt` member has lines and a year |
| Loader.LoadBadYear | main.py:22 | any `.txt` member without a year makes the whole load fail |
| Loader.LoadFirstError | main.py:18-24 | a failing load raises the error of the first `.txt` member that cannot be read |
| Loader.FlattenAppend | main.py:24 | concatenating the frames of `a + b` gives those of `a` followed by those of `b` |
| Loader.FrameInConcat | main.py:24 | member k's frame sits in the concatenation at the offset given by the lines of the members before it |
| Loader.ConcatOfFrames | main.py:24 | the concatenation holds each member's lines tagged with its year, in listing order; its length is the sum of the members' line counts |
| Loader.LoadRows | main.py:16-24 | a successful load holds exactly the tagged lines of the `.txt` members, in listing order, and nothing else |
| Aggregate.Divide | main.py:25 | `n / d` is finite exactly when `d > 0`, and then times `d` gives `n`; it is NaN exactly for `0 / 0` and `+inf` otherwise |
| Aggregate.GroupTotals | main.py:32 | one total per row, never below the row's own count, equal for rows of the same (year, sex) group |
| Aggregate.CountWithinTotal | main.py:32 | a row's count is at most the total of its group |
| Aggregate.GroupTotalAppend | main.py:24-25 | group totals over a concatenation are the sums of the parts' totals |
| Aggregate.Proportions | main.py:25 | one proportion per row; none is infinite; every finite one is in [0, 1]; NaN appears exactly in groups whose total is zero |
| Aggregate.ProportionsAreShares | main.py:25 | in a group with a positive total, each row's `pct` is its count over that total |
| Aggregate.GroupShareSumPrefix | main.py:25 | the running sum of a group's shares over the first n rows is the running total over the group total |
| Aggregate.ProportionsSumToOne | main.py:25 | the proportions of every group with a positive total sum to exactly 1 |
| Aggregate.PropIsPct | main.py:33 | `count / total_births` recomputed at line 33 equals `pct` row by row |
| Table.NameTable.Concat | main.py:24-25 | the new table holds the concatenated frames and their `pct` column, with no `total_births` or `prop` yet |
| Table.NameTable.AddTotalBirths | main.py:32 | adds the group totals as `total_births`; rows, `pct` and `prop` are unchanged and the table stays consistent |
| Table.NameTable.AddProp | main.py:33 | adds `prop`, equal to `pct`; rows, `pct` and `total_births` are unchanged |
| Table.LoadNameData | main.py:12-26 | fails exactly when `Load` fails, with the same error; otherwise returns a fresh table holding `Load`'s rows and their `pct` |
| Table.BuildTable | main.py:28-33 | the table the views read: `Load`'s rows with consistent `pct`, `total_births` and `prop` columns, or the load's error |
| Order.StrLessIrreflexive | main.py:40 | Python's `str` order never puts a string before itself |
| Order.StrLessTransitive | main.py:40 | Python's `str` order is transitive |
| Order.StrLessTotal | main.py:40 | any two different strings are ordered one way or the other |
| Order.KeyLessIrreflexive | main.py:40 | the group-key order never puts a key before itself |
| Order.KeyLessTransitive | main.py:40 | the group-key order is transitive |
| Order.KeyLessTotal | main.py:40 | any two different group keys are ordered |
| Queries.InsertKey | main.py:40 | inserting a key keeps the key list sorted without repeats, and adds exactly that key |
| Queries.GroupKeys | main.py:40 | the groups that occur in the table, each once, in `groupby` order |
| Queries.NamesOfSnoc | main.py:40 | a row adds at most its own name to its group's distinct names and nothing to another group's |
| Queries.NamesWithinGroup | main.py:40 | a group has no more distinct names than rows |
| Queries.OccurringGroupsHaveNames | main.py:40 | every group that occurs has at least one name |
| Queries.UniqueNames | main.py:40 | one entry per group, sorted by (year, sex), holding the number of distinct names of the group: at least 1 and at most the group's row count |
| Queries.UniqueNamesCoverGroups | main.py:40 | every entry is a group of the table and every group of the table has an entry |
| Queries.Where | main.py:60 | boolean indexing keeps exactly the rows the mask selects, each once, in table order |
| Queries.NameRows | main.py:60 | exactly the rows whose name equals the query (case-sensitive), in table order; a name that does not occur gives no rows |
| Queries.YearRows | main.py:84 | exactly the rows of the given year, in table order |
| Queries.SexRows | main.py:86-89 | of the given rows, exactly those of the chosen sex, in table order |
| Queries.GroupRowsCover | main.py:84-89 | filtering by year and then by sex leaves exactly the rows of that (year, sex) group |
| Queries.GroupLabelsLength | main.py:84-89 | a label list covering exactly a group's rows, each once, is as long as the group |
| Queries.BestRanks | main.py:87 | the row `nlargest` picks first is one of the candidates and ranks before all the others |
| Queries.WithoutMembers | main.py:87 | removing the chosen row leaves exactly the other candidates |
| Queries.WithoutDistinct | main.py:87 | removing the chosen row leaves one candidate fewer and no repeats |
| Queries.NLargestSelects | main.py:87 | `nlargest(n)` keeps min(n, candidates) rows, all candidates, and every candidate when there are no more than n |
| Queries.NLargestRanked | main.py:87 | the kept rows come best first, and every candidate left out ranks below every row kept |
| Queries.RankedStep | main.py:87 | putting the best candidate in front of a ranked selection of the rest keeps the selection ranked |
| Queries.TopOfGroup | main.py:84-89 | `nlargest` over the rows of a group is that group's top: at most n rows of the group, each once, the whole group if it has n rows or fewer, best first, each kept row ranked above every row left out |
| Queries.TopNames | main.py:84-89 | the view holds min(10, group size) rows of the chosen year and sex with the properties `TopOfGroup` states; "F" picks the women and any other choice the men |
| Queries.TopByCount | main.py:87-89 | in the top list counts never increase, equal counts keep table order, and no row left out of the group has a larger count than a row kept |
| Queries.GroupSizeAbsent | main.py:84-89 | a group with no rows has size zero |
| Queries.TopNamesEmptyGroup | main.py:84-89 | a year and sex with no rows gives an empty view, not an error |

## Left out

- Downloading `names.zip` (main.py:13-14) and opening it (main.py:15, 19) are not modelled. No network or zip code is here. An archive is given as the list of its members, each already parsed into lines.
- `pd.read_csv` (main.py:20) is modelled only by its outcome. The quoting, type inference and malformed-line handling of the CSV dialect are not modelled. A member with no lines raises `EmptyDataError`, which is modelled (`LoadError.EmptyData`). Counts are taken as already parsed non-negative integers.
- `@st.cache_data` (main.py:11) is not modelled. Caching changes when the load runs, not what it computes.
- The Streamlit widgets, titles, tabs and every plot (main.py:34-39, 41-59, 61-83, 90-97) are not modelled. The values they supply are parameters: the name `noi`, the year and the choice of sex.
- The split of the name's rows by sex for plotting (main.py:44, 65, 68) feeds only the plots and is not modelled.
- `int()` of the year text box (main.py:82) is not modelled. The year is taken as an integer parameter, so the `ValueError` a non-numeric entry raises in the UI is not modelled.
- Aggregate.Divide: uses exact rationals, not IEEE float64 division. Rounding is not modelled, so `ProportionsSumToOne` holds exactly where float64 gives 1 only up to rounding.
- Names.Row: counts and years are unbounded integers, not pandas' int64. The SSA data are far below the int64 range, so no overflow is modelled.
- PyText.ParseInt: accepts only ASCII digits. Python's `int()` also accepts other Unicode decimal digits, which a name in the archive's `yobYYYY.txt` scheme never contains.
- Queries.Before: orders tied rows by table position. pandas' default `keep='first'` only decides which rows tied at the cut are kept (the earliest, as here). When a group has ten rows or fewer, pandas sorts them with a sort that is not stable, so the order of tied rows in its result is not promised. `TopByCount`'s tie clause is therefore this model's rule, not pandas'. Other `keep` options are not modelled.
- `df.columns = ['name','sex','count']` (main.py:21) raises `ValueError` for a member whose lines do not have exactly three fields. This is not modelled: a member is given as lines already split into the three columns.
- Members with the same name: `z.open(file)` (main.py:19) opens the last member of that name each time it is listed. This is not modelled: the model reads each listed member's own lines.
