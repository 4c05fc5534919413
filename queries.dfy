/**
 * The three read-only views over the table: the number of distinct names per
 * (year, sex) group, the rows of one name, and the ten largest counts of one
 * year and sex. Row selections are given as the rows' index labels, which
 * pandas keeps through boolean indexing and `nlargest`.
 */
module Queries {
  import opened Names
  import opened Order
  import opened Aggregate

  /** `idx` lists positions of a table of `n` rows, each once, in table order. */
  predicate IncreasingIndices(idx: seq<nat>, n: nat) {
    (forall p :: 0 <= p < |idx| ==> idx[p] < n) &&
    (forall p, q :: 0 <= p < q < |idx| ==> idx[p] < idx[q])
  }

  /** Boolean-mask indexing `df[mask]`: the labels of the rows `keep` selects, in table order. */
  function Where(rows: seq<Row>, keep: Row -> bool): (idx: seq<nat>)
    ensures IncreasingIndices(idx, |rows|)
    ensures forall i :: 0 <= i < |rows| ==> (i in idx <==> keep(rows[i]))
    decreases |rows|
  {
    if rows == [] then []
    else
      var m := |rows| - 1;
      var init := Where(rows[..m], keep);
      assert forall i :: 0 <= i < m ==> rows[..m][i] == rows[i];
      init + (if keep(rows[m]) then [m] else [])
  }

  // ---------------------------------------------------------------------------
  // The name filter

  /**
   * `df[df['name'] == noi]`: exactly the rows whose name equals `noi`
   * (case-sensitive), in table order; a name that never occurs gives no rows.
   */
  function NameRows(rows: seq<Row>, noi: string): (idx: seq<nat>)
    ensures IncreasingIndices(idx, |rows|)
    ensures forall i :: 0 <= i < |rows| ==> (i in idx <==> rows[i].name == noi)
    ensures (forall i :: 0 <= i < |rows| ==> rows[i].name != noi) ==> idx == []
  {
    var idx := Where(rows, (r: Row) => r.name == noi);
    assert idx != [] ==> idx[0] in idx;
    idx
  }

  // ---------------------------------------------------------------------------
  // Unique names per group

  /** One row of `groupby(['year', 'sex'])['name'].nunique().reset_index()`. */
  datatype NameCount = NameCount(year: int, sex: string, names: nat) {
    function Key(): GroupKey {
      GroupKey(year, sex)
    }
  }

  /** `k` inserted into a strictly increasing key list, unless it is there already. */
  function InsertKey(k: GroupKey, ks: seq<GroupKey>): (r: seq<GroupKey>)
    requires StrictlyIncreasing(ks)
    ensures StrictlyIncreasing(r)
    ensures forall g :: g in r <==> g in ks || g == k
  {
    if ks == [] then [k]
    else if k == ks[0] then ks
    else if KeyLess(k, ks[0]) then
      KeysBelow(k, ks);
      [k] + ks
    else
      KeyLessTotal(k, ks[0]);
      var rest := InsertKey(k, ks[1..]);
      assert forall g :: g in rest ==> KeyLess(ks[0], g);
      [ks[0]] + rest
  }

  /** A key below the head of a strictly increasing list is below all of it. */
  lemma KeysBelow(k: GroupKey, ks: seq<GroupKey>)
    requires StrictlyIncreasing(ks) && ks != [] && KeyLess(k, ks[0])
    ensures forall j :: 0 <= j < |ks| ==> KeyLess(k, ks[j])
  {
    forall j | 0 < j < |ks| ensures KeyLess(k, ks[j]) {
      KeyLessTransitive(k, ks[0], ks[j]);
    }
  }

  /** The groups of the table, each once, in the order `groupby` sorts them. */
  function GroupKeys(rows: seq<Row>): (ks: seq<GroupKey>)
    ensures StrictlyIncreasing(ks)
    ensures forall g :: g in ks <==> exists i :: 0 <= i < |rows| && rows[i].Key() == g
  {
    if rows == [] then []
    else
      var m := |rows| - 1;
      assert forall i :: 0 <= i < m ==> rows[..m][i] == rows[i];
      InsertKey(rows[m].Key(), GroupKeys(rows[..m]))
  }

  /** The distinct names of group `g`. */
  function NamesOf(rows: seq<Row>, g: GroupKey): set<string> {
    set i | 0 <= i < |rows| && rows[i].Key() == g :: rows[i].name
  }

  /** The names of a group grow by at most the last row's name. */
  lemma NamesOfSnoc(rows: seq<Row>, g: GroupKey)
    requires rows != []
    ensures var last := rows[|rows| - 1];
      NamesOf(rows, g) == NamesOf(rows[..|rows| - 1], g) + (if last.Key() == g then {last.name} else {})
  {
    assert forall i :: 0 <= i < |rows| - 1 ==> rows[..|rows| - 1][i] == rows[i];
  }

  /** A group has no more distinct names than rows. */
  lemma {:induction false} NamesWithinGroup(rows: seq<Row>, g: GroupKey)
    ensures |NamesOf(rows, g)| <= GroupSize(rows, g)
    decreases |rows|
  {
    if rows != [] {
      var m := |rows| - 1;
      var init := NamesOf(rows[..m], g);
      var added: set<string> := if rows[m].Key() == g then {rows[m].name} else {};
      NamesOfSnoc(rows, g);
      NamesWithinGroup(rows[..m], g);
      assert |init + added| <= |init| + |added|;
    }
  }

  lemma NamesWithinGroups(rows: seq<Row>)
    ensures forall g :: |NamesOf(rows, g)| <= GroupSize(rows, g)
  {
    forall g ensures |NamesOf(rows, g)| <= GroupSize(rows, g) {
      NamesWithinGroup(rows, g);
    }
  }

  /** Every group that occurs has at least one name. */
  lemma OccurringGroupsHaveNames(rows: seq<Row>)
    ensures forall g :: g in GroupKeys(rows) ==> |NamesOf(rows, g)| >= 1
  {
    forall g | g in GroupKeys(rows) ensures |NamesOf(rows, g)| >= 1 {
      var i :| 0 <= i < |rows| && rows[i].Key() == g;
      assert rows[i].name in NamesOf(rows, g);
    }
  }

  /**
   * `df.groupby(['year', 'sex'])['name'].nunique().reset_index()`: sorted by
   * (year, sex) with no group twice, each entry holding the number of
   * distinct names of its group, at least one and at most the group's rows.
   */
  function UniqueNames(rows: seq<Row>): (r: seq<NameCount>)
    ensures |r| == |GroupKeys(rows)|
    ensures forall k :: 0 <= k < |r| ==> r[k].Key() == GroupKeys(rows)[k]
    ensures forall p, q :: 0 <= p < q < |r| ==> KeyLess(r[p].Key(), r[q].Key())
    ensures forall k :: 0 <= k < |r| ==> r[k].names == |NamesOf(rows, r[k].Key())|
    ensures forall k :: 0 <= k < |r| ==> 1 <= r[k].names <= GroupSize(rows, r[k].Key())
  {
    var ks := GroupKeys(rows);
    OccurringGroupsHaveNames(rows);
    NamesWithinGroups(rows);
    assert forall k :: 0 <= k < |ks| ==> ks[k] in ks;
    seq(|ks|, k requires 0 <= k < |ks| => NameCount(ks[k].year, ks[k].sex, |NamesOf(rows, ks[k])|))
  }

  /**
   * The unique-names view has an entry exactly for the groups that occur in
   * the table.
   */
  lemma UniqueNamesCoverGroups(rows: seq<Row>)
    ensures forall k :: 0 <= k < |UniqueNames(rows)| ==>
      exists i :: 0 <= i < |rows| && rows[i].Key() == UniqueNames(rows)[k].Key()
    ensures forall i :: 0 <= i < |rows| ==>
      exists k :: 0 <= k < |UniqueNames(rows)| && UniqueNames(rows)[k].Key() == rows[i].Key()
  {
    var ks := GroupKeys(rows);
    var r := UniqueNames(rows);
    forall k | 0 <= k < |r| ensures exists i :: 0 <= i < |rows| && rows[i].Key() == r[k].Key() {
      assert ks[k] in ks;
    }
    forall i | 0 <= i < |rows| ensures exists k :: 0 <= k < |r| && r[k].Key() == rows[i].Key() {
      assert rows[i].Key() in ks;
      var k :| 0 <= k < |ks| && ks[k] == rows[i].Key();
      assert r[k].Key() == rows[i].Key();
    }
  }

  // ---------------------------------------------------------------------------
  // The ten most frequent names of one year and sex

  /** How many rows the top-names view keeps. */
  const TopN: nat := 10

  function Min(a: nat, b: nat): nat {
    if a <= b then a else b
  }

  /**
   * The order `nlargest(n, 'count')` ranks rows by: the larger count first, and
   * among equal counts the row that comes first in the frame (`keep='first'`).
   */
  predicate Before(rows: seq<Row>, i: nat, j: nat) {
    i < |rows| && j < |rows| &&
    (rows[i].count > rows[j].count || (rows[i].count == rows[j].count && i < j))
  }

  /** Every label of `idx` names a row of the frame. */
  predicate Labels(rows: seq<Row>, idx: seq<nat>) {
    forall x :: x in idx ==> x < |rows|
  }

  /** No label occurs twice in `idx`. */
  predicate Distinct(idx: seq<nat>) {
    forall p, q :: 0 <= p < q < |idx| ==> idx[p] != idx[q]
  }

  /** The label of `idx` that ranks first. */
  function Best(rows: seq<Row>, idx: seq<nat>): nat
    requires idx != []
  {
    if |idx| == 1 then idx[0]
    else
      var b := Best(rows, idx[1..]);
      if Before(rows, idx[0], b) then idx[0] else b
  }

  /** `Best` is one of the labels and ranks before all the others. */
  lemma {:induction false} BestRanks(rows: seq<Row>, idx: seq<nat>)
    requires idx != [] && Labels(rows, idx)
    ensures Best(rows, idx) in idx
    ensures forall x :: x in idx && x != Best(rows, idx) ==> Before(rows, Best(rows, idx), x)
  {
    assert forall x :: x in idx <==> x == idx[0] || x in idx[1..];
    if |idx| > 1 {
      BestRanks(rows, idx[1..]);
    }
  }

  /** `idx` without the label `b`, in the same order. */
  function Without(idx: seq<nat>, b: nat): seq<nat> {
    if idx == [] then []
    else (if idx[0] == b then [] else [idx[0]]) + Without(idx[1..], b)
  }

  /** Removing `b` keeps exactly the other labels. */
  lemma {:induction false} WithoutMembers(idx: seq<nat>, b: nat)
    ensures forall x :: x in Without(idx, b) <==> x in idx && x != b
  {
    if idx != [] {
      assert forall x :: x in idx <==> x == idx[0] || x in idx[1..];
      WithoutMembers(idx[1..], b);
    }
  }

  /** Removing a label from a list without repeats leaves one label fewer and no repeats. */
  lemma {:induction false} WithoutDistinct(idx: seq<nat>, b: nat)
    requires Distinct(idx)
    ensures Distinct(Without(idx, b))
    ensures |Without(idx, b)| == if b in idx then |idx| - 1 else |idx|
  {
    if idx != [] {
      var tail := idx[1..];
      assert forall x :: x in idx <==> x == idx[0] || x in tail;
      assert Distinct(tail) by {
        assert forall p :: 0 <= p < |tail| ==> tail[p] == idx[p + 1];
      }
      assert idx[0] !in tail by {
        assert forall p :: 0 <= p < |tail| ==> tail[p] == idx[p + 1];
      }
      WithoutDistinct(tail, b);
      WithoutMembers(tail, b);
      var head: seq<nat> := if idx[0] == b then [] else [idx[0]];
      var r := Without(tail, b);
      assert Without(idx, b) == head + r;
      assert forall p :: 0 <= p < |r| ==> r[p] in r;
    }
  }

  /**
   * `nlargest(n, 'count')` over the rows labelled `idx`: the best label, then
   * the `n - 1` best of the rest. `NLargestSelects` and `NLargestRanked` say
   * what it keeps.
   */
  function NLargest(rows: seq<Row>, idx: seq<nat>, n: nat): seq<nat>
    decreases n
  {
    if n == 0 || idx == [] then []
    else
      var b := Best(rows, idx);
      var m: nat := n - 1;
      [b] + NLargest(rows, Without(idx, b), m)
  }

  /**
   * `nlargest` keeps `n` of the labels, or all of them when there are no more
   * than `n`, and nothing else.
   */
  lemma {:induction false} NLargestSelects(rows: seq<Row>, idx: seq<nat>, n: nat)
    requires Labels(rows, idx) && Distinct(idx)
    ensures |NLargest(rows, idx, n)| == Min(n, |idx|)
    ensures forall x :: x in NLargest(rows, idx, n) ==> x in idx
    ensures |idx| <= n ==> forall x :: x in idx ==> x in NLargest(rows, idx, n)
    decreases n
  {
    if n > 0 && idx != [] {
      var b := Best(rows, idx);
      var others := Without(idx, b);
      var m: nat := n - 1;
      var rest := NLargest(rows, others, m);
      assert NLargest(rows, idx, n) == [b] + rest;
      BestRanks(rows, idx);
      WithoutMembers(idx, b);
      WithoutDistinct(idx, b);
      NLargestSelects(rows, others, m);
    }
  }

  /** `top` lists labels best first. */
  predicate Ranked(rows: seq<Row>, top: seq<nat>) {
    forall p, q :: 0 <= p < q < |top| ==> Before(rows, top[p], top[q])
  }

  /** Every label of `idx` left out of `top` ranks below every label of `top`. */
  predicate Dominates(rows: seq<Row>, top: seq<nat>, idx: seq<nat>) {
    forall x, y :: x in top && y in idx && y !in top ==> Before(rows, x, y)
  }

  /**
   * The labels `nlargest` keeps come best first, and every label it leaves
   * out ranks below every label kept.
   */
  lemma {:induction false} NLargestRanked(rows: seq<Row>, idx: seq<nat>, n: nat)
    requires Labels(rows, idx) && Distinct(idx)
    ensures Ranked(rows, NLargest(rows, idx, n))
    ensures Dominates(rows, NLargest(rows, idx, n), idx)
    decreases n
  {
    if n > 0 && idx != [] {
      var b := Best(rows, idx);
      var others := Without(idx, b);
      var m: nat := n - 1;
      var rest := NLargest(rows, others, m);
      assert NLargest(rows, idx, n) == [b] + rest;
      BestRanks(rows, idx);
      WithoutMembers(idx, b);
      WithoutDistinct(idx, b);
      NLargestSelects(rows, others, m);
      NLargestRanked(rows, others, m);
      RankedStep(rows, idx, b, others, rest);
    }
  }

  /** Putting the best label in front of a ranked selection of the others keeps it ranked. */
  lemma RankedStep(rows: seq<Row>, idx: seq<nat>, b: nat, others: seq<nat>, rest: seq<nat>)
    requires b in idx && forall x :: x in idx && x != b ==> Before(rows, b, x)
    requires forall x :: x in others <==> x in idx && x != b
    requires forall x :: x in rest ==> x in others
    requires Ranked(rows, rest) && Dominates(rows, rest, others)
    ensures Ranked(rows, [b] + rest) && Dominates(rows, [b] + rest, idx)
  {
    var top := [b] + rest;
    forall p, q | 0 <= p < q < |top| ensures Before(rows, top[p], top[q]) {
      if p == 0 {
        assert top[q] == rest[q - 1] && rest[q - 1] in rest;
      } else {
        assert top[p] == rest[p - 1] && top[q] == rest[q - 1];
      }
    }
    forall x, y | x in top && y in idx && y !in top ensures Before(rows, x, y) {
      assert y in others;
      if x != b {
        assert x in rest;
      }
    }
  }

  /** The table's rows of year `year` (`df[df['year'] == year_of_interest]`). */
  function YearRows(rows: seq<Row>, year: int): (idx: seq<nat>)
    ensures IncreasingIndices(idx, |rows|)
    ensures forall i :: 0 <= i < |rows| ==> (i in idx <==> rows[i].year == year)
  {
    Where(rows, (r: Row) => r.year == year)
  }

  /** The labels of `idx` whose row has sex `sex` (`top_names[top_names['sex'] == sex]`). */
  function SexRows(rows: seq<Row>, idx: seq<nat>, sex: string): (r: seq<nat>)
    requires IncreasingIndices(idx, |rows|)
    ensures IncreasingIndices(r, |rows|)
    ensures forall x :: x in r <==> x in idx && rows[x].sex == sex
  {
    if idx == [] then []
    else
      var m := |idx| - 1;
      var init := SexRows(rows, idx[..m], sex);
      assert forall x :: x in idx <==> x in idx[..m] || x == idx[m];
      assert forall p :: 0 <= p < |init| ==> init[p] in init;
      init + (if rows[idx[m]].sex == sex then [idx[m]] else [])
  }

  /** The sex the selector picks: "F" picks the women; any other choice picks the men. */
  function ChosenSex(plotGender: string): (sex: string)
    ensures sex == "F" || sex == "M"
    ensures sex == "F" <==> plotGender == "F"
  {
    if plotGender == "F" then "F" else "M"
  }

  /** A list of labels covering exactly the rows of group `g` is as long as the group. */
  lemma {:induction false} GroupLabelsLength(rows: seq<Row>, g: GroupKey, idx: seq<nat>)
    requires IncreasingIndices(idx, |rows|)
    requires forall i :: 0 <= i < |rows| ==> (i in idx <==> rows[i].Key() == g)
    ensures |idx| == GroupSize(rows, g)
    decreases |rows|
  {
    if idx != [] {
      assert idx[0] < |rows|;
    }
    if rows != [] {
      var m := |rows| - 1;
      assert forall i :: 0 <= i < m ==> rows[..m][i] == rows[i];
      if rows[m].Key() == g {
        assert m in idx;
        var last := |idx| - 1;
        assert forall p :: 0 <= p < last ==> idx[p] < idx[last];
        assert idx[last] == m;
        var init := idx[..last];
        assert forall x :: x in idx <==> x in init || x == m;
        GroupLabelsLength(rows[..m], g, init);
      } else {
        assert m !in idx;
        GroupLabelsLength(rows[..m], g, idx);
      }
    }
  }

  /** Filtering by year and then by sex leaves exactly the rows of that group. */
  lemma GroupRowsCover(rows: seq<Row>, g: GroupKey)
    ensures var inGroup := SexRows(rows, YearRows(rows, g.year), g.sex);
      forall i :: 0 <= i < |rows| ==> (i in inGroup <==> rows[i].Key() == g)
  {
    var inYear := YearRows(rows, g.year);
    var inGroup := SexRows(rows, inYear, g.sex);
    forall i | 0 <= i < |rows| ensures i in inGroup <==> rows[i].Key() == g {
      assert i in inGroup <==> i in inYear && rows[i].sex == g.sex;
    }
  }

  /**
   * `top` is what `nlargest(n, 'count')` must give over the rows of group `g`:
   * `n` of them (all of them when the group has no more), each from the
   * group and each once, best first, and every row of the group left out
   * ranked below every row kept.
   */
  predicate IsTopOf(rows: seq<Row>, g: GroupKey, n: nat, top: seq<nat>) {
    && |top| == Min(n, GroupSize(rows, g))
    && (forall p :: 0 <= p < |top| ==> top[p] < |rows| && rows[top[p]].Key() == g)
    && (GroupSize(rows, g) <= n ==> forall i :: 0 <= i < |rows| && rows[i].Key() == g ==> i in top)
    && Ranked(rows, top)
    && (forall p, i :: 0 <= p < |top| && 0 <= i < |rows| && rows[i].Key() == g && i !in top ==>
          Before(rows, top[p], i))
  }

  /** `NLargest` over a label list that covers exactly the rows of group `g` is its top. */
  lemma TopOfGroup(rows: seq<Row>, g: GroupKey, inGroup: seq<nat>, n: nat)
    requires IncreasingIndices(inGroup, |rows|)
    requires forall i :: 0 <= i < |rows| ==> (i in inGroup <==> rows[i].Key() == g)
    ensures Labels(rows, inGroup) && Distinct(inGroup)
    ensures IsTopOf(rows, g, n, NLargest(rows, inGroup, n))
  {
    GroupLabelsLength(rows, g, inGroup);
    assert Labels(rows, inGroup) && Distinct(inGroup);
    NLargestSelects(rows, inGroup, n);
    NLargestRanked(rows, inGroup, n);
    var top := NLargest(rows, inGroup, n);
    forall p | 0 <= p < |top| ensures top[p] < |rows| && rows[top[p]].Key() == g {
      assert top[p] in top;
    }
    forall p, i | 0 <= p < |top| && 0 <= i < |rows| && rows[i].Key() == g && i !in top
      ensures Before(rows, top[p], i)
    {
      assert top[p] in top && i in inGroup;
    }
  }

  /**
   * What the top of a group says about counts: they never increase down the
   * list, equal counts keep table order, and no row left out of the group has
   * a larger count than a row kept.
   */
  lemma TopByCount(rows: seq<Row>, g: GroupKey, n: nat, top: seq<nat>)
    requires IsTopOf(rows, g, n, top)
    ensures forall p, q :: 0 <= p < q < |top| ==> rows[top[p]].count >= rows[top[q]].count
    ensures forall p, q :: 0 <= p < q < |top| && rows[top[p]].count == rows[top[q]].count ==> top[p] < top[q]
    ensures forall p, i :: 0 <= p < |top| && 0 <= i < |rows| && rows[i].Key() == g && i !in top ==>
      rows[top[p]].count >= rows[i].count
  {
    forall p, q | 0 <= p < q < |top|
      ensures rows[top[p]].count >= rows[top[q]].count
      ensures rows[top[p]].count == rows[top[q]].count ==> top[p] < top[q]
    {
      assert Before(rows, top[p], top[q]);
    }
  }

  /**
   * The top-names view (`nlargest(10, 'count')` over the rows of one year and
   * the chosen sex): the top ten of that group, as `IsTopOf` states.
   */
  function TopNames(rows: seq<Row>, year: int, plotGender: string): (top: seq<nat>)
    ensures IsTopOf(rows, GroupKey(year, ChosenSex(plotGender)), TopN, top)
  {
    var g := GroupKey(year, ChosenSex(plotGender));
    var inGroup := SexRows(rows, YearRows(rows, year), g.sex);
    GroupRowsCover(rows, g);
    TopOfGroup(rows, g, inGroup, TopN);
    NLargest(rows, inGroup, TopN)
  }

  /** A group with no rows has size zero. */
  lemma {:induction false} GroupSizeAbsent(rows: seq<Row>, g: GroupKey)
    requires forall i :: 0 <= i < |rows| ==> rows[i].Key() != g
    ensures GroupSize(rows, g) == 0
  {
    if rows != [] {
      var m := |rows| - 1;
      assert forall i :: 0 <= i < m ==> rows[..m][i] == rows[i];
      GroupSizeAbsent(rows[..m], g);
    }
  }

  /** A year and sex with no rows (a year outside the data, say) gives an empty view, not an error. */
  lemma TopNamesEmptyGroup(rows: seq<Row>, year: int, plotGender: string)
    requires forall i :: 0 <= i < |rows| ==> rows[i].year != year || rows[i].sex != ChosenSex(plotGender)
    ensures TopNames(rows, year, plotGender) == []
  {
    GroupSizeAbsent(rows, GroupKey(year, ChosenSex(plotGender)));
  }
}
