/**
 * The per-group aggregation of the table: the group totals that
 * `groupby(['year', 'sex'])['count'].transform('sum')` gives every row, and
 * the proportion `count / total` stored as `pct` and again as `prop`.
 */
module Aggregate {
  import opened Names

  /** A float64 quotient, held exactly: a finite value, positive infinity, or NaN. */
  datatype Quotient = Finite(value: real) | PosInf | NaN

  /** `n / d` on two non-negative integer columns: `0 / 0` is NaN and `n / 0` is infinity. */
  function Divide(n: nat, d: nat): (q: Quotient)
    ensures q.Finite? <==> d > 0
    ensures q.Finite? ==> q.value * d as real == n as real
    ensures q.NaN? <==> d == 0 && n == 0
  {
    if d > 0 then Finite(n as real / d as real) else if n == 0 then NaN else PosInf
  }

  /** The sum of `count` over the rows of group `g`. */
  function GroupTotal(rows: seq<Row>, g: GroupKey): nat {
    if rows == [] then 0
    else
      var last := rows[|rows| - 1];
      GroupTotal(rows[..|rows| - 1], g) + (if last.Key() == g then last.count else 0)
  }

  /** The number of rows of group `g`. */
  function GroupSize(rows: seq<Row>, g: GroupKey): nat {
    if rows == [] then 0
    else GroupSize(rows[..|rows| - 1], g) + (if rows[|rows| - 1].Key() == g then 1 else 0)
  }

  /** The `total_births` column: every row gets the total of its own group. */
  function GroupTotals(rows: seq<Row>): (totals: seq<nat>)
    ensures |totals| == |rows|
    ensures forall i :: 0 <= i < |rows| ==> rows[i].count <= totals[i]
    ensures forall i, j :: 0 <= i < |rows| && 0 <= j < |rows| && rows[i].Key() == rows[j].Key() ==>
      totals[i] == totals[j]
  {
    CountsWithinTotals(rows);
    seq(|rows|, i requires 0 <= i < |rows| => GroupTotal(rows, rows[i].Key()))
  }

  /** The counts column. */
  function Counts(rows: seq<Row>): (counts: seq<nat>)
    ensures |counts| == |rows|
  {
    seq(|rows|, i requires 0 <= i < |rows| => rows[i].count)
  }

  /** Element-wise division of two columns of the same length. */
  function DivideColumns(a: seq<nat>, b: seq<nat>): (q: seq<Quotient>)
    requires |a| == |b|
    ensures |q| == |a|
  {
    seq(|a|, i requires 0 <= i < |a| => Divide(a[i], b[i]))
  }

  /**
   * The `pct` column: each row's count over its group's total. No value is
   * infinite, every finite value lies in [0, 1], and NaN appears exactly in the
   * groups whose total is zero.
   */
  function Proportions(rows: seq<Row>): (pct: seq<Quotient>)
    ensures |pct| == |rows|
    ensures forall i :: 0 <= i < |rows| ==> !pct[i].PosInf?
    ensures forall i :: 0 <= i < |rows| && pct[i].Finite? ==> 0.0 <= pct[i].value <= 1.0
    ensures forall i :: 0 <= i < |rows| ==> (pct[i].NaN? <==> GroupTotal(rows, rows[i].Key()) == 0)
  {
    var totals := GroupTotals(rows);
    ProportionsWithin(rows, totals);
    seq(|rows|, i requires 0 <= i < |rows| => Divide(rows[i].count, totals[i]))
  }

  /** A count over a total at least as large is finite in [0, 1], or NaN when the total is zero. */
  lemma ShareWithin(n: nat, d: nat)
    requires n <= d
    ensures !Divide(n, d).PosInf?
    ensures Divide(n, d).Finite? ==> 0.0 <= Divide(n, d).value <= 1.0
    ensures Divide(n, d).NaN? <==> d == 0
  {
    if d > 0 {
      assert n as real / d as real <= d as real / d as real;
    }
  }

  lemma ProportionsWithin(rows: seq<Row>, totals: seq<nat>)
    requires totals == GroupTotals(rows)
    ensures forall i :: 0 <= i < |rows| ==>
      var q := Divide(rows[i].count, totals[i]);
      && !q.PosInf?
      && (q.Finite? ==> 0.0 <= q.value <= 1.0)
      && (q.NaN? <==> GroupTotal(rows, rows[i].Key()) == 0)
  {
    forall i | 0 <= i < |rows|
      ensures var q := Divide(rows[i].count, totals[i]);
        && !q.PosInf?
        && (q.Finite? ==> 0.0 <= q.value <= 1.0)
        && (q.NaN? <==> GroupTotal(rows, rows[i].Key()) == 0)
    {
      assert totals[i] == GroupTotal(rows, rows[i].Key());
      ShareWithin(rows[i].count, totals[i]);
    }
  }

  /**
   * The sum of the finite `pct` values of group `g` among the first `n` rows;
   * pandas' `sum` skips NaN.
   */
  function GroupShareSum(rows: seq<Row>, pct: seq<Quotient>, g: GroupKey, n: nat): real
    requires n <= |rows| == |pct|
  {
    if n == 0 then 0.0
    else
      var share := if rows[n - 1].Key() == g && pct[n - 1].Finite? then pct[n - 1].value else 0.0;
      GroupShareSum(rows, pct, g, n - 1) + share
  }

  // ---------------------------------------------------------------------------
  // Properties

  /** A row's count never exceeds its group's total. */
  lemma {:induction false} CountWithinTotal(rows: seq<Row>, i: nat)
    requires i < |rows|
    ensures rows[i].count <= GroupTotal(rows, rows[i].Key())
  {
    var m := |rows| - 1;
    if i < m {
      CountWithinTotal(rows[..m], i);
      assert rows[..m][i] == rows[i];
    }
  }

  lemma CountsWithinTotals(rows: seq<Row>)
    ensures forall i :: 0 <= i < |rows| ==> rows[i].count <= GroupTotal(rows, rows[i].Key())
  {
    forall i | 0 <= i < |rows| ensures rows[i].count <= GroupTotal(rows, rows[i].Key()) {
      CountWithinTotal(rows, i);
    }
  }

  /** Group totals add up over a concatenation of tables. */
  lemma {:induction false} GroupTotalAppend(a: seq<Row>, b: seq<Row>, g: GroupKey)
    ensures GroupTotal(a + b, g) == GroupTotal(a, g) + GroupTotal(b, g)
    decreases |b|
  {
    if b == [] {
      assert a + b == a;
    } else {
      var m := |b| - 1;
      assert (a + b)[..|a + b| - 1] == a + b[..m];
      GroupTotalAppend(a, b[..m], g);
    }
  }

  /** `total_births / count` recomputed at line 33 agrees with `pct` on every row. */
  lemma PropIsPct(rows: seq<Row>)
    ensures DivideColumns(Counts(rows), GroupTotals(rows)) == Proportions(rows)
  {
    var q := DivideColumns(Counts(rows), GroupTotals(rows));
    var p := Proportions(rows);
    forall i | 0 <= i < |rows| ensures q[i] == p[i] {
    }
  }

  /** Adding the share `c / t` to a running sum `a / t` gives `(a + c) / t`. */
  lemma AddShares(sum: real, a: real, share: real, c: real, t: real)
    requires t > 0.0 && sum == a / t && share == c / t
    ensures sum + share == (a + c) / t
  {
  }

  lemma SelfShare(t: real)
    requires t > 0.0
    ensures t / t == 1.0
  {
  }

  /** Every row of group `g` holds the share `count / total` in `pct`, and the total is positive. */
  ghost predicate SharesOf(rows: seq<Row>, pct: seq<Quotient>, g: GroupKey)
    requires |pct| == |rows|
  {
    && GroupTotal(rows, g) > 0
    && forall i :: 0 <= i < |rows| && rows[i].Key() == g ==>
      pct[i] == Finite(rows[i].count as real / GroupTotal(rows, g) as real)
  }

  /** The `pct` column holds every group's shares. */
  lemma ProportionsAreShares(rows: seq<Row>, g: GroupKey)
    requires GroupTotal(rows, g) > 0
    ensures SharesOf(rows, Proportions(rows), g)
  {
    var pct := Proportions(rows);
    var totals := GroupTotals(rows);
    forall i | 0 <= i < |rows| && rows[i].Key() == g
      ensures pct[i] == Finite(rows[i].count as real / GroupTotal(rows, g) as real)
    {
      assert pct[i] == Divide(rows[i].count, totals[i]);
      assert totals[i] == GroupTotal(rows, g);
    }
  }

  /** The running share sum of a group is its running total over the full total. */
  lemma {:induction false} GroupShareSumPrefix(rows: seq<Row>, pct: seq<Quotient>, g: GroupKey, n: nat)
    requires n <= |rows| == |pct| && SharesOf(rows, pct, g)
    ensures GroupShareSum(rows, pct, g, n) == GroupTotal(rows[..n], g) as real / GroupTotal(rows, g) as real
  {
    if n > 0 {
      var m: nat := n - 1;
      var t := GroupTotal(rows, g) as real;
      GroupShareSumPrefix(rows, pct, g, m);
      assert rows[..n][..m] == rows[..m];
      var r := rows[m];
      var prev := GroupTotal(rows[..m], g);
      var before := GroupShareSum(rows, pct, g, m);
      var share := if r.Key() == g && pct[m].Finite? then pct[m].value else 0.0;
      assert GroupShareSum(rows, pct, g, n) == before + share;
      var now := prev + (if r.Key() == g then r.count else 0);
      assert GroupTotal(rows[..n], g) == now;
      if r.Key() == g {
        assert pct[m] == Finite(r.count as real / t);
        AddShares(before, prev as real, share, r.count as real, t);
        assert now as real == prev as real + r.count as real;
      }
    }
  }

  /** The proportions of every group with a non-zero total sum to exactly one. */
  lemma ProportionsSumToOne(rows: seq<Row>, g: GroupKey)
    requires GroupTotal(rows, g) > 0
    ensures GroupShareSum(rows, Proportions(rows), g, |rows|) == 1.0
  {
    ProportionsAreShares(rows, g);
    GroupShareSumPrefix(rows, Proportions(rows), g, |rows|);
    assert rows[..|rows|] == rows;
    SelfShare(GroupTotal(rows, g) as real);
  }
}
