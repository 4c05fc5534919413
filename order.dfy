/**
 * The order in which `groupby(['year', 'sex'])` lists its groups: by year, then
 * by the sex code compared as Python compares strings.
 */
module Order {
  import opened Names

  /** Python's `a < b` on `str`: code points compared left to right, a proper prefix first. */
  predicate StrLess(a: string, b: string)
    decreases |a|
  {
    |b| > 0 && (|a| == 0 || a[0] < b[0] || (a[0] == b[0] && StrLess(a[1..], b[1..])))
  }

  lemma {:induction false} StrLessIrreflexive(a: string)
    ensures !StrLess(a, a)
    decreases |a|
  {
    if |a| > 0 {
      StrLessIrreflexive(a[1..]);
    }
  }

  lemma {:induction false} StrLessTransitive(a: string, b: string, c: string)
    requires StrLess(a, b) && StrLess(b, c)
    ensures StrLess(a, c)
    decreases |a|
  {
    if |a| > 0 && a[0] == b[0] && b[0] == c[0] {
      StrLessTransitive(a[1..], b[1..], c[1..]);
    }
  }

  lemma {:induction false} StrLessTotal(a: string, b: string)
    requires a != b
    ensures StrLess(a, b) || StrLess(b, a)
    decreases |a|
  {
    if |a| > 0 && |b| > 0 && a[0] == b[0] {
      assert a == [a[0]] + a[1..] && b == [b[0]] + b[1..];
      StrLessTotal(a[1..], b[1..]);
    }
  }

  /** The order of the group keys: year first, then sex. */
  predicate KeyLess(g: GroupKey, h: GroupKey) {
    g.year < h.year || (g.year == h.year && StrLess(g.sex, h.sex))
  }

  lemma KeyLessIrreflexive(g: GroupKey)
    ensures !KeyLess(g, g)
  {
    StrLessIrreflexive(g.sex);
  }

  lemma KeyLessTransitive(f: GroupKey, g: GroupKey, h: GroupKey)
    requires KeyLess(f, g) && KeyLess(g, h)
    ensures KeyLess(f, h)
  {
    if f.year == g.year == h.year {
      StrLessTransitive(f.sex, g.sex, h.sex);
    }
  }

  lemma KeyLessTotal(g: GroupKey, h: GroupKey)
    requires g != h
    ensures KeyLess(g, h) || KeyLess(h, g)
  {
    if g.year == h.year {
      StrLessTotal(g.sex, h.sex);
    }
  }

  /** Sorted by key with no key twice. */
  predicate StrictlyIncreasing(ks: seq<GroupKey>) {
    forall i, j :: 0 <= i < j < |ks| ==> KeyLess(ks[i], ks[j])
  }
}
