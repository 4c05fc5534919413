/**
 * The few pieces of Python's string semantics the loader relies on:
 * `str.endswith`, slicing with clamped bounds, and `int()` of a string.
 */
module PyText {
  import opened Results

  /** `s.endswith(suffix)`. */
  predicate EndsWith(s: string, suffix: string) {
    |suffix| <= |s| && s[|s| - |suffix|..] == suffix
  }

  /** `s[lo:hi]` for `0 <= lo <= hi`: Python clamps both bounds to the length instead of failing. */
  function Slice(s: string, lo: nat, hi: nat): string
    requires lo <= hi
  {
    if |s| <= lo then [] else if |s| <= hi then s[lo..] else s[lo..hi]
  }

  /**
   * The characters `int()` strips at both ends of its argument: the ASCII
   * whitespace `\t \n \v \f \r` and space, and the non-ASCII characters for
   * which `str.isspace()` holds. The ASCII separators U+001C to U+001F count as
   * whitespace for `str.isspace()` but not for `int()`, which rejects them.
   */
  predicate IsSpace(c: char) {
    var n := c as int;
    (9 <= n <= 13) || n == 32 || n == 0x85 || n == 0xA0 || n == 0x1680
    || (0x2000 <= n <= 0x200A) || n == 0x2028 || n == 0x2029 || n == 0x202F
    || n == 0x205F || n == 0x3000
  }

  predicate IsDigit(c: char) {
    '0' <= c <= '9'
  }

  /** `s` without its leading whitespace. */
  function TrimStart(s: string): string {
    if |s| > 0 && IsSpace(s[0]) then TrimStart(s[1..]) else s
  }

  /** `s` without its trailing whitespace. */
  function TrimEnd(s: string): string {
    if |s| > 0 && IsSpace(s[|s| - 1]) then TrimEnd(s[..|s| - 1]) else s
  }

  /** `TrimStart` drops a prefix of whitespace and stops at the first other character. */
  lemma {:induction false} TrimStartFacts(s: string)
    ensures |TrimStart(s)| <= |s| && TrimStart(s) == s[|s| - |TrimStart(s)|..]
    ensures forall k :: 0 <= k < |s| - |TrimStart(s)| ==> IsSpace(s[k])
    ensures |TrimStart(s)| > 0 ==> !IsSpace(TrimStart(s)[0])
  {
    if |s| > 0 && IsSpace(s[0]) {
      TrimStartFacts(s[1..]);
      assert forall k :: 0 < k < |s| ==> s[1..][k - 1] == s[k];
    }
  }

  /** `TrimEnd` drops a suffix of whitespace and stops at the last other character. */
  lemma {:induction false} TrimEndFacts(s: string)
    ensures |TrimEnd(s)| <= |s| && TrimEnd(s) == s[..|TrimEnd(s)|]
    ensures forall k :: |TrimEnd(s)| <= k < |s| ==> IsSpace(s[k])
    ensures |TrimEnd(s)| > 0 ==> !IsSpace(TrimEnd(s)[|TrimEnd(s)| - 1])
  {
    if |s| > 0 && IsSpace(s[|s| - 1]) {
      var init := s[..|s| - 1];
      TrimEndFacts(init);
      assert forall k :: 0 <= k < |init| ==> init[k] == s[k];
      assert init[..|TrimEnd(init)|] == s[..|TrimEnd(init)|];
    }
  }

  /**
   * The digits of a base-10 literal as `int()` accepts them: a digit first,
   * and every underscore directly followed by a digit.
   */
  predicate IsDigitRun(b: string) {
    |b| > 0 && IsDigit(b[0]) &&
    forall k {:trigger b[k]} :: 0 <= k < |b| ==> IsDigit(b[k]) || (b[k] == '_' && k + 1 < |b| && IsDigit(b[k + 1]))
  }

  /** The number a digit run denotes; underscores are only separators. */
  function DigitRunValue(b: string): nat {
    if b == [] then 0
    else
      var last := b[|b| - 1];
      var v := DigitRunValue(b[..|b| - 1]);
      if IsDigit(last) then v * 10 + (last as int - '0' as int) else v
  }

  /**
   * `int(s)` for a `str` in base 10. `None` stands for the `ValueError` Python
   * raises: surrounding whitespace, one optional sign, then a digit run.
   */
  function ParseInt(s: string): Option<int> {
    var t := TrimEnd(TrimStart(s));
    if |t| > 0 && (t[0] == '+' || t[0] == '-') then
      var body := t[1..];
      if IsDigitRun(body) then
        var v: int := DigitRunValue(body);
        Some(if t[0] == '-' then -v else v)
      else None
    else if IsDigitRun(t) then Some(DigitRunValue(t))
    else None
  }

  function DigitChar(d: nat): (c: char)
    requires d < 10
    ensures IsDigit(c) && c as int - '0' as int == d
  {
    ('0' as int + d) as char
  }

  /** The decimal notation of `n`, as Python's `str(n)` writes it. */
  function ShowNat(n: nat): (r: string)
    ensures |r| > 0 && forall k :: 0 <= k < |r| ==> IsDigit(r[k])
  {
    if n < 10 then [DigitChar(n)] else ShowNat(n / 10) + [DigitChar(n % 10)]
  }

  function Show(n: int): string {
    if n < 0 then "-" + ShowNat(-n) else ShowNat(n)
  }

  lemma {:induction false} ShowNatValue(n: nat)
    ensures DigitRunValue(ShowNat(n)) == n
  {
    var s := ShowNat(n);
    if n < 10 {
      assert s[..|s| - 1] == [];
    } else {
      assert s[..|s| - 1] == ShowNat(n / 10);
      ShowNatValue(n / 10);
    }
  }

  /** Whitespace-free ends leave nothing for `int()` to strip. */
  lemma TrimUnchanged(s: string)
    requires |s| > 0 && !IsSpace(s[0]) && !IsSpace(s[|s| - 1])
    ensures TrimEnd(TrimStart(s)) == s
  {
    assert TrimStart(s) == s;
  }

  /** `int(str(n)) == n`: parsing inverts the decimal notation. */
  lemma ParseShow(n: int)
    ensures ParseInt(Show(n)) == Some(n)
  {
    if n < 0 {
      ParseShowNegative(-n);
    } else {
      ParseShowNat(n);
    }
  }

  /** A non-empty run of plain digits is a digit run. */
  lemma DigitsAreRun(b: string)
    requires |b| > 0 && forall k :: 0 <= k < |b| ==> IsDigit(b[k])
    ensures IsDigitRun(b)
  {
  }

  lemma ParseShowNat(n: nat)
    ensures ParseInt(ShowNat(n)) == Some(n)
  {
    var s := ShowNat(n);
    TrimUnchanged(s);
    DigitsAreRun(s);
    ShowNatValue(n);
  }

  lemma ParseShowNegative(n: nat)
    requires n > 0
    ensures ParseInt("-" + ShowNat(n)) == Some(-(n as int))
  {
    var digits := ShowNat(n);
    var s := "-" + digits;
    TrimUnchanged(s);
    assert s[1..] == digits;
    DigitsAreRun(digits);
    ShowNatValue(n);
  }

  /**
   * A character that is neither whitespace, a digit, a sign nor an underscore
   * anywhere in `s` makes `int(s)` fail.
   */
  lemma ParseIntRejects(s: string, k: nat)
    requires k < |s|
    requires !IsSpace(s[k]) && !IsDigit(s[k]) && s[k] != '+' && s[k] != '-' && s[k] != '_'
    ensures ParseInt(s) == None
  {
    var t := TrimEnd(TrimStart(s));
    TrimKeeps(s, k);
    var j :| 0 <= j < |t| && t[j] == s[k];
    if |t| > 0 && (t[0] == '+' || t[0] == '-') {
      var body := t[1..];
      assert body[j - 1] == t[j];
      NotDigitRun(body, j - 1);
    } else {
      NotDigitRun(t, j);
    }
  }

  /** Trimming keeps every non-space character of `s`. */
  lemma TrimKeeps(s: string, k: nat)
    requires k < |s| && !IsSpace(s[k])
    ensures exists j :: 0 <= j < |TrimEnd(TrimStart(s))| && TrimEnd(TrimStart(s))[j] == s[k]
  {
    var u := TrimStart(s);
    var t := TrimEnd(u);
    TrimStartFacts(s);
    TrimEndFacts(u);
    var a := |s| - |u|;
    assert a <= k;
    assert u[k - a] == s[k];
    assert k - a < |t|;
    assert t[k - a] == s[k];
  }

  lemma NotDigitRun(b: string, j: nat)
    requires j < |b| && !IsDigit(b[j]) && b[j] != '_'
    ensures !IsDigitRun(b)
  {
  }

  /** `int('')` and `int('   ')` fail. */
  lemma ParseIntBlank(s: string)
    requires forall k :: 0 <= k < |s| ==> IsSpace(s[k])
    ensures ParseInt(s) == None
  {
    TrimStartBlank(s);
  }

  lemma {:induction false} TrimStartBlank(s: string)
    requires forall k :: 0 <= k < |s| ==> IsSpace(s[k])
    ensures TrimStart(s) == []
  {
    if |s| > 0 {
      assert forall k :: 0 <= k < |s| - 1 ==> s[1..][k] == s[k + 1];
      TrimStartBlank(s[1..]);
    }
  }
}
