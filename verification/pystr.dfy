/** The two pieces of Python's string semantics the test models rely on:
    `str.replace(old, new)` (every non-overlapping occurrence, scanned from
    the left) and `str(n)` for an integer (decimal digits, a leading '-'
    for negative numbers). */
module PyStr {
  import opened Wrappers

  /** `pat` occurs in `s` starting at index `i`. */
  predicate OccursAt(s: string, pat: string, i: int) {
    0 <= i <= |s| && pat <= s[i..]
  }

  /** `pat` occurs somewhere in `s` (Python's `pat in s`). */
  predicate Occurs(s: string, pat: string) {
    exists i | 0 <= i <= |s| :: OccursAt(s, pat, i)
  }

  /** No occurrence of `pat` in `a + b` starts inside `a` and ends inside `b`. */
  predicate NoMatchAcross(a: string, b: string, pat: string) {
    forall i | 0 <= i < |a| < i + |pat| :: !OccursAt(a + b, pat, i)
  }

  /** Python's `s.count(pat)` for a non-empty `pat`: the non-overlapping
      occurrences found scanning from the left. */
  function Count(s: string, pat: string): nat
    requires |pat| > 0
    decreases |s|
  {
    if |s| == 0 then 0
    else if pat <= s then 1 + Count(s[|pat|..], pat)
    else Count(s[1..], pat)
  }

  /** Python's `s.replace(pat, repl)` for a non-empty `pat`: scanning from the
      left, each occurrence is replaced and scanning resumes after it. Each of
      the `s.count(pat)` occurrences trades `|pat|` characters for `|repl|`. */
  function Replace(s: string, pat: string, repl: string): (r: string)
    requires |pat| > 0
    ensures |r| == |s| + Count(s, pat) * (|repl| - |pat|)
    decreases |s|
  {
    if |s| == 0 then ""
    else if pat <= s then
      var rest := Replace(s[|pat|..], pat, repl);
      assert (1 + Count(s[|pat|..], pat)) * (|repl| - |pat|)
        == Count(s[|pat|..], pat) * (|repl| - |pat|) + (|repl| - |pat|);
      repl + rest
    else [s[0]] + Replace(s[1..], pat, repl)
  }

  /** A string in which `pat` does not occur is returned unchanged. */
  lemma {:induction false} ReplaceNoOccurrence(s: string, pat: string, repl: string)
    requires |pat| > 0
    requires !Occurs(s, pat)
    ensures Replace(s, pat, repl) == s
    decreases |s|
  {
    if |s| > 0 {
      assert !OccursAt(s, pat, 0);
      assert s[0..] == s;
      forall i ensures !OccursAt(s[1..], pat, i) {
        if OccursAt(s[1..], pat, i) {
          assert s[1..][i..] == s[i + 1..];
          assert OccursAt(s, pat, i + 1);
        }
      }
      ReplaceNoOccurrence(s[1..], pat, repl);
    }
  }

  /** Dropping the first `k` characters of `a` keeps the seam of `a + b`
      free of straddling occurrences. */
  lemma NoMatchAcrossDrop(a: string, b: string, pat: string, k: nat)
    requires k <= |a|
    requires NoMatchAcross(a, b, pat)
    ensures (a + b)[k..] == a[k..] + b
    ensures NoMatchAcross(a[k..], b, pat)
  {
    var s := a + b;
    assert s[k..] == a[k..] + b;
    forall i | 0 <= i < |a[k..]| < i + |pat| ensures !OccursAt(a[k..] + b, pat, i) {
      assert (a[k..] + b)[i..] == s[i + k..];
      assert !OccursAt(s, pat, i + k);
    }
  }

  /** Replacing in a concatenation replaces in each half, provided no
      occurrence straddles the seam. */
  lemma {:induction false} ReplaceConcat(a: string, b: string, pat: string, repl: string)
    requires |pat| > 0
    requires NoMatchAcross(a, b, pat)
    ensures Replace(a + b, pat, repl) == Replace(a, pat, repl) + Replace(b, pat, repl)
    decreases |a|
  {
    var s := a + b;
    if |a| == 0 {
      assert s == b;
    } else if pat <= s {
      assert OccursAt(s, pat, 0) by { assert s[0..] == s; }
      assert pat <= a by {
        assert |pat| <= |a|;
        assert pat == s[..|pat|] == a[..|pat|];
      }
      NoMatchAcrossDrop(a, b, pat, |pat|);
      ReplaceConcat(a[|pat|..], b, pat, repl);
    } else {
      assert !(pat <= a);
      NoMatchAcrossDrop(a, b, pat, 1);
      ReplaceConcat(a[1..], b, pat, repl);
    }
  }

  /** Every occurrence is replaced, not only a trailing one: with `a` free of
      the pattern, `a + pat + b` becomes `a + repl` followed by the
      replacement applied to `b`. The pattern must not overlap itself at the
      seam, which `BorderFree` rules out. */
  lemma ReplaceFirstOccurrence(a: string, b: string, pat: string, repl: string)
    requires |pat| > 0
    requires !Occurs(a, pat)
    requires BorderFree(pat)
    ensures Replace(a + pat + b, pat, repl) == a + repl + Replace(b, pat, repl)
  {
    assert a + pat + b == a + (pat + b);
    forall i | 0 <= i < |a| < i + |pat| ensures !OccursAt(a + (pat + b), pat, i) {
      var t, k := (a + (pat + b))[i..], |a| - i;
      assert t[k..] == pat + b;
      assert !(pat[k..] <= pat);
      assert forall j | 0 <= j < |pat| - k :: t[k + j] == pat[j];
    }
    ReplaceConcat(a, pat + b, pat, repl);
    ReplaceNoOccurrence(a, pat, repl);
    assert (pat + b)[|pat|..] == b;
  }

  /** No proper non-empty suffix of `pat` is also a prefix of it. */
  predicate BorderFree(pat: string) {
    forall k | 0 < k < |pat| :: !(pat[k..] <= pat)
  }

  /** ".git", the pattern removed from fork URLs, cannot overlap itself. */
  lemma GitPatternBorderFree()
    ensures BorderFree(".git")
  {
    forall k | 0 < k < 4 ensures !(".git"[k..] <= ".git") {
      assert ".git"[k..][0] != '.';
    }
  }

  // ---------------------------------------------------------------------
  // str(n) for integers

  function DigitChar(d: nat): (c: char)
    requires d < 10
    ensures '0' <= c <= '9'
  {
    "0123456789"[d]
  }

  function DigitValue(c: char): (d: nat)
    requires '0' <= c <= '9'
    ensures d < 10 && DigitChar(d) == c
  {
    (c as int - '0' as int) as nat
  }

  predicate IsDigits(s: string) {
    forall i :: 0 <= i < |s| ==> '0' <= s[i] <= '9'
  }

  /** Decimal digits of a natural number, without leading zeros. */
  function NatToString(n: nat): (s: string)
    ensures |s| > 0 && IsDigits(s)
    ensures s[0] == '0' ==> n == 0
    decreases n
  {
    if n < 10 then [DigitChar(n)] else NatToString(n / 10) + [DigitChar(n % 10)]
  }

  /** Python's `str(n)` for an `int`. */
  function IntToString(n: int): (s: string)
    ensures |s| > 0
    ensures n < 0 <==> s[0] == '-'
  {
    if n < 0 then "-" + NatToString(-n) else NatToString(n)
  }

  /** Value of a string of decimal digits. */
  function DigitsValue(s: string): nat
    requires IsDigits(s)
    decreases |s|
  {
    if |s| == 0 then 0 else 10 * DigitsValue(s[..|s| - 1]) + DigitValue(s[|s| - 1])
  }

  /** A non-empty digit string without a leading zero, or "0". */
  predicate IsCanonicalDigits(s: string) {
    |s| > 0 && IsDigits(s) && (s[0] != '0' || |s| == 1)
  }

  /** The texts `str` produces for an integer: canonical digits, or '-'
      followed by canonical digits of a positive number. */
  predicate IsCanonicalInt(s: string) {
    IsCanonicalDigits(s) || (|s| > 1 && s[0] == '-' && IsCanonicalDigits(s[1..]) && s[1] != '0')
  }

  /** Python's `int(s)` restricted to an optional '-' followed by at least
      one decimal digit. Every text `str` can produce is parsed to the integer
      whose `str` it is. */
  function ParseInt(s: string): (r: Option<int>)
    ensures IsCanonicalInt(s) ==> r.Some? && IntToString(r.value) == s
  {
    if |s| > 0 && s[0] == '-' then
      if |s| > 1 && IsDigits(s[1..]) then
        NegativeRoundTrip(s);
        Some(-(DigitsValue(s[1..]) as int))
      else None
    else if |s| > 0 && IsDigits(s) then
      if IsCanonicalDigits(s) then DigitsRoundTrip(s); Some(DigitsValue(s))
      else Some(DigitsValue(s))
    else None
  }

  /** A canonical negative text is `str` of minus its digits' value. */
  lemma NegativeRoundTrip(s: string)
    requires |s| > 1 && s[0] == '-' && IsDigits(s[1..])
    ensures IsCanonicalInt(s) ==> IntToString(-(DigitsValue(s[1..]) as int)) == s
  {
    if IsCanonicalInt(s) {
      DigitsPositive(s[1..]);
      DigitsRoundTrip(s[1..]);
      assert s == "-" + s[1..];
    }
  }

  /** Digits without a leading zero have a positive value. */
  lemma {:induction false} DigitsPositive(s: string)
    requires |s| > 0 && IsDigits(s) && s[0] != '0'
    ensures DigitsValue(s) > 0
    decreases |s|
  {
    if |s| > 1 {
      DigitsPositive(s[..|s| - 1]);
    } else {
      assert DigitChar(0) == '0';
    }
  }

  /** Canonical digits are the decimal form of their own value. */
  lemma {:induction false} DigitsRoundTrip(s: string)
    requires IsCanonicalDigits(s)
    ensures NatToString(DigitsValue(s)) == s
    decreases |s|
  {
    var init, d := s[..|s| - 1], DigitValue(s[|s| - 1]);
    var n := DigitsValue(s);
    if |s| == 1 {
      assert init == [];
    } else {
      DigitsPositive(init);
      DigitsRoundTrip(init);
      assert n / 10 == DigitsValue(init) && n % 10 == d;
      assert s == init + [s[|s| - 1]];
    }
  }

  lemma {:induction false} NatToStringRoundTrip(n: nat)
    ensures DigitsValue(NatToString(n)) == n
    decreases n
  {
    var s := NatToString(n);
    if n >= 10 {
      NatToStringRoundTrip(n / 10);
      assert s[..|s| - 1] == NatToString(n / 10);
    }
  }

  /** `str` and `int` are inverse on integers. */
  lemma IntToStringRoundTrip(n: int)
    ensures ParseInt(IntToString(n)) == Some(n)
  {
    if n < 0 {
      NegativeIntRoundTrip(n);
    } else {
      NatToStringRoundTrip(n);
      var s := NatToString(n);
      assert s[0] != '-';
    }
  }

  lemma NegativeIntRoundTrip(n: int)
    requires n < 0
    ensures ParseInt(IntToString(n)) == Some(n)
  {
    var digits := NatToString(-n);
    NatToStringRoundTrip(-n);
    var s := "-" + digits;
    assert s[1..] == digits;
    assert ParseInt(s) == Some(-(DigitsValue(digits) as int));
  }
}
