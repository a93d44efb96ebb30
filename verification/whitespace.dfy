/** `str.strip()` with no argument: leading and trailing whitespace removed. */
module Whitespace {
  import opened Chars

  /** Every character of `s[a..b]` is whitespace. */
  predicate SpaceBetween(s: string, a: nat, b: nat)
    requires a <= b <= |s|
  {
    forall k :: a <= k < b ==> IsSpace(s[k])
  }

  /** The first position at or after `i` that holds no whitespace, or `|s|`. */
  function SpaceEnd(s: string, i: nat): (n: nat)
    requires i <= |s|
    ensures i <= n <= |s| && SpaceBetween(s, i, n)
    ensures n == |s| || !IsSpace(s[n])
    decreases |s| - i
  {
    if i < |s| && IsSpace(s[i]) then SpaceEnd(s, i + 1) else i
  }

  /** The position just after the last non-whitespace character of
      `s[lo..j]`, or `lo` when there is none. */
  function SpaceStart(s: string, lo: nat, j: nat): (n: nat)
    requires lo <= j <= |s|
    ensures lo <= n <= j && SpaceBetween(s, n, j)
    ensures n == lo || !IsSpace(s[n - 1])
    decreases j - lo
  {
    if lo < j && IsSpace(s[j - 1]) then SpaceStart(s, lo, j - 1) else j
  }

  /** `s.strip()`: the slice `s[a..b]` such that everything outside it is
      whitespace and it neither starts nor ends with whitespace. */
  function Strip(s: string): (r: string)
    ensures exists a, b :: 0 <= a <= b <= |s| && r == s[a..b] &&
                           SpaceBetween(s, 0, a) && SpaceBetween(s, b, |s|)
    ensures r == "" || (!IsSpace(r[0]) && !IsSpace(r[|r| - 1]))
  {
    var a := SpaceEnd(s, 0);
    var b := SpaceStart(s, a, |s|);
    s[a..b]
  }

  /** Leading whitespace from `i` ends at the first non-space character. */
  lemma {:induction false} SpaceEndAt(s: string, i: nat, a: nat)
    requires i <= a <= |s| && SpaceBetween(s, i, a) && (a == |s| || !IsSpace(s[a]))
    ensures SpaceEnd(s, i) == a
    decreases a - i
  {
    if i < a {
      SpaceEndAt(s, i + 1, a);
    }
  }

  /** Trailing whitespace before `j` starts after the last non-space character. */
  lemma {:induction false} SpaceStartAt(s: string, lo: nat, j: nat, b: nat)
    requires lo <= b <= j <= |s| && SpaceBetween(s, b, j) && (b == lo || !IsSpace(s[b - 1]))
    ensures SpaceStart(s, lo, j) == b
    decreases j - b
  {
    if b < j {
      SpaceStartAt(s, lo, j - 1, b);
    }
  }

  /** The slice that `s.strip()` returns is the only one outside which all is
      whitespace and whose ends are not whitespace. */
  lemma StripAt(s: string, a: nat, b: nat)
    requires a <= b <= |s| && SpaceBetween(s, 0, a) && SpaceBetween(s, b, |s|)
    requires a == b || (!IsSpace(s[a]) && !IsSpace(s[b - 1]))
    ensures Strip(s) == s[a..b]
  {
    if a < b {
      SpaceEndAt(s, 0, a);
      SpaceStartAt(s, a, |s|, b);
    } else {
      SpaceEndAt(s, 0, |s|);
    }
  }

  /** `s.strip()` leaves `s` unchanged exactly when `s` neither starts nor ends
      with whitespace. */
  lemma StripUnchanged(s: string)
    ensures Strip(s) == s <==> (s == "" || (!IsSpace(s[0]) && !IsSpace(s[|s| - 1])))
  {
    if s == "" || (!IsSpace(s[0]) && !IsSpace(s[|s| - 1])) {
      StripAt(s, 0, |s|);
    }
  }
}
