/** `strip_colors`: one left-to-right pass that deletes Starbound colour
    directives `^name;` (a caret, one or more word characters, a semicolon). */
module Colors {
  import opened Chars

  /** `s[a..b]` is a colour directive. */
  ghost predicate TokenSpan(s: string, a: int, b: int)
  {
    && 0 <= a && a + 3 <= b <= |s|
    && s[a] == '^' && s[b - 1] == ';'
    && forall k :: a < k < b - 1 ==> IsWordChar(s[k])
  }

  /** End of the run of word characters that begins at `j`. */
  function WordRunEnd(s: string, j: nat): (e: nat)
    requires j <= |s|
    ensures j <= e <= |s|
    ensures forall k :: j <= k < e ==> IsWordChar(s[k])
    ensures e < |s| ==> !IsWordChar(s[e])
    decreases |s| - j
  {
    if j < |s| && IsWordChar(s[j]) then WordRunEnd(s, j + 1) else j
  }

  /** Length of the colour directive that the pattern matches at position `i`,
      or 0 when it matches nothing there. Because `;` is not a word character,
      the lazy `\w+?` stops where a greedy `\w+` would, so at most one
      directive starts at any position. */
  function TokenLength(s: string, i: nat): (n: nat)
    requires i < |s|
    ensures n > 0 ==> TokenSpan(s, i, i + n)
    ensures forall b :: TokenSpan(s, i, b) ==> n > 0 && b == i + n
  {
    if s[i] == '^' then
      var e := WordRunEnd(s, i + 1);
      if e > i + 1 && e < |s| && s[e] == ';' then e + 1 - i else 0
    else 0
  }

  /** The scan from position `i`: a directive that starts here is dropped
      whole and the scan resumes after it; any other character is kept. */
  function StripFrom(s: string, i: nat): (r: string)
    requires i <= |s|
    ensures |r| <= |s| - i
    decreases |s| - i
  {
    if i == |s| then ""
    else
      var n := TokenLength(s, i);
      if n > 0 then StripFrom(s, i + n) else [s[i]] + StripFrom(s, i + 1)
  }

  /** `strip_colors(s)`: exactly the characters that lie inside no colour
      directive, in order; every directive is deleted. */
  function StripColors(s: string): (r: string)
    ensures |r| <= |s|
    ensures r == Uncovered(s, 0)
  {
    StripFromUncovered(s, 0);
    StripFrom(s, 0)
  }

  /** Position `j` lies inside some colour directive of `s`. */
  ghost predicate Covered(s: string, j: int)
  {
    exists a, b :: a <= j < b && TokenSpan(s, a, b)
  }

  /** The characters of `s` from position `i` on that lie inside no colour
      directive, in their original order. */
  ghost function Uncovered(s: string, i: nat): (r: string)
    requires i <= |s|
    ensures |r| <= |s| - i
    decreases |s| - i
  {
    if i == |s| then ""
    else
      var rest := Uncovered(s, i + 1);
      (if Covered(s, i) then "" else [s[i]]) + rest
  }

  /** Two colour directives never overlap: a caret is neither a word character
      nor a semicolon, so no directive can begin inside another. */
  lemma TokensDisjoint(s: string, a: int, b: int, c: int, d: int)
    requires TokenSpan(s, a, b) && TokenSpan(s, c, d)
    requires a <= c < b
    ensures a == c && b == d
  {
    CaretOnlyFirst(s, a, b);
    // `s[c]` is a caret, so `c == a`; then both spans start at `a`, and the
    // uniqueness clause of `TokenLength` gives `b == d`.
    assert s[c] == '^';
    assert TokenSpan(s, a, b);
  }

  /** Inside a directive, only its first character is a caret. */
  lemma CaretOnlyFirst(s: string, a: int, b: int)
    requires TokenSpan(s, a, b)
    ensures forall k :: a < k < b ==> s[k] != '^'
  {
  }

  /** Skipping positions that are all covered does not change what is kept. */
  lemma {:induction false} UncoveredSkip(s: string, i: nat, j: nat)
    requires i <= j <= |s|
    requires forall k :: i <= k < j ==> Covered(s, k)
    ensures Uncovered(s, i) == Uncovered(s, j)
    decreases j - i
  {
    if i < j {
      assert Covered(s, i);
      var rest := Uncovered(s, i + 1);
      assert Uncovered(s, i) == "" + rest;
      assert "" + rest == rest;
      UncoveredSkip(s, i + 1, j);
    }
  }

  /** No directive starts before `i` and ends after it. */
  ghost predicate Boundary(s: string, i: int)
  {
    forall a, b :: TokenSpan(s, a, b) && a < i ==> b <= i
  }

  /** A directive that the scan drops at a boundary covers every position it
      spans and ends at another boundary. */
  lemma AfterToken(s: string, i: nat)
    requires i < |s| && TokenLength(s, i) > 0 && Boundary(s, i)
    ensures forall k :: i <= k < i + TokenLength(s, i) ==> Covered(s, k)
    ensures Boundary(s, i + TokenLength(s, i))
  {
    var n := TokenLength(s, i);
    forall k | i <= k < i + n
      ensures Covered(s, k)
    {
      assert TokenSpan(s, i, i + n);
    }
    forall a, b | TokenSpan(s, a, b) && a < i + n
      ensures b <= i + n
    {
      if a >= i {
        TokensDisjoint(s, i, i + n, a, b);
      }
    }
  }

  /** A character that the scan keeps at a boundary is covered by no
      directive, and the next position is a boundary too. */
  lemma AfterKeep(s: string, i: nat)
    requires i < |s| && TokenLength(s, i) == 0 && Boundary(s, i)
    ensures !Covered(s, i)
    ensures Boundary(s, i + 1)
  {
  }

  /** The scan from any position that no directive straddles keeps exactly
      the uncovered characters from there on. */
  lemma {:induction false} StripFromUncovered(s: string, i: nat)
    requires i <= |s| && Boundary(s, i)
    ensures StripFrom(s, i) == Uncovered(s, i)
    decreases |s| - i
  {
    if i < |s| {
      var n := TokenLength(s, i);
      if n > 0 {
        AfterToken(s, i);
        UncoveredSkip(s, i, i + n);
        StripFromUncovered(s, i + n);
      } else {
        AfterKeep(s, i);
        StripFromUncovered(s, i + 1);
      }
    }
  }

  /** When nothing from `i` on is covered, everything from `i` on is kept. */
  lemma {:induction false} UncoveredAll(s: string, i: nat)
    requires i <= |s|
    requires forall k :: i <= k < |s| ==> !Covered(s, k)
    ensures Uncovered(s, i) == s[i..]
    decreases |s| - i
  {
    if i < |s| {
      UncoveredAll(s, i + 1);
      assert s[i..] == [s[i]] + s[i + 1..];
    }
  }

  /** A covered position at or after `i` makes the kept text strictly shorter
      than `s[i..]`. */
  lemma {:induction false} UncoveredShorter(s: string, i: nat, j: nat)
    requires i <= j < |s| && Covered(s, j)
    ensures |Uncovered(s, i)| < |s| - i
    decreases j - i
  {
    if i < j {
      UncoveredShorter(s, i + 1, j);
    }
  }

  /** `strip_colors` leaves a string unchanged exactly when it contains no
      colour directive. */
  lemma StripColorsUnchanged(s: string)
    ensures StripColors(s) == s <==> forall a, b :: !TokenSpan(s, a, b)
  {
    if forall a, b :: !TokenSpan(s, a, b) {
      UncoveredAll(s, 0);
    } else {
      var a, b :| TokenSpan(s, a, b);
      UncoveredShorter(s, 0, a);
    }
  }
}

/** Worked examples. Each literal is a parameter fixed by `requires` rather
    than written into the `ensures`, which keeps the solver's work on the long
    string literals small. */
module ColorExamples {
  import opened Colors

  /** Both directives of a coloured word are removed. */
  lemma StripColorsRemovesDirectives(s: string)
    requires s == "^red;Hello^reset;"
    ensures StripColors(s) == "Hello"
  {
    assert WordRunEnd(s, 16) == 16;
    assert WordRunEnd(s, 13) == 16;
    assert WordRunEnd(s, 11) == 16;
    assert TokenLength(s, 10) == 7;
    assert StripFrom(s, 10) == "";
    assert StripFrom(s, 9) == "o";
    assert StripFrom(s, 8) == "lo";
    assert StripFrom(s, 7) == "llo";
    assert StripFrom(s, 6) == "ello";
    assert StripFrom(s, 5) == "Hello";
    assert WordRunEnd(s, 4) == 4;
    assert WordRunEnd(s, 1) == 4;
    assert TokenLength(s, 0) == 5;
  }

  /** A caret needs at least one word character and then a semicolon: an empty
      name or a name with a space is not a directive. */
  lemma StripColorsKeepsMalformed(s: string, t: string)
    requires s == "^;" && t == "^a b;"
    ensures StripColors(s) == s
    ensures StripColors(t) == t
  {
    assert WordRunEnd(s, 1) == 1;
    assert TokenLength(s, 0) == 0;
    assert StripFrom(s, 1) == ";";
    assert WordRunEnd(t, 2) == 2;
    assert WordRunEnd(t, 1) == 2;
    assert TokenLength(t, 0) == 0;
    assert StripFrom(t, 4) == ";";
    assert StripFrom(t, 3) == "b;";
    assert StripFrom(t, 2) == " b;";
    assert StripFrom(t, 1) == "a b;";
  }

  /** Text with no caret passes through unchanged. */
  lemma StripColorsPlainText(s: string)
    requires forall k :: 0 <= k < |s| ==> s[k] != '^'
    ensures StripColors(s) == s
  {
    assert forall a, b :: !TokenSpan(s, a, b);
    StripColorsUnchanged(s);
  }

  /** The pass is not idempotent: deleting an inner directive can join the
      pieces of an outer one, which only a second pass removes. */
  lemma StripColorsNotIdempotent(s: string)
    requires s == "^^a;b;"
    ensures StripColors(s) == "^b;"
    ensures StripColors(StripColors(s)) == ""
  {
    assert WordRunEnd(s, 3) == 3;
    assert WordRunEnd(s, 2) == 3;
    assert TokenLength(s, 1) == 3;
    assert StripFrom(s, 5) == ";";
    assert StripFrom(s, 4) == "b;";
    assert StripFrom(s, 1) == "b;";
    assert WordRunEnd(s, 1) == 1;
    assert TokenLength(s, 0) == 0;
    assert StripColors(s) == "^b;";
    var t := "^b;";
    assert WordRunEnd(t, 2) == 2;
    assert WordRunEnd(t, 1) == 2;
    assert TokenLength(t, 0) == 3;
    assert StripFrom(t, 0) == "";
  }
}
