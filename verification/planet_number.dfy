/** `strip_planet_number`: colour directives stripped, then every planet
    number (a run of `V`/`I` not followed by a word character, with an optional
    sector tag ` - x`) deleted, then surrounding whitespace trimmed. */
module PlanetNumber {
  import opened Chars
  import Colors
  import Whitespace

  /** The regular-expression class `[VI]`. */
  predicate IsNumeral(c: char)
  {
    c == 'V' || c == 'I'
  }

  /** A sector tag ` - x` (space, hyphen, space, lowercase letter) at `b`. */
  predicate SectorAt(s: string, b: nat)
  {
    b + 4 <= |s| && s[b] == ' ' && s[b + 1] == '-' && s[b + 2] == ' ' && IsLowerAscii(s[b + 3])
  }

  /** Every character of `s[a..b]` is `V` or `I`. */
  predicate NumeralsBetween(s: string, a: nat, b: nat)
    requires a <= b <= |s|
  {
    forall k :: a <= k < b ==> IsNumeral(s[k])
  }

  /** End of the run of `V`/`I` characters that begins at `j`. */
  function NumeralRunEnd(s: string, j: nat): (e: nat)
    requires j <= |s|
    ensures j <= e <= |s|
    ensures NumeralsBetween(s, j, e)
    ensures e < |s| ==> !IsNumeral(s[e])
    decreases |s| - j
  {
    if j < |s| && IsNumeral(s[j]) then NumeralRunEnd(s, j + 1) else j
  }

  /** Where the pattern's match at position `i` ends, or `i` when it matches
      nothing there. `[VI]+` takes the whole run; backtracking to a shorter run
      cannot help the lookahead, since `V` and `I` are word characters. */
  function MatchEnd(s: string, i: nat): (e: nat)
    requires i < |s|
    ensures i <= e <= |s|
  {
    if IsNumeral(s[i]) then
      var r := NumeralRunEnd(s, i);
      if r == |s| || !IsWordChar(s[r]) then (if SectorAt(s, r) then r + 4 else r) else i
    else i
  }

  /** The scan from position `i`, in the manner of `re.sub`: a match is dropped
      and the scan resumes after it; any other character is kept. */
  function StripNumeralsFrom(s: string, i: nat): (r: string)
    requires i <= |s|
    ensures |r| <= |s| - i
    decreases |s| - i
  {
    if i == |s| then ""
    else
      var e := MatchEnd(s, i);
      if e > i then StripNumeralsFrom(s, e) else [s[i]] + StripNumeralsFrom(s, i + 1)
  }

  /** `re.sub('[VI]+(?![\w])( - [a-z])?', '', s)`: every planet number and
      the sector tag directly after one are deleted, and every other character
      is kept in order. */
  function StripNumerals(s: string): (r: string)
    ensures |r| <= |s|
    ensures r == Survivors(s, 0)
  {
    StripNumeralsFromSurvivors(s, 0);
    StripNumeralsFrom(s, 0)
  }

  /** `strip_planet_number(s)`: the trimmed text of the characters that survive
      both passes, first those that no colour directive covers, then those of
      the colour-stripped text in no planet number or sector tag. */
  function StripPlanetNumber(s: string): (r: string)
    ensures r == Whitespace.Strip(Survivors(Colors.Uncovered(s, 0), 0))
    ensures r == "" || (!IsSpace(r[0]) && !IsSpace(r[|r| - 1]))
    ensures |r| <= |s|
  {
    Whitespace.Strip(StripNumerals(Colors.StripColors(s)))
  }

  /** Position `j` starts or continues a run of `V`/`I` that reaches the end of
      the text or a non-word character. No left boundary is required. */
  ghost predicate InNumber(s: string, j: int)
  {
    exists e :: 0 <= j < e <= |s| && NumeralsBetween(s, j, e) &&
                (e == |s| || !IsWordChar(s[e]))
  }

  /** Position `j` lies in a sector tag that directly follows a `V`/`I`. */
  ghost predicate InSector(s: string, j: int)
  {
    exists b :: 1 <= b <= j < b + 4 && SectorAt(s, b) && IsNumeral(s[b - 1])
  }

  /** Position `j` is deleted by the substitution. */
  ghost predicate Deleted(s: string, j: int)
  {
    InNumber(s, j) || InSector(s, j)
  }

  /** The characters of `s` from position `i` on that belong to no planet
      number and no sector tag, in their original order. */
  ghost function Survivors(s: string, i: nat): string
    requires i <= |s|
    decreases |s| - i
  {
    if i == |s| then ""
    else (if Deleted(s, i) then "" else [s[i]]) + Survivors(s, i + 1)
  }

  /** Skipping positions that each change nothing changes nothing. */
  lemma {:induction false} SurvivorsSkip(s: string, i: nat, j: nat)
    requires i <= j <= |s|
    requires forall k :: i <= k < j ==> Survivors(s, k) == Survivors(s, k + 1)
    ensures Survivors(s, i) == Survivors(s, j)
    decreases j - i
  {
    if i < j {
      SurvivorsSkip(s, i + 1, j);
    }
  }

  /** A deleted position contributes nothing to what survives. */
  lemma SurvivorsStep(s: string, i: nat)
    requires i < |s| && Deleted(s, i)
    ensures Survivors(s, i) == Survivors(s, i + 1)
  {
    var rest := Survivors(s, i + 1);
    assert Survivors(s, i) == "" + rest;
    assert "" + rest == rest;
  }

  /** A run of `V`/`I` from `j` extends at least to any `e` up to which all
      characters are `V` or `I`. */
  lemma {:induction false} NumeralRunMaximal(s: string, j: nat, e: nat)
    requires j <= e <= |s|
    requires NumeralsBetween(s, j, e)
    ensures e <= NumeralRunEnd(s, j)
    decreases e - j
  {
    if j < e {
      NumeralRunMaximal(s, j + 1, e);
    }
  }

  /** A position in a planet number is where the pattern matches. */
  lemma NumberThenMatch(s: string, i: nat)
    requires i < |s| && InNumber(s, i)
    ensures MatchEnd(s, i) > i
  {
    var r := NumeralRunEnd(s, i);
    var e :| 0 <= i < e <= |s| && NumeralsBetween(s, i, e) &&
             (e == |s| || !IsWordChar(s[e]));
    NumeralRunMaximal(s, i, e);
    assert e == r;
    assert IsNumeral(s[i]);
    assert r == |s| || !IsWordChar(s[r]);
  }

  /** Where the pattern matches, a planet number starts. */
  lemma MatchThenNumber(s: string, i: nat)
    requires i < |s| && MatchEnd(s, i) > i
    ensures InNumber(s, i)
  {
    var r := NumeralRunEnd(s, i);
    assert IsNumeral(s[i]);
    NumberUpTo(s, i, r);
  }

  /** A run of `V`/`I` from `j` to `e` followed by the end of the text or a
      non-word character makes `j` part of a planet number. */
  lemma NumberUpTo(s: string, j: nat, e: nat)
    requires j < e <= |s| && NumeralsBetween(s, j, e)
    requires e == |s| || !IsWordChar(s[e])
    ensures InNumber(s, j)
  {
  }

  /** The pattern matches at `i` exactly when `i` is in a planet number. */
  lemma NumberIffMatch(s: string, i: nat)
    requires i < |s|
    ensures InNumber(s, i) <==> MatchEnd(s, i) > i
  {
    if InNumber(s, i) {
      NumberThenMatch(s, i);
    }
    if MatchEnd(s, i) > i {
      MatchThenNumber(s, i);
    }
  }

  /** A match leaves the scan outside every sector tag. */
  lemma AfterMatch(s: string, i: nat)
    requires i < |s| && MatchEnd(s, i) > i && !InSector(s, i)
    ensures !InSector(s, MatchEnd(s, i))
  {
    var r := NumeralRunEnd(s, i);
    assert forall k :: i <= k < r ==> IsNumeral(s[k]);
  }

  /** A `V` or `I` directly before a sector tag always ends a planet number. */
  lemma NumeralBeforeSector(s: string, i: nat)
    requires i < |s|
    ensures IsNumeral(s[i]) && SectorAt(s, i + 1) ==> MatchEnd(s, i) > i
  {
  }

  /** Keeping one character leaves the scan outside every sector tag. */
  lemma AfterKeep(s: string, i: nat)
    requires i < |s| && MatchEnd(s, i) == i && !InSector(s, i)
    ensures !InSector(s, i + 1)
  {
    NumeralBeforeSector(s, i);
  }

  /** Every position a match spans is in a planet number or its sector tag. */
  lemma MatchDeleted(s: string, i: nat)
    requires i < |s| && MatchEnd(s, i) > i
    ensures forall k :: i <= k < MatchEnd(s, i) ==> Deleted(s, k)
  {
    var r := NumeralRunEnd(s, i);
    forall k | i <= k < MatchEnd(s, i)
      ensures Deleted(s, k)
    {
      if k < r {
        RunInNumber(s, i, k);
      } else {
        assert IsNumeral(s[r - 1]);
        assert 1 <= r <= k < r + 4 && SectorAt(s, r) && IsNumeral(s[r - 1]);
      }
    }
  }

  /** A position inside the run that a match takes is in a planet number. */
  lemma RunInNumber(s: string, i: nat, k: nat)
    requires i < |s| && MatchEnd(s, i) > i && i <= k < NumeralRunEnd(s, i)
    ensures InNumber(s, k)
  {
    NumberUpTo(s, k, NumeralRunEnd(s, i));
  }

  /** The scan from any position that is not inside a sector tag keeps exactly
      the surviving characters from there on. */
  lemma {:induction false} StripNumeralsFromSurvivors(s: string, i: nat)
    requires i <= |s| && !InSector(s, i)
    ensures StripNumeralsFrom(s, i) == Survivors(s, i)
    decreases |s| - i
  {
    if i < |s| {
      var e := MatchEnd(s, i);
      NumberIffMatch(s, i);
      if e > i {
        MatchDeleted(s, i);
        forall k | i <= k < e
          ensures Survivors(s, k) == Survivors(s, k + 1)
        {
          SurvivorsStep(s, k);
        }
        SurvivorsSkip(s, i, e);
        AfterMatch(s, i);
        StripNumeralsFromSurvivors(s, e);
      } else {
        AfterKeep(s, i);
        StripNumeralsFromSurvivors(s, i + 1);
      }
    }
  }
}

/** Worked examples. Each literal is a parameter fixed by `requires` rather
    than written into the `ensures`, which keeps the solver's work on the long
    string literals small. */
module PlanetExamples {
  import Colors
  import ColorExamples
  import Whitespace
  import opened PlanetNumber

  /** With no caret left, the colour scan copies the rest of the text. */
  lemma {:induction false} ColorScanCopies(s: string, i: nat)
    requires i <= |s|
    requires forall k :: i <= k < |s| ==> s[k] != '^'
    ensures Colors.StripFrom(s, i) == s[i..]
    decreases |s| - i
  {
    if i < |s| {
      ColorScanCopies(s, i + 1);
      assert s[i..] == [s[i]] + s[i + 1..];
    }
  }

  /** A character other than `V` and `I` is copied by the numeral scan. */
  lemma CopiesOne(s: string, i: nat)
    requires i < |s| && !IsNumeral(s[i])
    ensures StripNumeralsFrom(s, i) == [s[i]] + StripNumeralsFrom(s, i + 1)
  {
    assert MatchEnd(s, i) == i;
  }

  /** Taking one character off the front of a slice. */
  lemma SliceCons(s: string, i: nat, j: nat, rest: string)
    requires i < j <= |s|
    ensures s[i..j] + rest == [s[i]] + (s[i + 1..j] + rest)
  {
    assert s[i..j] == [s[i]] + s[i + 1..j];
  }

  /** Characters other than `V` and `I` are copied by the numeral scan. */
  lemma {:induction false} CopiesPlain(s: string, i: nat, j: nat)
    requires i <= j <= |s|
    requires forall k :: i <= k < j ==> !IsNumeral(s[k])
    ensures StripNumeralsFrom(s, i) == s[i..j] + StripNumeralsFrom(s, j)
    decreases j - i
  {
    if i < j {
      CopiesOne(s, i);
      CopiesPlain(s, i + 1, j);
      SliceCons(s, i, j, StripNumeralsFrom(s, j));
    } else {
      assert s[i..j] == [];
    }
  }

  lemma SectorTagNumerals(s: string)
    requires s == "Planet Name II - b"
    ensures StripNumerals(s) == s[..12]
  {
    assert NumeralRunEnd(s, 14) == 14;
    assert NumeralRunEnd(s, 12) == 14;
    assert MatchEnd(s, 12) == 18;
    assert StripNumeralsFrom(s, 12) == "";
    CopiesPlain(s, 0, 12);
    assert s[0..12] + "" == s[..12];
  }

  /** A planet number with its sector tag is removed and the space before it
      trimmed. */
  lemma StripPlanetNumberSectorTag(s: string)
    requires s == "Planet Name II - b"
    ensures StripPlanetNumber(s) == "Planet Name"
  {
    ColorExamples.StripColorsPlainText(s);
    SectorTagNumerals(s);
    var t := s[..12];
    assert t == "Planet Name ";
    Whitespace.StripAt(t, 0, 11);
  }

  lemma KeepsWordNumerals(s: string)
    requires s == "VIVID"
    ensures StripNumerals(s) == s
  {
    assert NumeralRunEnd(s, 4) == 4;
    assert NumeralRunEnd(s, 3) == 4;
    assert NumeralRunEnd(s, 2) == 4;
    assert NumeralRunEnd(s, 1) == 4;
    assert NumeralRunEnd(s, 0) == 4;
    assert StripNumeralsFrom(s, 4) == "D";
    assert StripNumeralsFrom(s, 3) == "ID";
    assert StripNumeralsFrom(s, 2) == "VID";
    assert StripNumeralsFrom(s, 1) == "IVID";
  }

  /** A run of `V`/`I` followed by a word character is kept whole, even though
      a shorter run inside it is followed by a `V` or `I`. */
  lemma StripPlanetNumberKeepsWord(s: string)
    requires s == "VIVID"
    ensures StripPlanetNumber(s) == "VIVID"
  {
    ColorExamples.StripColorsPlainText(s);
    KeepsWordNumerals(s);
    Whitespace.StripUnchanged(s);
  }

  lemma NoLeftBoundaryNumerals(s: string)
    requires s == "TAXI"
    ensures StripNumerals(s) == s[..3]
  {
    assert MatchEnd(s, 3) == 4;
    assert StripNumeralsFrom(s, 3) == "";
    CopiesPlain(s, 0, 3);
    assert s[0..3] + "" == s[..3];
  }

  /** The pattern has no left boundary: a trailing `I` is cut from a word. */
  lemma StripPlanetNumberNoLeftBoundary(s: string)
    requires s == "TAXI"
    ensures StripPlanetNumber(s) == "TAX"
  {
    ColorExamples.StripColorsPlainText(s);
    NoLeftBoundaryNumerals(s);
    var t := s[..3];
    assert t == "TAX";
    Whitespace.StripUnchanged(t);
  }

  lemma OnlyVINumerals(s: string)
    requires s == "Planet XIV"
    ensures StripNumerals(s) == s[..8]
  {
    assert NumeralRunEnd(s, 9) == 10;
    assert NumeralRunEnd(s, 8) == 10;
    assert MatchEnd(s, 8) == 10;
    assert StripNumeralsFrom(s, 8) == "";
    CopiesPlain(s, 0, 8);
    assert s[0..8] + "" == s[..8];
  }

  /** Only `V` and `I` are numerals: `XIV` loses `IV` and keeps `X`. */
  lemma StripPlanetNumberOnlyVI(s: string)
    requires s == "Planet XIV"
    ensures StripPlanetNumber(s) == "Planet X"
  {
    ColorExamples.StripColorsPlainText(s);
    OnlyVINumerals(s);
    var t := s[..8];
    assert t == "Planet X";
    Whitespace.StripUnchanged(t);
  }

  lemma ColorsFirstDirective(s: string)
    requires s == "^red;Foo;Planet IV"
    ensures Colors.StripColors(s) == s[5..]
  {
    assert Colors.WordRunEnd(s, 4) == 4;
    assert Colors.WordRunEnd(s, 1) == 4;
    assert Colors.TokenLength(s, 0) == 5;
    ColorScanCopies(s, 5);
  }

  lemma ColorsFirstNumerals(t: string)
    requires t == "Foo;Planet IV"
    ensures StripNumerals(t) == t[..11]
  {
    assert NumeralRunEnd(t, 12) == 13;
    assert NumeralRunEnd(t, 11) == 13;
    assert MatchEnd(t, 11) == 13;
    assert StripNumeralsFrom(t, 11) == "";
    CopiesPlain(t, 0, 11);
    assert t[0..11] + "" == t[..11];
  }

  /** Colour directives go first, then the planet number; text that only
      looks like a directive (`Foo;` has no caret) stays. */
  lemma StripPlanetNumberColorsFirst(s: string)
    requires s == "^red;Foo;Planet IV"
    ensures StripPlanetNumber(s) == "Foo;Planet"
  {
    ColorsFirstDirective(s);
    var t := s[5..];
    assert t == "Foo;Planet IV";
    ColorsFirstNumerals(t);
    var u := t[..11];
    assert u == "Foo;Planet ";
    Whitespace.StripAt(u, 0, 10);
  }
}
