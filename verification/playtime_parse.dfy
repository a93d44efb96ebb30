/** An optional value: the result of a reader that may fail. */
module Options {

  datatype Option<+T> = None | Some(value: T)
}

/** Reading a playtime phrase back into its components. Rendering and reading
    are inverse: the phrase loses none of the components it was built from. */
module PlaytimeReading {
  import opened Chars
  import opened Options
  import opened Decimal
  import opened ListJoin
  import opened Playtime

  /** End of the run of decimal digits that begins at `j`. */
  function DigitRunEnd(s: string, j: nat): (e: nat)
    requires j <= |s|
    ensures j <= e <= |s|
    ensures forall k :: j <= k < e ==> IsDigit(s[k])
    ensures e < |s| ==> !IsDigit(s[e])
    decreases |s| - j
  {
    if j < |s| && IsDigit(s[j]) then DigitRunEnd(s, j + 1) else j
  }

  /** End of the run of lowercase letters that begins at `j`. */
  function LetterRunEnd(s: string, j: nat): (e: nat)
    requires j <= |s|
    ensures j <= e <= |s|
    ensures forall k :: j <= k < e ==> IsLowerAscii(s[k])
    ensures e < |s| ==> !IsLowerAscii(s[e])
    decreases |s| - j
  {
    if j < |s| && IsLowerAscii(s[j]) then LetterRunEnd(s, j + 1) else j
  }

  /** The unit whose label for `amount` is `text`, if any. */
  function UnitOfLabel(text: string, amount: nat): (u: Option<Unit>)
    ensures u.Some? ==> Label(amount, u.value) == text
    ensures u.None? ==> forall v :: Label(amount, v) != text
  {
    if text == Label(amount, Hour) then Some(Hour)
    else if text == Label(amount, Minute) then Some(Minute)
    else if text == Label(amount, Second) then Some(Second)
    else if text == Label(amount, Millisecond) then Some(Millisecond)
    else None
  }

  /** Reads one component `<digits> <label>` at the start of `s`, with the
      number of characters read. The label must agree with the amount:
      singular for 1, plural otherwise. */
  function ParseComponent(s: string): (r: Option<(Component, nat)>)
    ensures r.Some? ==> 0 < r.value.1 <= |s|
  {
    var d := DigitRunEnd(s, 0);
    if d == 0 || d == |s| || s[d] != ' ' then None
    else
      var e := LetterRunEnd(s, d + 1);
      assert AllDigits(s[..d]);
      var amount := ParseNat(s[..d]);
      match UnitOfLabel(s[d + 1..e], amount)
      case None => None
      case Some(u) => Some((Component(amount, u), e))
  }

  /** Reads a phrase: components separated by `", "`. */
  function ParseComponents(s: string): Option<seq<Component>>
    decreases |s|
  {
    match ParseComponent(s)
    case None => None
    case Some((c, n)) =>
      if n == |s| then Some([c])
      else if n + 2 <= |s| && s[n] == ',' && s[n + 1] == ' ' then
        match ParseComponents(s[n + 2..])
        case None => None
        case Some(cs) => Some([c] + cs)
      else None
  }

  /** A run that stops at a given position ends there. */
  lemma {:induction false} DigitRunStops(s: string, j: nat, e: nat)
    requires j <= e <= |s|
    requires forall k :: j <= k < e ==> IsDigit(s[k])
    requires e == |s| || !IsDigit(s[e])
    ensures DigitRunEnd(s, j) == e
    decreases e - j
  {
    if j < e {
      DigitRunStops(s, j + 1, e);
    }
  }

  lemma {:induction false} LetterRunStops(s: string, j: nat, e: nat)
    requires j <= e <= |s|
    requires forall k :: j <= k < e ==> IsLowerAscii(s[k])
    requires e == |s| || !IsLowerAscii(s[e])
    ensures LetterRunEnd(s, j) == e
    decreases e - j
  {
    if j < e {
      LetterRunStops(s, j + 1, e);
    }
  }

  /** Every label is lowercase letters only. */
  lemma LabelLetters(amount: nat, u: Unit)
    ensures forall k :: 0 <= k < |Label(amount, u)| ==> IsLowerAscii(Label(amount, u)[k])
  {
  }

  /** Where the pieces of `digits + " " + text + tail` sit. */
  lemma Pieces(digits: string, text: string, tail: string)
    ensures var s := digits + " " + text + tail; var d := |digits|;
            |s| == d + 1 + |text| + |tail| && s[..d] == digits && s[d] == ' ' &&
            s[d + 1..d + 1 + |text|] == text && s[d + 1 + |text|..] == tail
  {
    var s := digits + " " + text + tail;
    assert s == digits + (" " + text + tail);
    assert s[|digits| + 1..] == text + tail;
  }

  /** The digits of a written component are read up to the space. */
  lemma ReadsAmount(amount: nat, s: string)
    requires |NatToString(amount)| < |s| && s[..|NatToString(amount)|] == NatToString(amount)
    requires s[|NatToString(amount)|] == ' '
    ensures DigitRunEnd(s, 0) == |NatToString(amount)|
    ensures AllDigits(s[..|NatToString(amount)|]) && ParseNat(s[..|NatToString(amount)|]) == amount
  {
    var digits := NatToString(amount);
    forall k | 0 <= k < |digits|
      ensures IsDigit(s[k])
    {
      assert s[k] == digits[k];
    }
    DigitRunStops(s, 0, |digits|);
    ParseNatToString(amount);
  }

  /** The label of a written component is read up to the end or the comma. */
  lemma ReadsLabel(amount: nat, u: Unit, s: string, j: nat)
    requires j + |Label(amount, u)| <= |s| && s[j..j + |Label(amount, u)|] == Label(amount, u)
    requires j + |Label(amount, u)| == |s| || s[j + |Label(amount, u)|] == ','
    ensures LetterRunEnd(s, j) == j + |Label(amount, u)|
  {
    var text := Label(amount, u);
    LabelLetters(amount, u);
    forall k | j <= k < j + |text|
      ensures IsLowerAscii(s[k])
    {
      assert s[k] == text[k - j];
    }
    LetterRunStops(s, j, j + |text|);
  }

  /** Every label names its own unit: the four labels differ in their first
      three letters. */
  lemma LabelNamesUnit(amount: nat, u: Unit)
    ensures UnitOfLabel(Label(amount, u), amount) == Some(u)
  {
    var h := Label(amount, Hour);
    var mi := Label(amount, Minute);
    var s := Label(amount, Second);
    var ms := Label(amount, Millisecond);
    assert h[0] == 'h' && mi[0] == 'm' && s[0] == 's' && ms[0] == 'm';
    assert mi[2] == 'n' && ms[2] == 'l';
  }

  /** A written component, followed by the end of the text or a comma, reads
      back as itself. */
  lemma ParseDescribe(c: Component, tail: string)
    requires tail == "" || tail[0] == ','
    ensures ParseComponent(Describe(c.amount, c.unit) + tail) ==
            Some((c, |Describe(c.amount, c.unit)|))
  {
    var digits := NatToString(c.amount);
    var text := Label(c.amount, c.unit);
    var s := Describe(c.amount, c.unit) + tail;
    var d := |digits|;
    var e := d + 1 + |text|;
    Pieces(digits, text, tail);
    assert s == digits + " " + text + tail;
    ReadsAmount(c.amount, s);
    assert e == |s| || s[e] == tail[0];
    ReadsLabel(c.amount, c.unit, s, d + 1);
    LabelNamesUnit(c.amount, c.unit);
    assert s[d + 1..e] == text;
  }

  /** A phrase of one written component reads back as that component. */
  lemma ParseOne(c: Component)
    ensures ParseComponents(Describe(c.amount, c.unit)) == Some([c])
  {
    var first := Describe(c.amount, c.unit);
    ParseDescribe(c, "");
    assert first + "" == first;
  }

  /** A component, a separator and a readable rest read as the component
      followed by the rest's components. */
  lemma ParseStep(s: string, c: Component, n: nat, tail: seq<Component>)
    requires ParseComponent(s) == Some((c, n))
    requires n + 2 <= |s| && s[n] == ',' && s[n + 1] == ' '
    requires ParseComponents(s[n + 2..]) == Some(tail)
    ensures ParseComponents(s) == Some([c] + tail)
  {
  }

  /** A written component, a separator and a readable rest read back as the
      component followed by what the rest reads as. */
  lemma ParseCons(c: Component, rest: string, tail: seq<Component>)
    requires ParseComponents(rest) == Some(tail)
    ensures ParseComponents(Describe(c.amount, c.unit) + ", " + rest) == Some([c] + tail)
  {
    var first := Describe(c.amount, c.unit);
    var s := first + ", " + rest;
    var n := |first|;
    assert s == first + (", " + rest);
    ParseDescribe(c, ", " + rest);
    assert n + 2 <= |s| && s[n] == ',' && s[n + 1] == ' ';
    assert s[n + 2..] == rest;
    ParseStep(s, c, n, tail);
  }

  /** Reading a rendered phrase gives back exactly the components it was
      rendered from. */
  lemma {:induction false} ParseRender(cs: seq<Component>)
    requires |cs| > 0
    ensures ParseComponents(Join(Describes(cs), ", ")) == Some(cs)
  {
    if |cs| == 1 {
      ParseOne(cs[0]);
      assert Describes(cs) == [Describe(cs[0].amount, cs[0].unit)];
      assert [cs[0]] == cs;
    } else {
      var d := Describes(cs);
      var rest := Join(Describes(cs[1..]), ", ");
      assert d[1..] == Describes(cs[1..]);
      assert Join(d, ", ") == Describe(cs[0].amount, cs[0].unit) + ", " + rest;
      ParseRender(cs[1..]);
      ParseCons(cs[0], rest, cs[1..]);
      assert [cs[0]] + cs[1..] == cs;
    }
  }

  /** `ParseComponents` is the inverse of `playtime_to_string`: the phrase reads
      back as the components of the duration. */
  lemma PlaytimeReadsBack(m: nat)
    ensures ParseComponents(PlaytimeToString(m)) == Some(Components(m))
  {
    ParseRender(Components(m));
  }

  /** Different durations give different phrases, because the last component
      carries the whole duration in milliseconds. */
  lemma PlaytimeInjective(a: nat, b: nat)
    requires PlaytimeToString(a) == PlaytimeToString(b)
    ensures a == b
  {
    PlaytimeReadsBack(a);
    PlaytimeReadsBack(b);
    ComponentsMeaning(a);
    ComponentsMeaning(b);
  }
}
