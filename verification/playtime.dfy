/** `playtime_to_string`: a duration written as up to four comma-separated
    components, hours, minutes, seconds and milliseconds, each with a label
    that is singular only for the amount 1. The duration is a whole number of
    milliseconds `m` (`playtime_to_string`'s `time` argument is `m / 1000` seconds). */
module Playtime {
  import opened Decimal
  import opened ListJoin

  datatype Unit = Hour | Minute | Second | Millisecond

  function UnitName(u: Unit): string
  {
    match u
    case Hour => "hour"
    case Minute => "minute"
    case Second => "second"
    case Millisecond => "millisecond"
  }

  /** The label printed after an amount: the unit, plus `s` unless the amount is 1. */
  function Label(amount: nat, u: Unit): string
  {
    UnitName(u) + (if amount == 1 then "" else "s")
  }

  /** One component as the f-strings print it: `<amount> <label>`. */
  function Describe(amount: nat, u: Unit): string
  {
    NatToString(amount) + " " + Label(amount, u)
  }

  const MsPerSecond: nat := 1000
  const MsPerMinute: nat := 60000
  const MsPerHour: nat := 3600000

  /** The strings of `parts` that are not empty, in order: the generator
      `x for x in [...] if x`. */
  function NonEmpty(parts: seq<string>): (r: seq<string>)
    ensures |r| <= |parts|
    ensures forall k :: 0 <= k < |r| ==> r[k] != ""
    ensures forall x :: x in r <==> x in parts && x != ""
  {
    if |parts| == 0 then []
    else (if parts[0] == "" then [] else [parts[0]]) + NonEmpty(parts[1..])
  }

  /** `playtime_to_string(m / 1000)`. Each of the first three components is
      the empty string when its threshold is not reached, and the empty
      strings are left out of the join. The phrase is therefore the present
      components of the duration, written out and joined with `", "`. */
  function PlaytimeToString(m: nat): (r: string)
    ensures r == Join(Describes(Components(m)), ", ")
  {
    var hours := if m >= MsPerHour then Describe(m / MsPerHour, Hour) else "";
    var minutes := if m >= MsPerMinute then Describe(m / MsPerMinute % 60, Minute) else "";
    var seconds := if m >= MsPerSecond then Describe(m / MsPerSecond % 60, Second) else "";
    var milliseconds := Describe(m, Millisecond);
    NonEmptyFour(hours, minutes, seconds, milliseconds);
    DescribesFour(HourPart(m), MinutePart(m), SecondPart(m), [Component(m, Millisecond)]);
    WrittenPart(m >= MsPerHour, Component(m / MsPerHour, Hour));
    WrittenPart(m >= MsPerMinute, Component(m / MsPerMinute % 60, Minute));
    WrittenPart(m >= MsPerSecond, Component(m / MsPerSecond % 60, Second));
    WrittenPart(true, Component(m, Millisecond));
    Join(NonEmpty([hours, minutes, seconds, milliseconds]), ", ")
  }

  /** One component of the phrase, before it is written out. */
  datatype Component = Component(amount: nat, unit: Unit)

  /** The hour component, present from one hour on. */
  function HourPart(m: nat): seq<Component>
  {
    if m >= MsPerHour then [Component(m / MsPerHour, Hour)] else []
  }

  /** The minute component, present from one minute on. */
  function MinutePart(m: nat): seq<Component>
  {
    if m >= MsPerMinute then [Component(m / MsPerMinute % 60, Minute)] else []
  }

  /** The second component, present from one second on. */
  function SecondPart(m: nat): seq<Component>
  {
    if m >= MsPerSecond then [Component(m / MsPerSecond % 60, Second)] else []
  }

  /** The components present for a duration of `m` milliseconds. */
  function Components(m: nat): seq<Component>
  {
    HourPart(m) + MinutePart(m) + SecondPart(m) + [Component(m, Millisecond)]
  }

  function Rank(u: Unit): nat
  {
    match u
    case Hour => 0
    case Minute => 1
    case Second => 2
    case Millisecond => 3
  }

  /** Seconds a component contributes to the duration; the millisecond
      component, which repeats the whole duration, contributes none. */
  function SecondsIn(c: Component): nat
  {
    match c.unit
    case Hour => c.amount * 3600
    case Minute => c.amount * 60
    case Second => c.amount
    case Millisecond => 0
  }

  function WholeSeconds(cs: seq<Component>): nat
  {
    if |cs| == 0 then 0 else SecondsIn(cs[0]) + WholeSeconds(cs[1..])
  }

  predicate HasUnit(cs: seq<Component>, u: Unit)
  {
    exists k :: 0 <= k < |cs| && cs[k].unit == u
  }

  lemma {:induction false} WholeSecondsAppend(a: seq<Component>, b: seq<Component>)
    ensures WholeSeconds(a + b) == WholeSeconds(a) + WholeSeconds(b)
  {
    if |a| == 0 {
      assert a + b == b;
    } else {
      assert (a + b)[0] == a[0];
      assert (a + b)[1..] == a[1..] + b;
      WholeSecondsAppend(a[1..], b);
    }
  }

  /** The units present, listed by position. */
  lemma ComponentsUnits(m: nat)
    ensures m >= MsPerHour ==>
              Components(m) == [Component(m / MsPerHour, Hour), Component(m / MsPerMinute % 60, Minute),
                                Component(m / MsPerSecond % 60, Second), Component(m, Millisecond)]
    ensures MsPerMinute <= m < MsPerHour ==>
              Components(m) == [Component(m / MsPerMinute % 60, Minute), Component(m / MsPerSecond % 60, Second),
                                Component(m, Millisecond)]
    ensures MsPerSecond <= m < MsPerMinute ==>
              Components(m) == [Component(m / MsPerSecond % 60, Second), Component(m, Millisecond)]
    ensures m < MsPerSecond ==> Components(m) == [Component(m, Millisecond)]
  {
  }

  /** Components come in the order hours, minutes, seconds, milliseconds. */
  lemma ComponentsOrder(m: nat)
    ensures forall i, j :: 0 <= i < j < |Components(m)| ==>
      Rank(Components(m)[i].unit) < Rank(Components(m)[j].unit)
  {
    ComponentsUnits(m);
  }

  /** Hours, minutes and seconds are present exactly when the duration
      reaches one hour, one minute and one second. */
  lemma ComponentsPresence(m: nat)
    ensures HasUnit(Components(m), Hour) <==> m >= MsPerHour
    ensures HasUnit(Components(m), Minute) <==> m >= MsPerMinute
    ensures HasUnit(Components(m), Second) <==> m >= MsPerSecond
  {
    var cs := Components(m);
    ComponentsUnits(m);
    if m >= MsPerHour {
      assert cs[0].unit == Hour && cs[1].unit == Minute && cs[2].unit == Second;
    } else if m >= MsPerMinute {
      assert cs[0].unit == Minute && cs[1].unit == Second;
    } else if m >= MsPerSecond {
      assert cs[0].unit == Second;
    }
  }

  /** Minutes and seconds stay below 60. */
  lemma ComponentsBounded(m: nat)
    ensures forall k :: 0 <= k < |Components(m)| && Components(m)[k].unit in {Minute, Second} ==>
      Components(m)[k].amount < 60
  {
    var q := m / MsPerSecond;
    assert m / MsPerMinute == q / 60;
    ComponentsUnits(m);
  }

  /** Hours, minutes and seconds add up to the whole seconds of the duration. */
  lemma ComponentsSeconds(m: nat)
    ensures WholeSeconds(Components(m)) == m / MsPerSecond
  {
    var q := m / MsPerSecond;
    var h := HourPart(m);
    var mi := MinutePart(m);
    var s := SecondPart(m);
    var ms := [Component(m, Millisecond)];
    WholeSecondsAppend(h + mi + s, ms);
    WholeSecondsAppend(h + mi, s);
    WholeSecondsAppend(h, mi);
    assert WholeSeconds(ms) == 0;
    assert m / MsPerMinute == q / 60;
    assert m / MsPerHour == q / 3600;
    assert q / 3600 == q / 60 / 60;
    if m >= MsPerHour {
      assert WholeSeconds(h) == q / 3600 * 3600;
    } else if m >= MsPerMinute {
      assert q / 60 < 60;
    } else if m >= MsPerSecond {
      assert q < 60;
    }
  }

  /** The last component is the whole duration in milliseconds. */
  lemma ComponentsLast(m: nat)
    ensures Components(m)[|Components(m)| - 1] == Component(m, Millisecond)
  {
  }

  /** What the components of a duration mean: they come in the order hours,
      minutes, seconds, milliseconds; hours, minutes and seconds are present
      exactly when the duration reaches one hour, one minute and one second;
      minutes and seconds stay below 60; hours, minutes and seconds add up to
      the whole seconds of the duration; and the last component is always the
      total duration in milliseconds, not its remainder below one second. */
  lemma ComponentsMeaning(m: nat)
    ensures forall i, j :: 0 <= i < j < |Components(m)| ==>
      Rank(Components(m)[i].unit) < Rank(Components(m)[j].unit)
    ensures HasUnit(Components(m), Hour) <==> m >= MsPerHour
    ensures HasUnit(Components(m), Minute) <==> m >= MsPerMinute
    ensures HasUnit(Components(m), Second) <==> m >= MsPerSecond
    ensures forall k :: 0 <= k < |Components(m)| && Components(m)[k].unit in {Minute, Second} ==>
      Components(m)[k].amount < 60
    ensures WholeSeconds(Components(m)) == m / MsPerSecond
    ensures Components(m)[|Components(m)| - 1] == Component(m, Millisecond)
  {
    ComponentsOrder(m);
    ComponentsPresence(m);
    ComponentsBounded(m);
    ComponentsSeconds(m);
    ComponentsLast(m);
  }

  /** The components as written out. */
  function Describes(cs: seq<Component>): (r: seq<string>)
    ensures |r| == |cs|
    ensures forall k :: 0 <= k < |cs| ==> r[k] == Describe(cs[k].amount, cs[k].unit)
  {
    if |cs| == 0 then [] else [Describe(cs[0].amount, cs[0].unit)] + Describes(cs[1..])
  }

  /** The filter keeps every non-empty string exactly as often as the input
      holds it, and no empty string. */
  lemma {:induction false} NonEmptyCounts(parts: seq<string>)
    ensures multiset(NonEmpty(parts)) == multiset(parts)["" := 0]
  {
    if |parts| > 0 {
      assert parts == [parts[0]] + parts[1..];
      NonEmptyCounts(parts[1..]);
    }
  }

  /** Filtering a concatenation filters each part and keeps the parts in
      order, so the filter keeps the input's order and its duplicates. */
  lemma {:induction false} NonEmptyAppend(a: seq<string>, b: seq<string>)
    ensures NonEmpty(a + b) == NonEmpty(a) + NonEmpty(b)
  {
    if |a| == 0 {
      assert a + b == b;
    } else {
      assert (a + b)[0] == a[0];
      assert (a + b)[1..] == a[1..] + b;
      NonEmptyAppend(a[1..], b);
    }
  }

  lemma {:induction false} DescribesAppend(a: seq<Component>, b: seq<Component>)
    ensures Describes(a + b) == Describes(a) + Describes(b)
  {
    if |a| == 0 {
      assert a + b == b;
    } else {
      assert (a + b)[0] == a[0];
      assert (a + b)[1..] == a[1..] + b;
      DescribesAppend(a[1..], b);
    }
  }

  /** A component left out below its threshold and one written out drop
      and keep the same entries. */
  lemma WrittenPart(present: bool, c: Component)
    ensures NonEmpty([if present then Describe(c.amount, c.unit) else ""]) ==
            Describes(if present then [c] else [])
  {
    var t: string := if present then Describe(c.amount, c.unit) else "";
    var one: seq<string> := [t];
    assert one[1..] == [];
    if present {
      assert t[0] == NatToString(c.amount)[0];
      assert Describes([c])[1..] == Describes([]);
    }
  }

  lemma NonEmptyFour(a: string, b: string, c: string, d: string)
    ensures NonEmpty([a, b, c, d]) == NonEmpty([a]) + NonEmpty([b]) + NonEmpty([c]) + NonEmpty([d])
  {
    assert [a, b, c, d] == [a] + [b] + [c] + [d];
    NonEmptyAppend([a] + [b] + [c], [d]);
    NonEmptyAppend([a] + [b], [c]);
    NonEmptyAppend([a], [b]);
  }

  lemma DescribesFour(a: seq<Component>, b: seq<Component>, c: seq<Component>, d: seq<Component>)
    ensures Describes(a + b + c + d) == Describes(a) + Describes(b) + Describes(c) + Describes(d)
  {
    DescribesAppend(a + b + c, d);
    DescribesAppend(a + b, c);
    DescribesAppend(a, b);
  }

  /** A written component ends in `s` exactly when its amount is not 1: zero
      and every amount above one take the plural. */
  lemma PluralUnlessOne(amount: nat, u: Unit)
    ensures var t := Describe(amount, u); t[|t| - 1] == 's' <==> amount != 1
  {
  }

  /** The phrase always ends with the millisecond component, which carries the
      whole duration. */
  lemma PlaytimeEndsWithTotal(m: nat)
    ensures var r := PlaytimeToString(m); var t := Describe(m, Millisecond);
            |t| <= |r| && r[|r| - |t|..] == t
  {
    var d := Describes(Components(m));
    ComponentsLast(m);
    assert d[|d| - 1] == Describe(m, Millisecond);
    JoinEndsWithLast(d, ", ");
  }
}


/** Worked examples. Each duration is a parameter fixed by `requires` rather
    than written into the `ensures`, which keeps the solver's work on the
    printed literals small. */
module PlaytimeExamples {
  import opened Decimal
  import DecimalExamples
  import opened ListJoin
  import opened Playtime

  /** A phrase whose written components are known. */
  lemma Phrase(m: nat, d: seq<string>)
    requires Describes(Components(m)) == d
    ensures PlaytimeToString(m) == Join(d, ", ")
  {
  }

  /** An amount of 1 takes the singular label. */
  lemma Singulars()
    ensures Describe(1, Hour) == "1 hour"
    ensures Describe(1, Minute) == "1 minute"
    ensures Describe(1, Second) == "1 second"
  {
  }

  /** A millisecond total other than 1 takes the plural label. */
  lemma Milliseconds(n: nat, digits: string)
    requires n != 1 && NatToString(n) == digits
    ensures Describe(n, Millisecond) == digits + " milliseconds"
  {
  }

  /** Zero has only the millisecond component, in the plural. */
  lemma PlaytimeZero(m: nat)
    requires m == 0
    ensures PlaytimeToString(m) == "0 milliseconds"
  {
    var cs := [Component(0, Millisecond)];
    assert Components(m) == cs;
    Milliseconds(0, "0");
    assert Describes(cs) == [Describe(0, Millisecond)];
    assert "0" + " milliseconds" == "0 milliseconds";
    Phrase(m, ["0 milliseconds"]);
  }

  lemma OneSecondParts(m: nat)
    requires m == 1000
    ensures Describes(Components(m)) == ["1 second", "1000 milliseconds"]
  {
    var cs := [Component(1, Second), Component(1000, Millisecond)];
    assert Components(m) == cs;
    Singulars();
    DecimalExamples.PrintsSecondExample(1000);
    Milliseconds(1000, "1000");
    assert "1000" + " milliseconds" == "1000 milliseconds";
    assert Describes(cs) == [Describe(1, Second), Describe(1000, Millisecond)];
  }

  lemma OneSecondJoined(d: seq<string>)
    requires d == ["1 second", "1000 milliseconds"]
    ensures Join(d, ", ") == "1 second" + ", " + "1000 milliseconds"
  {
    var d1 := d[1..];
    assert d1 == ["1000 milliseconds"];
    assert Join(d1, ", ") == "1000 milliseconds";
    assert Join(d, ", ") == "1 second" + ", " + Join(d1, ", ");
  }

  /** One second: a singular second, then the total in milliseconds. */
  lemma PlaytimeOneSecond(m: nat)
    requires m == 1000
    ensures PlaytimeToString(m) == "1 second" + ", " + "1000 milliseconds"
  {
    var d := ["1 second", "1000 milliseconds"];
    OneSecondParts(m);
    Phrase(m, d);
    OneSecondJoined(d);
  }

  lemma SixtyOneSecondsParts(m: nat)
    requires m == 61000
    ensures Describes(Components(m)) == ["1 minute", "1 second", "61000 milliseconds"]
  {
    var cs := [Component(1, Minute), Component(1, Second), Component(61000, Millisecond)];
    assert Components(m) == cs;
    Singulars();
    DecimalExamples.PrintsMinuteExample(61000);
    Milliseconds(61000, "61000");
    assert "61000" + " milliseconds" == "61000 milliseconds";
    assert Describes(cs) == [Describe(1, Minute), Describe(1, Second), Describe(61000, Millisecond)];
  }

  lemma SixtyOneSecondsJoined(d: seq<string>)
    requires d == ["1 minute", "1 second", "61000 milliseconds"]
    ensures Join(d, ", ") == "1 minute" + ", " + "1 second" + ", " + "61000 milliseconds"
  {
    var d1 := d[1..];
    var d2 := d1[1..];
    assert d2 == ["61000 milliseconds"];
    assert Join(d2, ", ") == "61000 milliseconds";
    assert Join(d1, ", ") == "1 second" + ", " + "61000 milliseconds";
    assert Join(d, ", ") == "1 minute" + ", " + ("1 second" + ", " + "61000 milliseconds");
  }

  /** 61 seconds: the millisecond component is 61000, not the remainder 0. */
  lemma PlaytimeSixtyOneSeconds(m: nat)
    requires m == 61000
    ensures PlaytimeToString(m) == "1 minute" + ", " + "1 second" + ", " + "61000 milliseconds"
  {
    var d := ["1 minute", "1 second", "61000 milliseconds"];
    SixtyOneSecondsParts(m);
    Phrase(m, d);
    SixtyOneSecondsJoined(d);
  }

  lemma HourMinuteSecondComponents(m: nat)
    requires m == 3661000
    ensures Components(m) == [Component(1, Hour), Component(1, Minute), Component(1, Second),
                              Component(3661000, Millisecond)]
  {
  }

  lemma HourMinuteSecondParts(m: nat)
    requires m == 3661000
    ensures Describes(Components(m)) == ["1 hour", "1 minute", "1 second", "3661000 milliseconds"]
  {
    var cs := [Component(1, Hour), Component(1, Minute), Component(1, Second),
               Component(3661000, Millisecond)];
    HourMinuteSecondComponents(m);
    Singulars();
    DecimalExamples.PrintsHourExample(3661000);
    Milliseconds(3661000, "3661000");
    assert "3661000" + " milliseconds" == "3661000 milliseconds";
    assert Describes(cs) == [Describe(1, Hour), Describe(1, Minute), Describe(1, Second),
                             Describe(3661000, Millisecond)];
  }

  lemma HourMinuteSecondJoined(d: seq<string>)
    requires d == ["1 hour", "1 minute", "1 second", "3661000 milliseconds"]
    ensures Join(d, ", ") ==
            "1 hour" + ", " + "1 minute" + ", " + "1 second" + ", " + "3661000 milliseconds"
  {
    var d1 := d[1..];
    var d2 := d1[1..];
    var d3 := d2[1..];
    assert d3 == ["3661000 milliseconds"];
    assert Join(d3, ", ") == "3661000 milliseconds";
    assert Join(d2, ", ") == "1 second" + ", " + "3661000 milliseconds";
    assert Join(d1, ", ") == "1 minute" + ", " + ("1 second" + ", " + "3661000 milliseconds");
    assert Join(d, ", ") ==
           "1 hour" + ", " + ("1 minute" + ", " + ("1 second" + ", " + "3661000 milliseconds"));
  }

  /** An hour, a minute and a second, each singular. */
  lemma PlaytimeHourMinuteSecond(m: nat)
    requires m == 3661000
    ensures PlaytimeToString(m) ==
            "1 hour" + ", " + "1 minute" + ", " + "1 second" + ", " + "3661000 milliseconds"
  {
    var d := ["1 hour", "1 minute", "1 second", "3661000 milliseconds"];
    HourMinuteSecondParts(m);
    Phrase(m, d);
    HourMinuteSecondJoined(d);
  }
}
