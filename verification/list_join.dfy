/** `list_to_str`: the items joined with a separator between neighbours. */
module ListJoin {

  /** Sum of the lengths of the items. */
  function TotalLength(items: seq<string>): nat
  {
    if |items| == 0 then 0 else |items[0]| + TotalLength(items[1..])
  }

  /** Position at which item `i` begins in the joined text: after the `i`
      earlier items, each followed by one separator. */
  function Start(items: seq<string>, sep: string, i: nat): nat
    requires i <= |items|
  {
    if i == 0 then 0 else |items[0]| + |sep| + Start(items[1..], sep, i - 1)
  }

  /** `sep.join(items)`. */
  function Join(items: seq<string>, sep: string): (r: string)
    ensures |items| == 0 ==> r == ""
    ensures |items| == 1 ==> r == items[0]
  {
    if |items| == 0 then ""
    else if |items| == 1 then items[0]
    else items[0] + sep + Join(items[1..], sep)
  }

  /** The joined text holds every character of every item and one separator
      between each two neighbours. */
  lemma {:induction false} JoinLength(items: seq<string>, sep: string)
    requires |items| > 0
    ensures |Join(items, sep)| == TotalLength(items) + (|items| - 1) * |sep|
  {
    if |items| > 1 {
      JoinLength(items[1..], sep);
    }
  }

  /** The joined text ends right after the last item. */
  lemma {:induction false} JoinEnd(items: seq<string>, sep: string)
    requires |items| > 0
    ensures |Join(items, sep)| == Start(items, sep, |items| - 1) + |items[|items| - 1]|
  {
    if |items| > 1 {
      var rest := items[1..];
      JoinEnd(rest, sep);
      assert Join(items, sep) == items[0] + sep + Join(rest, sep);
      assert Start(items, sep, |items| - 1) == |items[0]| + |sep| + Start(rest, sep, |rest| - 1);
      assert items[|items| - 1] == rest[|rest| - 1];
    }
  }

  /** The joined text ends with the last item. */
  lemma JoinEndsWithLast(items: seq<string>, sep: string)
    requires |items| > 0
    ensures |items[|items| - 1]| <= |Join(items, sep)|
    ensures Join(items, sep)[|Join(items, sep)| - |items[|items| - 1]|..] == items[|items| - 1]
  {
    var p := Start(items, sep, |items| - 1);
    JoinEnd(items, sep);
    JoinItem(items, sep, |items| - 1);
    assert |Join(items, sep)| - |items[|items| - 1]| == p;
  }

  /** Every item sits, unchanged, at its start position in the joined text. */
  lemma {:induction false} JoinItem(items: seq<string>, sep: string, i: nat)
    requires i < |items|
    ensures Start(items, sep, i) + |items[i]| <= |Join(items, sep)|
    ensures Join(items, sep)[Start(items, sep, i)..Start(items, sep, i) + |items[i]|] == items[i]
  {
    var r := Join(items, sep);
    if i == 0 {
      if |items| > 1 {
        assert r == items[0] + (sep + Join(items[1..], sep));
      }
    } else {
      var rest := items[1..];
      var j := Join(rest, sep);
      var off := |items[0]| + |sep|;
      var p := Start(rest, sep, i - 1);
      JoinItem(rest, sep, i - 1);
      assert r == (items[0] + sep) + j;
      assert rest[i - 1] == items[i];
      assert r[off + p..off + p + |items[i]|] == j[p..p + |items[i]|];
    }
  }

  /** Exactly one separator precedes every item but the first. */
  lemma {:induction false} JoinSeparator(items: seq<string>, sep: string, i: nat)
    requires 0 < i < |items|
    ensures |sep| <= Start(items, sep, i) <= |Join(items, sep)|
    ensures Join(items, sep)[Start(items, sep, i) - |sep|..Start(items, sep, i)] == sep
  {
    var rest := items[1..];
    var r := Join(items, sep);
    var j := Join(rest, sep);
    var off := |items[0]| + |sep|;
    assert r == (items[0] + sep) + j;
    JoinItem(items, sep, i);
    if i == 1 {
      assert r[|items[0]|..off] == sep;
    } else {
      var p := Start(rest, sep, i - 1);
      JoinSeparator(rest, sep, i - 1);
      assert r[off + p - |sep|..off + p] == j[p - |sep|..p];
    }
  }

  /** Every item sits, unchanged, at its start position. */
  lemma JoinItems(items: seq<string>, sep: string)
    ensures forall i :: 0 <= i < |items| ==>
      Start(items, sep, i) + |items[i]| <= |Join(items, sep)| &&
      Join(items, sep)[Start(items, sep, i)..Start(items, sep, i) + |items[i]|] == items[i]
  {
    forall i | 0 <= i < |items|
      ensures Start(items, sep, i) + |items[i]| <= |Join(items, sep)|
      ensures Join(items, sep)[Start(items, sep, i)..Start(items, sep, i) + |items[i]|] == items[i]
    {
      JoinItem(items, sep, i);
    }
  }

  /** One separator precedes every item but the first. */
  lemma JoinSeparators(items: seq<string>, sep: string)
    ensures forall i :: 0 < i < |items| ==>
      |sep| <= Start(items, sep, i) <= |Join(items, sep)| &&
      Join(items, sep)[Start(items, sep, i) - |sep|..Start(items, sep, i)] == sep
  {
    forall i | 0 < i < |items|
      ensures |sep| <= Start(items, sep, i) <= |Join(items, sep)|
      ensures Join(items, sep)[Start(items, sep, i) - |sep|..Start(items, sep, i)] == sep
    {
      JoinSeparator(items, sep, i);
    }
  }

  /** The joined text is laid out item, separator, item, ..., item: every item
      sits at its start position, one separator precedes every item but the
      first, and nothing follows the last item. Together these fix every
      character of the result. */
  lemma JoinLayout(items: seq<string>, sep: string)
    requires |items| > 0
    ensures |Join(items, sep)| == Start(items, sep, |items| - 1) + |items[|items| - 1]|
    ensures forall i :: 0 <= i < |items| ==>
      Start(items, sep, i) + |items[i]| <= |Join(items, sep)| &&
      Join(items, sep)[Start(items, sep, i)..Start(items, sep, i) + |items[i]|] == items[i]
    ensures forall i :: 0 < i < |items| ==>
      |sep| <= Start(items, sep, i) <= |Join(items, sep)| &&
      Join(items, sep)[Start(items, sep, i) - |sep|..Start(items, sep, i)] == sep
  {
    JoinEnd(items, sep);
    JoinItems(items, sep);
    JoinSeparators(items, sep);
  }
}
