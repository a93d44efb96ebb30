# Starbound text helpers in Dafny

This project models `utils.py` of the Starbound notebook helpers: four pure
text transformations that post-process strings taken from the game's data.

- `list_to_str` joins items with a separator (`ListJoin`).
- `strip_colors` deletes Starbound colour directives `^name;` in one
  left-to-right regular-expression pass (`Colors`).
- `strip_planet_number` strips colours, then deletes planet numbers (a run of
  `V`/`I` not followed by a word character, where the end of the text counts,
  with an optional sector tag ` - x`), then trims whitespace (`PlanetNumber`,
  `Whitespace`).
- `playtime_to_string` writes a duration as up to four components (hours,
  minutes, seconds, milliseconds) with singular or plural labels (`Playtime`).
  It also relies on decimal printing of integers (`Decimal`).

The regular expressions are not modelled as a regex engine. Each becomes a
hand-written scanner over `seq<char>`. The scanner is then proved equal to a
declarative description of which characters survive:
- `Colors.Uncovered`: characters inside no directive.
- `PlanetNumber.Survivors`: characters in no planet number and no sector tag.

The playtime phrase gets an inverse: a reader, `PlaytimeReading.ParseComponents`,
that recovers the components from the text.

`Chars` gives the character classes. `\w` is `[A-Za-z0-9_]`. Whitespace is
the ASCII characters for which Python's `str.isspace` holds: space,
`\t \n \v \f \r` and `\x1c`-`\x1f`.

The durations are whole milliseconds `m`; `playtime_to_string`'s `time`
argument is `m / 1000` seconds. For such inputs, the arithmetic in
`playtime_to_string` gives the following, and the model computes the same:
- hours: `m / 3600000`
- minutes: `(m / 60000) % 60`
- seconds: `(m / 1000) % 60`
- milliseconds: `m`

This holds because `int(x % 60) == int(x) % 60` for `x >= 0`.

Two consequences of the code are worth knowing:
- `strip_colors` is not idempotent: `^^a;b;` becomes `^b;`, and a second pass
  gives the empty string (`ColorExamples.StripColorsNotIdempotent`).
- `strip_planet_number('^red;Foo;Planet IV')` is `Foo;Planet`: `Foo;` has no
  caret and is kept (`PlanetExamples.StripPlanetNumberColorsFirst`).

## Model

| member | source | states |
|---|---|---|
| `ListJoin.Join` | utils.py:3-4 | Joining no items gives the empty string; joining one item gives that item unchanged |
| `ListJoin.JoinLength` | utils.py:3-4 | The joined text is as long as all items together plus one separator between each two neighbours (n-1 separators for n items) |
| `ListJoin.JoinEndsWithLast` | utils.py:3-4 | The joined text ends with the last item |
| `ListJoin.JoinLayout` | utils.py:3-4 | The joined text is item 0, separator, item 1, ..., last item: each item sits unchanged at its start offset, exactly one separator precedes every item but the first, and nothing follows the last item |
| `Decimal.NatToString` | utils.py:26-35 | The printed amount is a non-empty string of decimal digits with no leading zero |
| `Decimal.ParseNatToString` | utils.py:26-35 | Reading the printed amount back gives the amount: decimal printing loses nothing |
| `Decimal.NatToStringParse` | utils.py:26-35 | Every digit string without a leading zero is the printed form of the number it denotes, so printing is a bijection onto canonical digit strings |
| `Colors.TokenLength` | utils.py:10 | The pattern matches at a position exactly when a caret, one or more word characters and a semicolon start there, and the match is the only such directive starting there; the lazy `\w+?` ends where a greedy one would |
| `Colors.TokensDisjoint` | utils.py:10 | Two colour directives never overlap, so the single pass cannot miss one by consuming part of it in an earlier match |
| `Colors.StripFrom` | utils.py:10 | The left-to-right scan from a position emits at most the characters that remain from there |
| `Colors.StripFromUncovered` | utils.py:10 | From any position that no directive straddles, the scan keeps exactly the characters inside no directive, in order |
| `Colors.StripColors` | utils.py:6-10 | `strip_colors` keeps exactly the characters that lie inside no colour directive, in their original order, and removes every directive; the result is never longer than the input |
| `Colors.StripColorsUnchanged` | utils.py:10 | A string is left unchanged if and only if it contains no colour directive |
| `ColorExamples.StripColorsRemovesDirectives` | utils.py:10 | `^red;Hello^reset;` becomes `Hello` |
| `ColorExamples.StripColorsKeepsMalformed` | utils.py:10 | `^;` (no name) and `^a b;` (a space in the name) are not directives and are kept |
| `ColorExamples.StripColorsPlainText` | utils.py:10 | Every text without a caret passes through unchanged |
| `ColorExamples.StripColorsNotIdempotent` | utils.py:10 | The pass is not idempotent: `^^a;b;` becomes `^b;`, and a second pass gives the empty string |
| `Whitespace.Strip` | utils.py:13 | `.strip()` returns the slice of the input outside which everything is whitespace and which itself neither starts nor ends with whitespace |
| `Whitespace.StripAt` | utils.py:13 | That slice is unique: any slice with only whitespace outside it and no whitespace at either end is what `.strip()` returns |
| `Whitespace.StripUnchanged` | utils.py:13 | `.strip()` leaves a string unchanged if and only if it is empty or neither starts nor ends with whitespace |
| `PlanetNumber.NumberIffMatch` | utils.py:13 | The pattern `[VI]+(?![\w])` matches at a position exactly when a run of `V`/`I` from there reaches the end of the text or a non-word character; there is no left boundary |
| `PlanetNumber.MatchEnd` | utils.py:13 | The match at a position never runs past the end of the text |
| `PlanetNumber.MatchDeleted` | utils.py:13 | Every position a match spans lies in a planet number or in the sector tag directly after one |
| `PlanetNumber.StripNumeralsFrom` | utils.py:13 | The left-to-right scan from a position emits at most the characters that remain from there |
| `PlanetNumber.StripNumeralsFromSurvivors` | utils.py:13 | From any position outside a sector tag, the scan keeps exactly the characters in no planet number and no sector tag, in order |
| `PlanetNumber.StripNumerals` | utils.py:13 | The substitution deletes exactly every planet number and the ` - x` sector tag directly after one, and keeps every other character in order |
| `PlanetNumber.StripPlanetNumber` | utils.py:12-13 | `strip_planet_number` trims the characters that are covered by no colour directive and, in the colour-stripped text, lie in no planet number or sector tag; the result has no leading or trailing whitespace and is never longer than the input |
| `PlanetExamples.StripPlanetNumberSectorTag` | utils.py:13 | `Planet Name II - b` becomes `Planet Name` |
| `PlanetExamples.StripPlanetNumberKeepsWord` | utils.py:13 | `VIVID` is unchanged: a `V`/`I` run followed by a word character is kept whole |
| `PlanetExamples.StripPlanetNumberNoLeftBoundary` | utils.py:13 | `TAXI` becomes `TAX`: nothing is required before the run |
| `PlanetExamples.StripPlanetNumberOnlyVI` | utils.py:13 | `Planet XIV` becomes `Planet X`: only `V` and `I` count as numerals |
| `PlanetExamples.StripPlanetNumberColorsFirst` | utils.py:12-13 | `^red;Foo;Planet IV` becomes `Foo;Planet`: the directive is stripped before the numerals, and `Foo;` is kept |
| `Playtime.NonEmpty` | utils.py:37 | The filtered list is no longer than the input, holds no empty string, and holds every non-empty string of the input |
| `Playtime.NonEmptyCounts` | utils.py:37 | The filtered list holds every non-empty string exactly as often as the input does, and no empty string |
| `Playtime.NonEmptyAppend` | utils.py:37 | Filtering a concatenation is the concatenation of the filtered parts, so the filter keeps the input's order |
| `Playtime.PlaytimeToString` | utils.py:15-37 | The phrase is the duration's components, written out and joined with `", "`; dropping the empty strings removes exactly the components below their threshold |
| `Playtime.ComponentsMeaning` | utils.py:25-35 | Components come in the order hours, minutes, seconds, milliseconds. Hours, minutes and seconds appear iff the duration is at least 1 h, 1 min and 1 s. Minutes and seconds are below 60. Hours, minutes and seconds add up to the whole seconds of the duration. The last component is the total in milliseconds, not a remainder |
| `Playtime.PluralUnlessOne` | utils.py:27-35 | A written component (`Describe`) ends in `s` exactly when its amount is not 1, so 0 is plural |
| `PlaytimeReading.LabelNamesUnit` | utils.py:27-35 | Every label (`Label`) names its own unit: for any amount, the unit is read back from its label |
| `PlaytimeReading.ParseDescribe` | utils.py:27-35 | A written component, at the end of the text or before a comma, reads back as exactly its amount and unit, and the reader consumes all of it |
| `Playtime.PlaytimeEndsWithTotal` | utils.py:34-37 | Every phrase ends with the millisecond component carrying the whole duration |
| `PlaytimeReading.ParseRender` | utils.py:37 | Reading a rendered list of components gives back exactly that list |
| `PlaytimeReading.PlaytimeReadsBack` | utils.py:15-37 | The phrase for a duration reads back as the duration's components, so no information is lost in formatting |
| `PlaytimeReading.PlaytimeInjective` | utils.py:34-37 | Two different whole-millisecond durations never give the same phrase |
| `PlaytimeExamples.PlaytimeZero` | utils.py:15-37 | 0 gives `0 milliseconds` |
| `PlaytimeExamples.PlaytimeOneSecond` | utils.py:15-37 | 1 s gives `1 second, 1000 milliseconds` |
| `PlaytimeExamples.PlaytimeSixtyOneSeconds` | utils.py:15-37 | 61 s gives `1 minute, 1 second, 61000 milliseconds` |
| `PlaytimeExamples.PlaytimeHourMinuteSecond` | utils.py:15-37 | 3661 s gives `1 hour, 1 minute, 1 second, 3661000 milliseconds` |

## Left out

- Floating point in `playtime_to_string` is not modelled. The input is a whole number of milliseconds. Float rounding in `time / 60` and `time % 60`, Python's round-half-to-even `round()`, fractional milliseconds and negative durations are outside the model.
- Python's `re` engine (backtracking, lazy quantifiers, lookahead) is not modelled. Each pattern is replaced by a scanner proved equal to a declarative description of what the pattern deletes.
- Unicode character classes are not modelled. `\w` and `str.isspace` use Python's full Unicode tables; the model keeps only their ASCII part, so non-ASCII letters and spaces (`\xa0`, `\u2003`, ...) are outside the model.
- `ListJoin.Join`: takes the items as strings. `str()` of arbitrary objects in `list_to_str` is not modelled, because it calls each object's own conversion.
- `Colors.StripFrom`: its own contract only bounds the length. What it keeps is stated by `Colors.StripFromUncovered`, so that the function's contract stays small where the examples unfold it on literals.
- `PlanetNumber.StripNumeralsFrom`: its own contract only bounds the length. What it keeps is stated by `PlanetNumber.StripNumeralsFromSurvivors`, for the same reason.
- `Playtime.NonEmpty`: its own contract fixes which strings are kept, not how often or in what order. `Playtime.NonEmptyCounts` states how often and `Playtime.NonEmptyAppend` states the order, so that the function's contract stays small where the phrase is unfolded.
- `PlanetNumber.MatchEnd`: its own contract only bounds the match. Where a match occurs and what it covers are stated by `PlanetNumber.NumberIffMatch` and `PlanetNumber.MatchDeleted`, for the same reason.
