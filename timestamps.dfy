/**
 * `datetime.strptime(date + " " + time, "%d/%m/%Y %I:%M %p")` as both scripts call it
 * (chat_1.py:243-250, chat-anayalzer.py:164-167). Python turns the format into a regular
 * expression: each directive matches a run of digits of bounded length and value, `%p` matches
 * `AM`/`PM` in any case, a space matches one or more whitespace characters, and the whole
 * string must be used up. The fields are then checked against the calendar.
 */
module Timestamps {
  import opened Optional
  import opened PyStrings

  /** A naive `datetime`; `strptime` with this format always sets `second` and `microsecond` to 0. */
  datatype DateTime = DateTime(year: int, month: int, day: int, hour: int, minute: int, second: int, microsecond: int)

  /** The Gregorian leap-year rule used by `datetime`. */
  predicate IsLeapYear(y: int)
  {
    y % 4 == 0 && (y % 100 != 0 || y % 400 == 0)
  }

  /** The number of days in month `m` (1-12) of year `y`. */
  function DaysInMonth(y: int, m: int): int
  {
    if m == 2 then (if IsLeapYear(y) then 29 else 28)
    else if m == 4 || m == 6 || m == 9 || m == 11 then 30
    else 31
  }

  /** The fields a `datetime` accepts: `MINYEAR` 1 to `MAXYEAR` 9999 and a real calendar day. */
  predicate ValidDateTime(dt: DateTime)
  {
    1 <= dt.year <= 9999 && 1 <= dt.month <= 12 && 1 <= dt.day <= DaysInMonth(dt.year, dt.month)
    && 0 <= dt.hour < 24 && 0 <= dt.minute < 60 && 0 <= dt.second < 60 && 0 <= dt.microsecond < 1000000
  }

  // ---------------------------------------------------------------------------
  // Formats
  // ---------------------------------------------------------------------------

  /** One piece of a `strptime` format. */
  datatype Directive =
    | Day       // %d
    | Month     // %m
    | Year      // %Y
    | Hour12    // %I
    | Minute    // %M
    | AmPm      // %p
    | Lit(c: char)
    | Blank     // a space in the format

  /** A format: its directives, first to last. */
  datatype Format = End | Then(head: Directive, rest: Format)

  /** `"%d/%m/%Y %I:%M %p"`. */
  const TimestampFormat: Format :=
    Then(Day, Then(Lit('/'), Then(Month, Then(Lit('/'), Then(Year, Then(Blank,
    Then(Hour12, Then(Lit(':'), Then(Minute, Then(Blank, Then(AmPm, End)))))))))))

  predicate IsNumeric(d: Directive)
  {
    d.Day? || d.Month? || d.Year? || d.Hour12? || d.Minute?
  }

  predicate IsField(d: Directive)
  {
    IsNumeric(d) || d.AmPm?
  }

  /** Digits a numeric directive takes: `%Y` exactly four, the others one or two. */
  function MinDigits(d: Directive): nat
  {
    if d.Year? then 4 else 1
  }

  function MaxDigits(d: Directive): nat
  {
    if d.Year? then 4 else 2
  }

  /**
   * The values the directive's pattern admits: `3[01]|[12]\d|0[1-9]|[1-9]` for `%d`,
   * `1[0-2]|0[1-9]|[1-9]` for `%m` and `%I`, `[0-5]\d|\d` for `%M`, four digits for `%Y`;
   * `%p` yields 0 for AM and 1 for PM.
   */
  predicate InRange(d: Directive, v: nat)
  {
    match d
    case Day => 1 <= v <= 31
    case Month => 1 <= v <= 12
    case Year => v <= 9999
    case Hour12 => 1 <= v <= 12
    case Minute => v <= 59
    case AmPm => v <= 1
    case _ => false
  }

  /** `vals` holds one in-range value per field of the format, in order. */
  predicate FitsFormat(fmt: Format, vals: seq<nat>)
    decreases fmt
  {
    match fmt
    case End => |vals| == 0
    case Then(d, rest) =>
      if IsField(d) then |vals| > 0 && InRange(d, vals[0]) && FitsFormat(rest, vals[1..])
      else FitsFormat(rest, vals)
  }

  /** The number of fields of a format. */
  function NumFields(fmt: Format): nat
    decreases fmt
  {
    match fmt
    case End => 0
    case Then(d, rest) => (if IsField(d) then 1 else 0) + NumFields(rest)
  }

  lemma {:induction false} FitsLength(fmt: Format, vals: seq<nat>)
    requires FitsFormat(fmt, vals)
    decreases fmt
    ensures |vals| == NumFields(fmt)
  {
    match fmt
    case End =>
    case Then(d, rest) =>
      FitsLength(rest, if IsField(d) then vals[1..] else vals);
  }

  /** Values from index `k` on fit a format that starts with a field when value `k` fits the field and the rest fit the rest. */
  lemma FitsAt(fmt: Format, v: seq<nat>, k: nat)
    requires fmt.Then? && IsField(fmt.head) && k < |v|
    ensures FitsFormat(fmt, v[k..]) <==> InRange(fmt.head, v[k]) && FitsFormat(fmt.rest, v[k + 1..])
  {
    assert v[k..][1..] == v[k + 1..];
  }

  /** The values of `"%d/%m/%Y %I:%M %p"`: day, month, year, `%I` hour, minute, and 0 or 1 for AM or PM. */
  predicate TimestampValues(v: seq<nat>)
  {
    |v| == 6 && 1 <= v[0] <= 31 && 1 <= v[1] <= 12 && v[2] <= 9999 && 1 <= v[3] <= 12 && v[4] <= 59 && v[5] <= 1
  }

  /** Values that fit the timestamp format are its six values. */
  lemma FitsTimestamp(v: seq<nat>)
    requires FitsFormat(TimestampFormat, v)
    ensures TimestampValues(v)
  {
    var f0 := TimestampFormat;
    FitsLength(f0, v);
    var f2 := f0.rest.rest;
    var f4 := f2.rest.rest;
    var f6 := f4.rest.rest;
    var f8 := f6.rest.rest;
    var f10 := f8.rest.rest;
    assert v[0..] == v;
    FitsAt(f0, v, 0);
    FitsAt(f2, v, 1);
    FitsAt(f4, v, 2);
    FitsAt(f6, v, 3);
    FitsAt(f8, v, 4);
    FitsAt(f10, v, 5);
  }

  /** The six values fit the timestamp format. */
  lemma TimestampFits(v: seq<nat>)
    requires TimestampValues(v)
    ensures FitsFormat(TimestampFormat, v)
  {
    var f0 := TimestampFormat;
    var f2 := f0.rest.rest;
    var f4 := f2.rest.rest;
    var f6 := f4.rest.rest;
    var f8 := f6.rest.rest;
    var f10 := f8.rest.rest;
    assert v[0..] == v;
    FitsAt(f10, v, 5);
    FitsAt(f8, v, 4);
    FitsAt(f6, v, 3);
    FitsAt(f4, v, 2);
    FitsAt(f2, v, 1);
    FitsAt(f0, v, 0);
  }

  // ---------------------------------------------------------------------------
  // Digits and whitespace
  // ---------------------------------------------------------------------------

  predicate IsDigit(c: char)
  {
    '0' <= c <= '9'
  }

  /** The length of the run of digits that starts `s`. */
  function DigitRun(s: string): (n: nat)
    ensures n <= |s|
    ensures forall i :: 0 <= i < n ==> IsDigit(s[i])
    ensures n < |s| ==> !IsDigit(s[n])
  {
    if |s| == 0 || !IsDigit(s[0]) then 0 else 1 + DigitRun(s[1..])
  }

  /** The length of the run of whitespace that starts `s`. */
  function SpaceRun(s: string): (n: nat)
    ensures n <= |s|
    ensures forall i :: 0 <= i < n ==> s[i] in Whitespace
    ensures n < |s| ==> s[n] !in Whitespace
  {
    if |s| == 0 || s[0] !in Whitespace then 0 else 1 + SpaceRun(s[1..])
  }

  /** The decimal value of a string of digits (`int(ds)`). */
  function DigitsValue(ds: string): nat
    decreases |ds|
  {
    if |ds| == 0 then 0
    else 10 * DigitsValue(ds[..|ds| - 1]) + (ds[|ds| - 1] as int - '0' as int) % 10
  }

  function Pow10(w: nat): nat
  {
    if w == 0 then 1 else 10 * Pow10(w - 1)
  }

  /** `v` written with exactly `w` digits, zero-padded on the left (`%02d`, `%04d`). */
  function Pad(v: nat, w: nat): (r: string)
    ensures |r| == w
    ensures forall i :: 0 <= i < w ==> IsDigit(r[i])
  {
    if w == 0 then "" else Pad(v / 10, w - 1) + [('0' as int + v % 10) as char]
  }

  // ---------------------------------------------------------------------------
  // Matching a format
  // ---------------------------------------------------------------------------

  /** Put `v` in front of a successful match. */
  function Cons(v: nat, m: Option<seq<nat>>): (r: Option<seq<nat>>)
    ensures r.Some? <==> m.Some?
    ensures r.Some? ==> |r.value| > 0 && r.value[0] == v && r.value[1..] == m.value
  {
    if m.None? then None else Some([v] + m.value)
  }

  /** `%p`: `AM` or `PM` in any case, as 0 or 1. */
  function ReadAmPm(s: string): (r: Option<nat>)
    ensures r.Some? ==> |s| >= 2 && r.value <= 1
  {
    if |s| < 2 then None
    else
      var l := Lower(s[..2]);
      if l == "am" then Some(0) else if l == "pm" then Some(1) else None
  }

  /**
   * A numeric directive: the whole run of leading digits, which must have the directive's
   * number of digits and a value its pattern admits; `Some((value, length))`.
   */
  function ReadNumber(d: Directive, s: string): (r: Option<(nat, nat)>)
    ensures r.Some? ==> InRange(d, r.value.0) && MinDigits(d) <= r.value.1 <= MaxDigits(d) && r.value.1 <= |s|
    ensures r.Some? ==> r.value.1 == DigitRun(s) && r.value.0 == DigitsValue(s[..r.value.1])
  {
    var n := DigitRun(s);
    var v := DigitsValue(s[..n]);
    if MinDigits(d) <= n <= MaxDigits(d) && InRange(d, v) then Some((v, n)) else None
  }

  /**
   * The regular expression `strptime` builds from `fmt`, anchored at both ends: `Some` of the
   * field values in format order when the whole of `s` matches, `None` when `strptime` raises
   * `ValueError` for a string that does not match.
   */
  function Match(fmt: Format, s: string): (r: Option<seq<nat>>)
    decreases fmt
    ensures r.Some? ==> FitsFormat(fmt, r.value)
  {
    match fmt
    case End => if |s| == 0 then Some([]) else None
    case Then(d, rest) =>
      match d
      case Lit(c) => if |s| > 0 && s[0] == c then Match(rest, s[1..]) else None
      case Blank =>
        var n := SpaceRun(s);
        if n > 0 then Match(rest, s[n..]) else None
      case AmPm =>
        (match ReadAmPm(s)
         case None => None
         case Some(v) => Cons(v, Match(rest, s[2..])))
      case Day | Month | Year | Hour12 | Minute =>
        (match ReadNumber(d, s)
         case None => None
         case Some((v, n)) => Cons(v, Match(rest, s[n..])))
  }

  /** The hour of the day for a `%I` hour and a `%p` flag: 12 AM is 0, 12 PM is 12. */
  function Hour24(h12: nat, pm: nat): nat
  {
    if pm == 0 then (if h12 == 12 then 0 else h12)
    else (if h12 == 12 then 12 else h12 + 12)
  }

  /**
   * `datetime.strptime(s, "%d/%m/%Y %I:%M %p")`: `None` where it raises `ValueError`, either
   * because `s` does not match or because year 0 or the day does not exist in that month.
   */
  function ParseTimestamp(s: string): (r: Option<DateTime>)
    ensures r.Some? ==> ValidDateTime(r.value) && r.value.second == 0 && r.value.microsecond == 0
  {
    var m := Match(TimestampFormat, s);
    if m.None? then None
    else
      var v := m.value;
      FitsTimestamp(v);
      var day, month, year, minute := v[0], v[1], v[2], v[4];
      if year >= 1 && day <= DaysInMonth(year, month) then Some(DateTime(year, month, day, Hour24(v[3], v[5]), minute, 0, 0))
      else None
  }

  /** The noon and midnight rule of `%I` with `%p`, and every hour of the day comes from one reading. */
  lemma Hour24Spec(h12: nat, pm: nat)
    requires 1 <= h12 <= 12 && pm <= 1
    ensures Hour24(h12, pm) < 24
    ensures (Hour24(h12, pm) >= 12) == (pm == 1)
    ensures Hour24(h12, pm) % 12 == h12 % 12
  {
  }

  // ---------------------------------------------------------------------------
  // Formatting, and parsing undoes it
  // ---------------------------------------------------------------------------

  /** How many digits `Render` writes for a numeric directive. */
  function Width(d: Directive): nat
  {
    if d.Year? then 4 else 2
  }

  /** The text a format produces for its values, numbers zero-padded to two digits (four for `%Y`). */
  function Render(fmt: Format, vals: seq<nat>): string
    requires FitsFormat(fmt, vals)
    decreases fmt
  {
    match fmt
    case End => ""
    case Then(d, rest) =>
      match d
      case Lit(c) => [c] + Render(rest, vals)
      case Blank => " " + Render(rest, vals)
      case AmPm => (if vals[0] == 0 then "AM" else "PM") + Render(rest, vals[1..])
      case Day | Month | Year | Hour12 | Minute => Pad(vals[0], Width(d)) + Render(rest, vals[1..])
  }

  /**
   * A format whose pieces cannot run into each other: no two numeric directives and no two
   * blanks in a row, and no literal that is a digit or whitespace.
   */
  predicate Separated(fmt: Format)
    decreases fmt
  {
    match fmt
    case End => true
    case Then(d, rest) =>
      (d.Lit? ==> !IsDigit(d.c) && d.c !in Whitespace)
      && (rest.Then? ==> !(IsNumeric(d) && IsNumeric(rest.head)) && !(d.Blank? && rest.head.Blank?))
      && Separated(rest)
  }

  /** The first character a non-empty format renders: a digit only for a numeric directive, whitespace only for a blank. */
  lemma RenderHead(fmt: Format, vals: seq<nat>)
    requires fmt.Then? && FitsFormat(fmt, vals) && Separated(fmt)
    ensures |Render(fmt, vals)| > 0
    ensures !IsNumeric(fmt.head) ==> !IsDigit(Render(fmt, vals)[0])
    ensures !fmt.head.Blank? ==> Render(fmt, vals)[0] !in Whitespace
  {
    if IsNumeric(fmt.head) {
      assert Render(fmt, vals)[0] == Pad(vals[0], Width(fmt.head))[0];
    }
  }

  /** `w` zero-padded digits, followed by a non-digit or nothing, are read back as the digit run. */
  lemma {:induction false} DigitRunOfPad(p: string, rest: string)
    requires forall i :: 0 <= i < |p| ==> IsDigit(p[i])
    requires |rest| > 0 ==> !IsDigit(rest[0])
    decreases |p|
    ensures DigitRun(p + rest) == |p|
  {
    if |p| > 0 {
      assert (p + rest)[1..] == p[1..] + rest;
      DigitRunOfPad(p[1..], rest);
    }
  }

  /** A blank followed by something that does not start with whitespace is one whitespace character. */
  lemma SpaceRunOfBlank(rest: string)
    requires |rest| > 0 ==> rest[0] !in Whitespace
    ensures SpaceRun(" " + rest) == 1
  {
    assert (" " + rest)[1..] == rest;
  }

  /** Zero-padding loses nothing when the value fits in the width. */
  lemma {:induction false} PadValue(v: nat, w: nat)
    requires v < Pow10(w)
    decreases w
    ensures DigitsValue(Pad(v, w)) == v
  {
    if w > 0 {
      var p := Pad(v, w);
      assert p[..w - 1] == Pad(v / 10, w - 1);
      PadValue(v / 10, w - 1);
    }
  }

  /** A literal matches its own character. */
  lemma MatchLit(c: char, rest: Format, vs: seq<nat>, tail: string)
    requires Match(rest, tail) == Some(vs)
    ensures Match(Then(Lit(c), rest), [c] + tail) == Some(vs)
  {
    assert ([c] + tail)[1..] == tail;
  }

  /** A blank matches one space when no whitespace follows. */
  lemma MatchBlank(rest: Format, vs: seq<nat>, tail: string)
    requires Match(rest, tail) == Some(vs) && (|tail| > 0 ==> tail[0] !in Whitespace)
    ensures Match(Then(Blank, rest), " " + tail) == Some(vs)
  {
    SpaceRunOfBlank(tail);
    assert (" " + tail)[1..] == tail;
  }

  /** `%p` reads back the `AM` or `PM` it wrote. */
  lemma MatchAmPm(v: nat, rest: Format, vs: seq<nat>, tail: string)
    requires v <= 1 && Match(rest, tail) == Some(vs)
    ensures Match(Then(AmPm, rest), (if v == 0 then "AM" else "PM") + tail) == Some([v] + vs)
  {
    var mark := if v == 0 then "AM" else "PM";
    var s := mark + tail;
    assert s[..2] == mark && s[2..] == tail;
    var l := Lower(mark);
    assert l[0] == (if v == 0 then 'a' else 'p') && l[1] == 'm';
    assert l == (if v == 0 then "am" else "pm");
    assert ReadAmPm(s) == Some(v);
  }

  /** A numeric directive reads back the zero-padded number it wrote when a non-digit or nothing follows. */
  lemma MatchNumber(d: Directive, v: nat, rest: Format, vs: seq<nat>, tail: string)
    requires IsNumeric(d) && InRange(d, v) && Match(rest, tail) == Some(vs)
    requires |tail| > 0 ==> !IsDigit(tail[0])
    ensures Match(Then(d, rest), Pad(v, Width(d)) + tail) == Some([v] + vs)
  {
    var w := Width(d);
    var p := Pad(v, w);
    var s := p + tail;
    DigitRunOfPad(p, tail);
    assert s[..w] == p && s[w..] == tail;
    assert Pow10(2) == 100 && Pow10(4) == 10000;
    PadValue(v, w);
    assert ReadNumber(d, s) == Some((v, w));
  }

  /** A zero-padded number followed by a non-digit (or nothing) is read back as its value and width. */
  lemma ReadNumberOfPad(d: Directive, v: nat, tail: string)
    requires IsNumeric(d) && InRange(d, v)
    requires |tail| > 0 ==> !IsDigit(tail[0])
    ensures ReadNumber(d, Pad(v, Width(d)) + tail) == Some((v, Width(d)))
  {
    var w := Width(d);
    var p := Pad(v, w);
    DigitRunOfPad(p, tail);
    assert (p + tail)[..w] == p;
    assert Pow10(2) == 100 && Pow10(4) == 10000;
    PadValue(v, w);
  }

  /** Matching a format against its own rendering gives back the values. */
  lemma {:induction false} MatchRender(fmt: Format, vals: seq<nat>)
    requires FitsFormat(fmt, vals) && Separated(fmt)
    decreases fmt
    ensures Match(fmt, Render(fmt, vals)) == Some(vals)
  {
    match fmt
    case End =>
    case Then(d, rest) =>
      var vs := if IsField(d) then vals[1..] else vals;
      MatchRender(rest, vs);
      var tail := Render(rest, vs);
      if rest.Then? {
        RenderHead(rest, vs);
      }
      if IsField(d) {
        assert vals == [vals[0]] + vs;
      }
      match d
      case Lit(c) => MatchLit(c, rest, vs, tail);
      case Blank => MatchBlank(rest, vs, tail);
      case AmPm => MatchAmPm(vals[0], rest, vs, tail);
      case Day | Month | Year | Hour12 | Minute => MatchNumber(d, vals[0], rest, vs, tail);
  }

  /** The `%I` reading of an hour of the day. */
  function Hour12Of(hour: int): nat
    requires 0 <= hour < 24
  {
    if hour % 12 == 0 then 12 else hour % 12
  }

  /** Reading an hour of the day as `%I` and `%p` and converting back gives the hour. */
  lemma Hour12Round(hour: int)
    requires 0 <= hour < 24
    ensures Hour24(Hour12Of(hour), if hour >= 12 then 1 else 0) == hour
  {
  }

  /** The values the export's format writes for a date and time. */
  function TimestampVals(dt: DateTime): (v: seq<nat>)
    requires ValidDateTime(dt)
    ensures TimestampValues(v)
  {
    [dt.day, dt.month, dt.year, Hour12Of(dt.hour), dt.minute, if dt.hour >= 12 then 1 else 0]
  }

  /** A timestamp in the export's format: `31/12/2023 11:05 PM`. */
  function FormatTimestamp(dt: DateTime): string
    requires ValidDateTime(dt)
  {
    var v := TimestampVals(dt);
    TimestampFits(v);
    Render(TimestampFormat, v)
  }

  /** No two pieces of the export's format run together. */
  lemma TimestampSeparated()
    ensures Separated(TimestampFormat)
  {
    var f := TimestampFormat;
    assert Separated(f.rest.rest.rest.rest.rest.rest);
  }

  /** `strptime` reads back every timestamp written in the export's format. */
  lemma ParseFormatted(dt: DateTime)
    requires ValidDateTime(dt) && dt.second == 0 && dt.microsecond == 0
    ensures ParseTimestamp(FormatTimestamp(dt)) == Some(dt)
  {
    var v := TimestampVals(dt);
    TimestampFits(v);
    TimestampSeparated();
    MatchRender(TimestampFormat, v);
    assert Match(TimestampFormat, FormatTimestamp(dt)) == Some(v);
    Hour12Round(dt.hour);
  }

  // ---------------------------------------------------------------------------
  // Hours and their order
  // ---------------------------------------------------------------------------

  /** `dt.replace(minute=0, second=0, microsecond=0)`. */
  function Truncate(dt: DateTime): (r: DateTime)
    ensures r.minute == 0 && r.second == 0 && r.microsecond == 0
    ensures r.year == dt.year && r.month == dt.month && r.day == dt.day && r.hour == dt.hour
  {
    dt.(minute := 0, second := 0, microsecond := 0)
  }

  /** `a < b` for naive datetimes: field by field, from the year down. */
  predicate Before(a: DateTime, b: DateTime)
  {
    if a.year != b.year then a.year < b.year
    else if a.month != b.month then a.month < b.month
    else if a.day != b.day then a.day < b.day
    else if a.hour != b.hour then a.hour < b.hour
    else if a.minute != b.minute then a.minute < b.minute
    else if a.second != b.second then a.second < b.second
    else a.microsecond < b.microsecond
  }

  /** `Before` is a strict total order. */
  lemma BeforeOrder(a: DateTime, b: DateTime, c: DateTime)
    ensures !Before(a, a)
    ensures Before(a, b) ==> !Before(b, a)
    ensures a != b ==> Before(a, b) || Before(b, a)
    ensures Before(a, b) && Before(b, c) ==> Before(a, c)
  {
  }
}
