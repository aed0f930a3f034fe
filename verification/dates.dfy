/** Calendar values as `pd.to_datetime` produces them from ISO 8601 text, and the
    renderings the pipeline takes of them: the `YYYY-MM` period key
    (`strftime("%Y-%m")`), the two-digit month (`strftime("%m")`) and the
    fractional hour of a time of day (`hour + minute / 60`). */
module Dates {
  import opened Wrappers
  import opened Text

  datatype Timestamp = Timestamp(year: int, month: int, day: int, hour: int, minute: int, second: int)

  predicate IsLeapYear(year: int) {
    year % 4 == 0 && (year % 100 != 0 || year % 400 == 0)
  }

  function DaysInMonth(year: int, month: int): int {
    if month == 2 then (if IsLeapYear(year) then 29 else 28)
    else if month == 4 || month == 6 || month == 9 || month == 11 then 30
    else 31
  }

  /** A real calendar instant with a four-digit year. */
  predicate Valid(t: Timestamp) {
    && 1 <= t.year <= 9999
    && 1 <= t.month <= 12
    && 1 <= t.day <= DaysInMonth(t.year, t.month)
    && 0 <= t.hour < 24
    && 0 <= t.minute < 60
    && 0 <= t.second < 60
  }

  /** The values of a datetime column. */
  type Stamp = t: Timestamp | Valid(t) witness Timestamp(2000, 1, 1, 0, 0, 0)

  /** `strftime("%Y-%m")`: the canonical period key that aligns weather and billing rows. */
  function PeriodKey(t: Stamp): string {
    Pad(t.year, 4) + "-" + Pad(t.month, 2)
  }

  /** `strftime("%m")`: the zero-padded month. */
  function MonthText(t: Stamp): string {
    Pad(t.month, 2)
  }

  /** `t` rendered as `YYYY-MM-DD?HH:MM:SS` with `sep` for `?`: `T` is the form the weather
      service reports dates in, a space the form `str` gives a datetime. */
  function IsoText(t: Stamp, sep: char): string {
    Pad(t.year, 4) + "-" + Pad(t.month, 2) + "-" + Pad(t.day, 2) + [sep]
      + Pad(t.hour, 2) + ":" + Pad(t.minute, 2) + ":" + Pad(t.second, 2)
  }

  /** `t`'s calendar day rendered as `YYYY-MM-DD`. */
  function DateText(t: Stamp): string {
    Pad(t.year, 4) + "-" + Pad(t.month, 2) + "-" + Pad(t.day, 2)
  }

  /** The number in `s[i..i + w]` when those characters are all digits. */
  function Field(s: string, i: nat, w: nat): Option<nat>
    requires i + w <= |s|
  {
    if AllDigits(s[i..i + w]) then Some(DigitsValue(s[i..i + w])) else None
  }

  /** The separators of the accepted layouts: `YYYY-MM`, `YYYY-MM-DD`,
      `YYYY-MM-DD?HH:MM` and `YYYY-MM-DD?HH:MM:SS` with `?` one of `T` or space. */
  predicate IsoLayout(s: string) {
    && (|s| == 7 || |s| == 10 || |s| == 16 || |s| == 19)
    && s[4] == '-'
    && (|s| >= 10 ==> s[7] == '-')
    && (|s| >= 16 ==> (s[10] == 'T' || s[10] == ' ') && s[13] == ':')
    && (|s| == 19 ==> s[16] == ':')
  }

  /** The fields of an ISO layout, when every field is made of digits. */
  function IsoFields(s: string): (r: Option<Timestamp>)
    requires IsoLayout(s)
    ensures r.Some? ==> AllDigits(s[..4]) && AllDigits(s[5..7])
    ensures r.Some? ==> r.value.year == DigitsValue(s[..4]) && r.value.month == DigitsValue(s[5..7])
  {
    var year := Field(s, 0, 4);
    var month := Field(s, 5, 2);
    var day := if |s| >= 10 then Field(s, 8, 2) else Some(1);
    var hour := if |s| >= 16 then Field(s, 11, 2) else Some(0);
    var minute := if |s| >= 16 then Field(s, 14, 2) else Some(0);
    var second := if |s| == 19 then Field(s, 17, 2) else Some(0);
    if year.None? || month.None? || day.None? || hour.None? || minute.None? || second.None? then None
    else Some(Timestamp(year.value, month.value, day.value, hour.value, minute.value, second.value))
  }

  /** `pd.to_datetime` on one ISO 8601 string; omitted day defaults to 1, omitted time to midnight.
      Anything that is not such a string, or names no real instant, is a `ParseError`. */
  function ParseTimestamp(s: string): (r: Result<Stamp>)
    ensures r.Ok? <==> IsoLayout(s) && IsoFields(s).Some? && Valid(IsoFields(s).value)
    ensures r.Ok? ==> IsoFields(s) == Some(r.value)
    ensures r.Err? ==> r.fault == ParseError(s)
  {
    if !IsoLayout(s) then Err(ParseError(s))
    else
      match IsoFields(s)
      case None => Err(ParseError(s))
      case Some(t) => if Valid(t) then Ok(t) else Err(ParseError(s))
  }

  /** The period key of a parsed string is its first seven characters: the key never
      depends on the day or the time. */
  lemma ParsedPeriodKey(s: string)
    requires ParseTimestamp(s).Ok?
    ensures PeriodKey(ParseTimestamp(s).value) == s[..7]
  {
    var t := ParseTimestamp(s).value;
    assert IsoFields(s) == Some(t);
    KeyOfFields(s, t);
  }

  /** A timestamp whose year and month are read from the digits around the dash of `s`
      has the first seven characters of `s` as its period key. */
  lemma KeyOfFields(s: string, t: Stamp)
    requires |s| >= 7 && s[4] == '-' && AllDigits(s[..4]) && AllDigits(s[5..7])
    requires t.year == DigitsValue(s[..4]) && t.month == DigitsValue(s[5..7])
    ensures PeriodKey(t) == s[..7]
  {
    PadDigitsValue(s[..4]);
    PadDigitsValue(s[5..7]);
    assert s[..7] == s[..4] + "-" + s[5..7];
  }

  /** A field rendered by `Pad` reads back as its number. */
  lemma FieldOfPad(s: string, i: nat, w: nat, n: nat)
    requires i + w <= |s| && n < Pow10(w) && s[i..i + w] == Pad(n, w)
    ensures Field(s, i, w) == Some(n)
  {
  }

  /** A time of day `HH:MM` or `HH:MM:SS`, as `pd.to_datetime` reads the peak-demand
      column (the date part it adds is irrelevant to the hour and minute). */
  datatype Clock = Clock(hour: int, minute: int, second: int)

  predicate ValidClock(c: Clock) {
    0 <= c.hour < 24 && 0 <= c.minute < 60 && 0 <= c.second < 60
  }

  function ParseClock(s: string): (r: Result<Clock>)
    ensures r.Ok? ==> ValidClock(r.value)
    ensures r.Ok? ==> (|s| == 5 || |s| == 8) && s[2] == ':'
    ensures r.Err? ==> r.fault == ParseError(s)
  {
    if (|s| != 5 && |s| != 8) || s[2] != ':' || (|s| == 8 && s[5] != ':') then Err(ParseError(s))
    else
      var hour := Field(s, 0, 2);
      var minute := Field(s, 3, 2);
      var second := if |s| == 8 then Field(s, 6, 2) else Some(0);
      if hour.None? || minute.None? || second.None? then Err(ParseError(s))
      else
        var c := Clock(hour.value, minute.value, second.value);
        if ValidClock(c) then Ok(c) else Err(ParseError(s))
  }

  /** `dt.hour + dt.minute / 60`: the time of day as a fractional hour. Seconds are dropped. */
  function FractionalHour(hour: int, minute: int): (h: real)
    requires 0 <= hour < 24 && 0 <= minute < 60
    ensures 0.0 <= h < 24.0
    ensures hour as real <= h < hour as real + 1.0
  {
    hour as real + minute as real / 60.0
  }

  /** The period key is seven characters: four year digits, a dash, two month digits. */
  lemma PeriodKeyShape(t: Stamp)
    ensures |PeriodKey(t)| == 7 && PeriodKey(t)[4] == '-'
    ensures AllDigits(PeriodKey(t)[..4]) && AllDigits(PeriodKey(t)[5..])
    ensures PeriodKey(t)[5..] == MonthText(t)
  {
    assert PeriodKey(t)[..4] == Pad(t.year, 4);
    assert PeriodKey(t)[5..] == Pad(t.month, 2);
  }

  /** Two instants share a period key exactly when they fall in the same calendar month. */
  lemma PeriodKeySameMonth(a: Stamp, b: Stamp)
    ensures PeriodKey(a) == PeriodKey(b) <==> a.year == b.year && a.month == b.month
  {
    if PeriodKey(a) == PeriodKey(b) {
      assert PeriodKey(a)[..4] == Pad(a.year, 4) && PeriodKey(b)[..4] == Pad(b.year, 4);
      assert PeriodKey(a)[5..] == Pad(a.month, 2) && PeriodKey(b)[5..] == Pad(b.month, 2);
      PadInjective(a.year, b.year, 4);
      PadInjective(a.month, b.month, 2);
    }
  }

  /** Parsing a period key back (`pd.to_datetime("YYYY-MM")`) gives the first instant of that month. */
  lemma ParsePeriodKey(t: Stamp)
    ensures ParseTimestamp(PeriodKey(t)) == Ok(Timestamp(t.year, t.month, 1, 0, 0, 0))
  {
    var k := PeriodKey(t);
    assert k[0..4] == Pad(t.year, 4);
    assert k[5..7] == Pad(t.month, 2);
    FieldOfPad(k, 0, 4, t.year);
    FieldOfPad(k, 5, 2, t.month);
  }

  /** Parsing the full text of an instant, with `T` or a space between date and time,
      returns the instant it was rendered from. */
  lemma ParseIsoText(t: Stamp, sep: char)
    requires sep == 'T' || sep == ' '
    ensures ParseTimestamp(IsoText(t, sep)) == Ok(t)
  {
    IsoTextLayout(t, sep);
    ParseFullLayout(IsoText(t, sep), t);
  }

  /** Parsing the `YYYY-MM-DD` text of a day returns midnight of that day. */
  lemma ParseDateText(t: Stamp)
    ensures ParseTimestamp(DateText(t)) == Ok(Timestamp(t.year, t.month, t.day, 0, 0, 0))
  {
    var s := DateText(t);
    var a := Pad(t.year, 4) + "-" + Pad(t.month, 2);
    assert s == a + "-" + Pad(t.day, 2);
    assert a[0..4] == Pad(t.year, 4) && a[4] == '-' && a[5..7] == Pad(t.month, 2);
    assert s[..7] == a && s[7] == '-' && s[8..10] == Pad(t.day, 2);
    SliceOfPrefix(s, a, 0, 4);
    SliceOfPrefix(s, a, 5, 7);
    FieldOfPad(s, 0, 4, t.year);
    FieldOfPad(s, 5, 2, t.month);
    FieldOfPad(s, 8, 2, t.day);
    assert IsoFields(s) == Some(Timestamp(t.year, t.month, t.day, 0, 0, 0));
  }

  lemma ParseFullLayout(s: string, t: Stamp)
    requires IsoLayout(s) && |s| == 19
    requires s[0..4] == Pad(t.year, 4) && s[5..7] == Pad(t.month, 2) && s[8..10] == Pad(t.day, 2)
    requires s[11..13] == Pad(t.hour, 2) && s[14..16] == Pad(t.minute, 2) && s[17..19] == Pad(t.second, 2)
    ensures ParseTimestamp(s) == Ok(t)
  {
    FieldOfPad(s, 0, 4, t.year);
    FieldOfPad(s, 5, 2, t.month);
    FieldOfPad(s, 8, 2, t.day);
    FieldOfPad(s, 11, 2, t.hour);
    FieldOfPad(s, 14, 2, t.minute);
    FieldOfPad(s, 17, 2, t.second);
    var fields := IsoFields(s);
    assert fields == Some(t);
    assert Valid(t);
  }

  lemma IsoTextLayout(t: Stamp, sep: char)
    requires sep == 'T' || sep == ' '
    ensures var s := IsoText(t, sep);
      && IsoLayout(s) && |s| == 19
      && s[0..4] == Pad(t.year, 4) && s[5..7] == Pad(t.month, 2) && s[8..10] == Pad(t.day, 2)
      && s[11..13] == Pad(t.hour, 2) && s[14..16] == Pad(t.minute, 2) && s[17..19] == Pad(t.second, 2)
  {
    IsoPieces(Pad(t.year, 4), Pad(t.month, 2), Pad(t.day, 2), sep, Pad(t.hour, 2), Pad(t.minute, 2), Pad(t.second, 2));
  }

  /** Where the six fields of `YYYY-MM-DD?HH:MM:SS` sit once the pieces are joined. */
  lemma IsoPieces(y: string, mo: string, d: string, sep: char, h: string, mi: string, se: string)
    requires |y| == 4 && |mo| == 2 && |d| == 2 && |h| == 2 && |mi| == 2 && |se| == 2
    requires sep == 'T' || sep == ' '
    ensures var s := y + "-" + mo + "-" + d + [sep] + h + ":" + mi + ":" + se;
      && IsoLayout(s) && |s| == 19
      && s[0..4] == y && s[5..7] == mo && s[8..10] == d
      && s[11..13] == h && s[14..16] == mi && s[17..19] == se
  {
    var a := y + "-" + mo;
    var b := a + "-" + d;
    var c := b + [sep] + h + ":" + mi;
    var s := c + ":" + se;
    assert a[0..4] == y && a[4] == '-' && a[5..7] == mo;
    assert b[..7] == a && b[7] == '-' && b[8..10] == d;
    assert c[..10] == b && c[10] == sep && c[11..13] == h && c[13] == ':' && c[14..16] == mi;
    assert s[..16] == c && s[16] == ':' && s[17..19] == se;
    SliceOfPrefix(s, c, 0, 4);
    SliceOfPrefix(s, c, 5, 7);
    SliceOfPrefix(s, c, 8, 10);
    SliceOfPrefix(s, c, 11, 13);
    SliceOfPrefix(s, c, 14, 16);
    SliceOfPrefix(c, b, 0, 4);
    SliceOfPrefix(c, b, 5, 7);
    SliceOfPrefix(c, b, 8, 10);
    SliceOfPrefix(b, a, 0, 4);
    SliceOfPrefix(b, a, 5, 7);
  }

  lemma SliceOfPrefix(s: string, p: string, i: nat, j: nat)
    requires |p| <= |s| && s[..|p|] == p && i <= j <= |p|
    ensures s[i..j] == p[i..j] && (forall k :: 0 <= k < |p| ==> s[k] == p[k])
  {
    assert forall k :: 0 <= k < |p| ==> s[k] == s[..|p|][k];
  }

  /** The fractional hour determines the hour and the minute it came from. */
  lemma FractionalHourInjective(h1: int, m1: int, h2: int, m2: int)
    requires 0 <= h1 < 24 && 0 <= m1 < 60 && 0 <= h2 < 24 && 0 <= m2 < 60
    ensures FractionalHour(h1, m1) == FractionalHour(h2, m2) <==> h1 == h2 && m1 == m2
  {
    if FractionalHour(h1, m1) == FractionalHour(h2, m2) {
      assert (60 * h1 + m1) as real == 60.0 * FractionalHour(h1, m1);
      assert (60 * h2 + m2) as real == 60.0 * FractionalHour(h2, m2);
      assert 60 * h1 + m1 == 60 * h2 + m2;
    }
  }
}
