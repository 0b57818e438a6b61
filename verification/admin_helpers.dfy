/** The two pure helpers of the administrator dashboard
    (`pages/AdminDashboard.tsx`): `formatTime`, which shows a number of
    seconds as hours, minutes and seconds, and `calculateAge`, which reads
    a birth date out of a national identity number and returns the
    holder's age on a given day. The clock reading "today" is a
    parameter; the source reads the clock twice and the model treats both
    readings as the same day. */
module AdminHelpers {
  import opened Wrappers
  import opened Text
  import opened Calendar

  // ---------------------------------------------------------------- formatTime

  /** `String(n).padStart(2, '0')`. */
  function TwoDigits(n: nat): string {
    PadStart(NatToDecimal(n), 2, '0')
  }

  /** r reads as "H:MM:SS" for n seconds: a colon six and three places
      from the end, digits in between, minutes and seconds below 60, and
      the three fields worth n seconds together. */
  predicate ClockShape(r: string, n: nat) {
    && |r| >= 8
    && var k := |r| - 6;
    && r[k] == ':' && r[k + 3] == ':'
    && AllDigits(r[..k]) && AllDigits(r[k + 1..k + 3]) && AllDigits(r[k + 4..])
    && DigitsValue(r[k + 1..k + 3]) < 60 && DigitsValue(r[k + 4..]) < 60
    && DigitsValue(r[..k]) * 3600 + DigitsValue(r[k + 1..k + 3]) * 60 + DigitsValue(r[k + 4..]) == n
  }

  /** `formatTime`: hours (never cut short), then minutes and seconds of
      exactly two digits, separated by colons. Read back, the three fields
      give n again, and minutes and seconds are below 60. */
  function FormatTime(n: nat): (r: string)
    ensures ClockShape(r, n)
  {
    var h, m, s := n / 3600, (n % 3600) / 60, n % 60;
    var r := TwoDigits(h) + ":" + TwoDigits(m) + ":" + TwoDigits(s);
    FormatTimeFields(n, r);
    r
  }

  lemma FormatTimeFields(n: nat, r: string)
    requires r == TwoDigits(n / 3600) + ":" + TwoDigits((n % 3600) / 60) + ":" + TwoDigits(n % 60)
    ensures ClockShape(r, n)
  {
    var h, m, s := n / 3600, (n % 3600) / 60, n % 60;
    ClockSplit(n);
    TwoDigitField(m);
    TwoDigitField(s);
    PaddedDecimalValue(h, 2);
    ClockFields(TwoDigits(h), TwoDigits(m), TwoDigits(s), h, m, s, n);
  }

  /** Three digit fields joined by colons, read back. */
  lemma ClockFields(a: string, b: string, c: string, h: nat, m: nat, s: nat, n: nat)
    requires |a| >= 2 && |b| == 2 && |c| == 2 && AllDigits(a) && AllDigits(b) && AllDigits(c)
    requires DigitsValue(a) == h && DigitsValue(b) == m && DigitsValue(c) == s
    requires m < 60 && s < 60 && h * 3600 + m * 60 + s == n
    ensures ClockShape(a + ":" + b + ":" + c, n)
  {
    ColonFields(a, b, c);
  }

  lemma TwoDigitField(n: nat)
    requires n < 60
    ensures |TwoDigits(n)| == 2 && AllDigits(TwoDigits(n)) && DigitsValue(TwoDigits(n)) == n
  {
    assert Pow10(2) == 100;
    FixedWidthDecimal(n, 2);
  }

  lemma ColonFields(a: string, b: string, c: string)
    requires |a| >= 2 && |b| == 2 && |c| == 2
    ensures var r := a + ":" + b + ":" + c; var k := |r| - 6;
      && |r| >= 8 && r[k] == ':' && r[k + 3] == ':'
      && r[..k] == a && r[k + 1..k + 3] == b && r[k + 4..] == c
  {
  }

  lemma ClockSplit(n: nat)
    ensures (n % 3600) / 60 < 60
    ensures (n / 3600) * 3600 + ((n % 3600) / 60) * 60 + n % 60 == n
  {
    var q, r := n / 3600, n % 3600;
    assert n == q * 3600 + r;
    assert r == (r / 60) * 60 + r % 60;
    assert n == (q * 60 + r / 60) * 60 + r % 60;
    assert n % 60 == r % 60;
  }

  /** Reads "H:MM:SS" (hours of any length) back into a number of seconds;
      anything else is rejected. */
  function ParseTime(t: string): (r: Option<nat>)
    ensures r.Some? ==> |t| >= 8
  {
    if |t| < 8 then None
    else
      var k := |t| - 6;
      var h, m, s := t[..k], t[k + 1..k + 3], t[k + 4..];
      if t[k] == ':' && t[k + 3] == ':' && AllDigits(h) && AllDigits(m) && AllDigits(s)
         && DigitsValue(m) < 60 && DigitsValue(s) < 60
      then Some(DigitsValue(h) * 3600 + DigitsValue(m) * 60 + DigitsValue(s))
      else None
  }

  /** Reading a formatted duration gives back the number of seconds, so
      different durations are never shown alike. */
  lemma FormatTimeRoundTrip(n: nat)
    ensures ParseTime(FormatTime(n)) == Some(n)
  {
    ParseClockShape(FormatTime(n), n);
  }

  /** Whatever has the shape of n seconds parses as n. */
  lemma ParseClockShape(r: string, n: nat)
    requires ClockShape(r, n)
    ensures ParseTime(r) == Some(n)
  {
  }

  lemma FormatTimeInjective(a: nat, b: nat)
    requires FormatTime(a) == FormatTime(b)
    ensures a == b
  {
    FormatTimeRoundTrip(a);
    FormatTimeRoundTrip(b);
  }

  // ---------------------------------------------------------------- calculateAge

  /** `id.replace(/[VvXx]$/, '').trim()`: one trailing letter is dropped
      only when it is the very last character, then whitespace is
      trimmed. */
  function CleanId(id: string): string {
    var stripped := if |id| > 0 && IsIdLetter(id[|id| - 1]) then id[..|id| - 1] else id;
    Trim(stripped)
  }

  predicate IsIdLetter(c: char) {
    c == 'V' || c == 'v' || c == 'X' || c == 'x'
  }

  /** `x % 100` with the sign of x, as ECMAScript's remainder has. */
  function JsRem100(x: int): int {
    if x >= 0 then x % 100 else -((-x) % 100)
  }

  /** The century rule of the nine-digit form: a two-digit year after the
      current one belongs to the 1900s, any other to the 2000s. */
  function PivotYear(yy: int, currentYear: int): int {
    (if yy > JsRem100(currentYear) then 1900 else 2000) + yy
  }

  /** `new Date(year, 0, day)` kept only when it lies in `year` itself. */
  function CheckedBirth(year: int, day: int): (r: Option<CalendarDate>)
    requires 1 <= day <= 366
    ensures r.Some? <==> (year < 0 || year > 99) && day <= DaysInYear(year)
    ensures r.Some? ==> r.value == FromDayOfYear(year, day)
  {
    var b := JanuaryDay(year, day);
    if b.year != year then None else Some(b)
  }

  /** The day field of the identity number, with 500 taken off when the
      form applies the offset that marks a woman. */
  function DayField(raw: int, femaleOffset: bool): int {
    if femaleOffset && raw > 500 then raw - 500 else raw
  }

  /** The twelve-digit form: four-digit year, three-digit day field. */
  function NewFormBirth(c: string, newFormOffset: bool): (r: Option<CalendarDate>)
    requires |c| == 12 && AllDigits(c)
    ensures r.Some? ==> Valid(r.value)
    ensures r.Some? ==>
      && r.value.year == DigitsValue(c[..4])
      && DayOfYear(r.value) == DayField(DigitsValue(c[4..7]), newFormOffset)
  {
    var day := DayField(DigitsValue(c[4..7]), newFormOffset);
    if day < 1 || day > 366 then None else CheckedBirth(DigitsValue(c[..4]), day)
  }

  /** The nine-digit form: two-digit year placed by the century rule,
      three-digit day field with the women's offset removed. */
  function OldFormBirth(c: string, currentYear: int): (r: Option<CalendarDate>)
    requires |c| == 9 && AllDigits(c)
    ensures r.Some? ==> Valid(r.value)
    ensures r.Some? ==>
      && r.value.year == PivotYear(DigitsValue(c[..2]), currentYear)
      && DayOfYear(r.value) == DayField(DigitsValue(c[2..5]), true)
  {
    var day := DayField(DigitsValue(c[2..5]), true);
    if day < 1 || day > 366 then None
    else CheckedBirth(PivotYear(DigitsValue(c[..2]), currentYear), day)
  }

  /** The birth date that `calculateAge` reads from `id`. The flag says
      whether the twelve-digit form, like the nine-digit form, removes the
      500 added for women: the source does not (`false`). */
  function BirthDateOf(id: string, currentYear: int, newFormOffset: bool): (r: Option<CalendarDate>)
    ensures r.Some? ==> Valid(r.value)
    ensures r.Some? ==> var c := CleanId(id); AllDigits(c) && (|c| == 12 || |c| == 9)
    ensures r.Some? && |CleanId(id)| == 12 ==>
      var c := CleanId(id);
      && r.value.year == DigitsValue(c[..4])
      && DayOfYear(r.value) == DayField(DigitsValue(c[4..7]), newFormOffset)
    ensures r.Some? && |CleanId(id)| == 9 ==>
      var c := CleanId(id);
      && r.value.year == PivotYear(DigitsValue(c[..2]), currentYear)
      && DayOfYear(r.value) == DayField(DigitsValue(c[2..5]), true)
  {
    if id == [] then None
    else
      var c := CleanId(id);
      if |c| == 12 && AllDigits(c) then NewFormBirth(c, newFormOffset)
      else if |c| == 9 && AllDigits(c) then OldFormBirth(c, currentYear)
      else None
  }

  /** The age from a birth date, or none when the birth date lies after
      `today`. */
  function AgeOn(birth: Option<CalendarDate>, today: CalendarDate): (r: Option<nat>)
    ensures r.Some? <==> birth.Some? && NotAfter(birth.value, today)
    ensures r.Some? ==>
      && NotAfter(Anniversary(birth.value, birth.value.year + r.value), today)
      && !NotAfter(Anniversary(birth.value, birth.value.year + r.value + 1), today)
  {
    match birth
    case None => None
    case Some(b) =>
      AgeNegativeIffFuture(b, today);
      AgeIsCompletedYears(b, today);
      var a := AgeYears(b, today);
      if a >= 0 then Some(a) else None
  }

  /** `calculateAge` as written: the number of birthdays the holder has
      had by `today`, or none when the number is malformed, names a day
      that does not exist, or lies in the future. */
  function CalculateAge(id: string, today: CalendarDate): (r: Option<nat>)
    ensures r.Some? ==> var c := CleanId(id); AllDigits(c) && (|c| == 12 || |c| == 9)
    ensures r.Some? <==> BirthDateOf(id, today.year, false).Some? && NotAfter(BirthDateOf(id, today.year, false).value, today)
    ensures r.Some? ==>
      var b := BirthDateOf(id, today.year, false).value;
      && NotAfter(Anniversary(b, b.year + r.value), today)
      && !NotAfter(Anniversary(b, b.year + r.value + 1), today)
  {
    AgeOn(BirthDateOf(id, today.year, false), today)
  }

  /** `calculateAge` with the twelve-digit form reading women's numbers
      the way the nine-digit form does. */
  function CalculateAgeCorrected(id: string, today: CalendarDate): (r: Option<nat>)
    ensures r.Some? ==> var c := CleanId(id); AllDigits(c) && (|c| == 12 || |c| == 9)
    ensures r.Some? <==> BirthDateOf(id, today.year, true).Some? && NotAfter(BirthDateOf(id, today.year, true).value, today)
    ensures r.Some? ==>
      var b := BirthDateOf(id, today.year, true).value;
      && NotAfter(Anniversary(b, b.year + r.value), today)
      && !NotAfter(Anniversary(b, b.year + r.value + 1), today)
  {
    AgeOn(BirthDateOf(id, today.year, true), today)
  }
}
