/** The two forms of the national identity number that `calculateAge`
    (`pages/AdminDashboard.tsx`) reads, written out from their fields, and
    what the age calculation makes of each: the old nine-digit form with
    its trailing letter, and the new twelve-digit form. */
module IdNumbers {
  import opened Wrappers
  import opened Text
  import opened Calendar
  import opened AdminHelpers

  /** `String(n).padStart(width, '0')`. */
  function Field(n: nat, width: nat): string {
    PadStart(NatToDecimal(n), width, '0')
  }

  /** A twelve-digit number: four-digit year, three-digit day field,
      five-digit serial. */
  function NewFormId(year: nat, dayField: nat, serial: nat): string {
    Field(year, 4) + Field(dayField, 3) + Field(serial, 5)
  }

  /** A nine-digit number with its trailing letter: two-digit year, day of
      the year (plus 500 for a woman), four-digit serial, then "V". */
  function OldFormId(yy: nat, day: nat, serial: nat, female: bool): string {
    Field(yy, 2) + Field(if female then day + 500 else day, 3) + Field(serial, 4) + "V"
  }

  lemma DecodeNewForm(year: nat, dayField: nat, serial: nat)
    requires year < 10000 && dayField < 1000 && serial < 100000
    ensures CleanId(NewFormId(year, dayField, serial)) == NewFormId(year, dayField, serial)
    ensures |NewFormId(year, dayField, serial)| == 12 && AllDigits(NewFormId(year, dayField, serial))
    ensures DigitsValue(NewFormId(year, dayField, serial)[..4]) == year
    ensures DigitsValue(NewFormId(year, dayField, serial)[4..7]) == dayField
  {
    assert Pow10(4) == 10000;
    FixedWidthDecimal(year, 4);
    assert Pow10(3) == 1000;
    FixedWidthDecimal(dayField, 3);
    assert Pow10(5) == 100000;
    FixedWidthDecimal(serial, 5);
    var a, b, c := Field(year, 4), Field(dayField, 3), Field(serial, 5);
    DecodeFields(a, b, c);
    assert NewFormId(year, dayField, serial) == a + b + c;
  }

  /** Three digit fields written one after the other are read back field
      by field. */
  lemma DecodeFields(a: string, b: string, c: string)
    requires AllDigits(a) && AllDigits(b) && AllDigits(c) && c != []
    ensures var id := a + b + c;
      && |id| == |a| + |b| + |c| && AllDigits(id) && CleanId(id) == id
      && DigitsValue(id[..|a|]) == DigitsValue(a)
      && DigitsValue(id[|a|..|a| + |b|]) == DigitsValue(b)
  {
    SplitDigits(a, b, c);
  }

  /** A string of three digit fields, cut back into its fields. */
  lemma SplitDigits(a: string, b: string, c: string)
    requires AllDigits(a) && AllDigits(b) && AllDigits(c) && c != []
    ensures var id := a + b + c;
      && AllDigits(id) && CleanId(id) == id
      && id[..|a|] == a && id[|a|..|a| + |b|] == b
  {
    DigitsConcat(a, b);
    DigitsConcat(a + b, c);
    CleanDigits(a + b + c);
    FieldSlices(a, b, c);
  }

  lemma FieldSlices(a: string, b: string, c: string)
    ensures (a + b + c)[..|a|] == a && (a + b + c)[|a|..|a| + |b|] == b
  {
  }

  /** A digit string has no letter to drop and nothing to trim. */
  lemma CleanDigits(id: string)
    requires AllDigits(id) && id != []
    ensures CleanId(id) == id
  {
    var last := id[|id| - 1];
    assert IsDigit(last);
    assert !IsIdLetter(last);
    DigitsTrimmed(id);
  }

  lemma DecodeOldForm(yy: nat, dayField: nat, serial: nat)
    requires yy < 100 && dayField < 1000 && serial < 10000
    ensures var id := Field(yy, 2) + Field(dayField, 3) + Field(serial, 4) + "V";
      var c := CleanId(id);
      && c == id[..9] && AllDigits(c)
      && DigitsValue(c[..2]) == yy && DigitsValue(c[2..5]) == dayField
  {
    assert Pow10(2) == 100;
    FixedWidthDecimal(yy, 2);
    assert Pow10(3) == 1000;
    FixedWidthDecimal(dayField, 3);
    assert Pow10(4) == 10000;
    FixedWidthDecimal(serial, 4);
    var a, b, d := Field(yy, 2), Field(dayField, 3), Field(serial, 4);
    DecodeFields(a, b, d);
    StripLetter(a + b + d);
  }

  /** Dropping the trailing letter of a digit string followed by "V". */
  lemma StripLetter(c: string)
    requires AllDigits(c)
    ensures CleanId(c + "V") == c && (c + "V")[..|c|] == c
  {
    assert (c + "V")[..|c|] == c;
    DigitsTrimmed(c);
  }

  /** A twelve-digit number of a man, or of anyone once corrected, gives
      back the birth date it encodes (years from 100 on; earlier years are
      taken by `Date` as 1900 and later and are refused). */
  lemma NewFormRoundTrip(year: nat, day: nat, serial: nat, currentYear: int, newFormOffset: bool)
    requires 100 <= year < 10000 && 1 <= day <= DaysInYear(year) && serial < 100000
    ensures BirthDateOf(NewFormId(year, day, serial), currentYear, newFormOffset) == Some(FromDayOfYear(year, day))
  {
    var id := NewFormId(year, day, serial);
    DecodeNewForm(year, day, serial);
    TwelveDigitBirth(id, currentYear, newFormOffset);
    NewFormValue(id, newFormOffset, year, day);
    assert CheckedBirth(year, day) == Some(FromDayOfYear(year, day));
  }

  lemma NewFormValue(c: string, newFormOffset: bool, year: nat, day: nat)
    requires |c| == 12 && AllDigits(c) && 1 <= day <= 366
    requires DigitsValue(c[..4]) == year && DigitsValue(c[4..7]) == day
    ensures NewFormBirth(c, newFormOffset) == CheckedBirth(year, day)
  {
  }

  /** A number that cleans to twelve digits is read by the twelve-digit
      form. */
  lemma TwelveDigitBirth(id: string, currentYear: int, newFormOffset: bool)
    requires |CleanId(id)| == 12 && AllDigits(CleanId(id))
    ensures BirthDateOf(id, currentYear, newFormOffset) == NewFormBirth(CleanId(id), newFormOffset)
  {
    assert id != [];
  }

  /** A nine-digit number gives back the same birth date for a man and for
      a woman: the 500 added for women is taken off again. */
  lemma OldFormRoundTrip(yy: nat, day: nat, serial: nat, female: bool, currentYear: int)
    requires yy < 100 && 1 <= day <= 366 && serial < 10000
    requires day <= DaysInYear(PivotYear(yy, currentYear))
    ensures BirthDateOf(OldFormId(yy, day, serial, female), currentYear, false)
      == Some(FromDayOfYear(PivotYear(yy, currentYear), day))
  {
    var id := OldFormId(yy, day, serial, female);
    OldFormFields(yy, day, serial, female);
    var c := CleanId(id);
    var y := PivotYear(yy, currentYear);
    assert CheckedBirth(y, day) == Some(FromDayOfYear(y, day));
    OldFormValue(c, currentYear, yy, day);
    NineDigitBirth(id, currentYear, false);
  }

  lemma OldFormValue(c: string, currentYear: int, yy: nat, day: nat)
    requires |c| == 9 && AllDigits(c) && 1 <= day <= 366
    requires DigitsValue(c[..2]) == yy && DayField(DigitsValue(c[2..5]), true) == day
    ensures OldFormBirth(c, currentYear) == CheckedBirth(PivotYear(yy, currentYear), day)
  {
  }

  /** A number that cleans to nine digits is read by the nine-digit form. */
  lemma NineDigitBirth(id: string, currentYear: int, newFormOffset: bool)
    requires |CleanId(id)| == 9 && AllDigits(CleanId(id))
    ensures BirthDateOf(id, currentYear, newFormOffset) == OldFormBirth(CleanId(id), currentYear)
  {
    assert id != [];
  }

  /** The fields of a nine-digit number as `calculateAge` reads them. */
  lemma OldFormFields(yy: nat, day: nat, serial: nat, female: bool)
    requires yy < 100 && 1 <= day <= 366 && serial < 10000
    ensures var c := CleanId(OldFormId(yy, day, serial, female));
      && |c| == 9 && AllDigits(c)
      && DigitsValue(c[..2]) == yy && DayField(DigitsValue(c[2..5]), true) == day
  {
    var raw := if female then day + 500 else day;
    var id := OldFormId(yy, day, serial, female);
    assert id == Field(yy, 2) + Field(raw, 3) + Field(serial, 4) + "V";
    DecodeOldForm(yy, raw, serial);
  }

  /** The century rule places a nine-digit birth year within the hundred
      years up to the current one, for any current year of this century. */
  lemma PivotYearWindow(yy: int, currentYear: int)
    requires 0 <= yy < 100 && 2000 <= currentYear < 2100
    ensures currentYear - 100 < PivotYear(yy, currentYear) <= currentYear
  {
  }

  /** Day 366 names a real day only in a leap year: `Date` rolls it over
      into the next year, and the year check refuses it. */
  lemma Day366OnlyInLeapYears(year: nat, serial: nat, currentYear: int)
    requires 100 <= year < 10000 && serial < 100000
    ensures BirthDateOf(NewFormId(year, 366, serial), currentYear, false).Some? <==> IsLeap(year)
  {
    var id := NewFormId(year, 366, serial);
    DecodeNewForm(year, 366, serial);
    TwelveDigitBirth(id, currentYear, false);
    NewFormValue(id, false, year, 366);
  }

  /** The seeded adventurer's "9001015000V" keeps ten digits once the
      letter is dropped, so no age is shown for them. */
  lemma SeededAdventurerHasNoAge(today: CalendarDate)
    ensures CalculateAge("9001015000V", today) == None
  {
    var id := "9001015000V";
    var c := id[..10];
    assert IsIdLetter(id[10]);
    assert Trimmed(c) by { assert IsDigit(c[0]) && IsDigit(c[9]); }
    assert CleanId(id) == c;
  }

  // ---------------------------------------------------------------- the women's twelve-digit numbers

  /** As written, the twelve-digit form never takes the 500 off: a woman's
      number always has a day field above 366 and yields no age. */
  lemma NewFormWomenRefused(year: nat, day: nat, serial: nat, today: CalendarDate)
    requires year < 10000 && 1 <= day <= 366 && serial < 100000
    ensures CalculateAge(NewFormId(year, day + 500, serial), today) == None
  {
    var id := NewFormId(year, day + 500, serial);
    DecodeNewForm(year, day + 500, serial);
    assert NewFormBirth(id, false) == None;
    assert BirthDateOf(id, today.year, false) == None;
  }

  /** The concrete number 199050100000, a woman born on the first of
      January 1990, yields no age. */
  lemma NewFormWomanExample(today: CalendarDate)
    ensures CalculateAge("199050100000", today) == None
  {
    var id := "199050100000";
    ExampleFields(id);
    assert NewFormBirth(id, false) == None;
    assert BirthDateOf(id, today.year, false) == None;
  }

  lemma ExampleFields(id: string)
    requires id == "199050100000"
    ensures |id| == 12 && AllDigits(id) && CleanId(id) == id
    ensures DigitsValue(id[4..7]) == 501
  {
    assert AllDigits(id);
    CleanDigits(id);
    assert id[4..7] == "501";
    assert DigitsValue("5") == 5 by { assert "5"[..0] == []; }
    assert DigitsValue("50") == 50 by { assert "50"[..1] == "5"; }
    assert DigitsValue("501") == 501 by { assert "501"[..2] == "50"; }
  }

  /** Corrected, a woman's twelve-digit number gives the same birth date,
      and so the same age, as a man's with the same year and day. */
  lemma NewFormCorrectedGenderNeutral(year: nat, day: nat, serial: nat, today: CalendarDate)
    requires 100 <= year < 10000 && 1 <= day <= DaysInYear(year) && serial < 100000
    ensures BirthDateOf(NewFormId(year, day + 500, serial), today.year, true) == Some(FromDayOfYear(year, day))
    ensures CalculateAgeCorrected(NewFormId(year, day + 500, serial), today)
      == CalculateAgeCorrected(NewFormId(year, day, serial), today)
  {
    var id := NewFormId(year, day + 500, serial);
    var male := NewFormId(year, day, serial);
    CorrectedWomanBirth(year, day, serial, today.year);
    NewFormRoundTrip(year, day, serial, today.year, true);
    assert BirthDateOf(id, today.year, true) == BirthDateOf(male, today.year, true);
    assert CalculateAgeCorrected(id, today) == AgeOn(BirthDateOf(id, today.year, true), today);
    assert CalculateAgeCorrected(male, today) == AgeOn(BirthDateOf(male, today.year, true), today);
  }

  lemma CorrectedWomanBirth(year: nat, day: nat, serial: nat, currentYear: int)
    requires 100 <= year < 10000 && 1 <= day <= DaysInYear(year) && serial < 100000
    ensures BirthDateOf(NewFormId(year, day + 500, serial), currentYear, true) == CheckedBirth(year, day)
  {
    var id := NewFormId(year, day + 500, serial);
    DecodeNewForm(year, day + 500, serial);
    assert DayField(day + 500, true) == day;
    assert NewFormBirth(id, true) == CheckedBirth(year, day);
  }

  /** The correction changes nothing for the numbers the source already
      reads: nine-digit numbers and twelve-digit ones with a day field of
      at most 500. */
  lemma CorrectionOnlyAffectsWomen(id: string, today: CalendarDate)
    requires |CleanId(id)| != 12 || !AllDigits(CleanId(id)) || DigitsValue(CleanId(id)[4..7]) <= 500
    ensures CalculateAgeCorrected(id, today) == CalculateAge(id, today)
  {
  }
}
