/**
 * Validation of migration file names: a name is a migration when it begins with a
 * calendrically valid `YYYY-MM-DDThhmmss` stamp. Only the first 17 characters matter.
 */
module Timestamp {
  import opened Text

  /** The shape of a stamp: `0` stands for any ASCII digit, other characters are literal. */
  const Template: string := "0000-00-00T000000"

  const StampLength: nat := 17

  predicate MatchesTemplate(name: string)
    requires |name| >= StampLength
  {
    forall i :: 0 <= i < StampLength ==>
      if Template[i] == '0' then IsAsciiDigit(name[i]) else name[i] == Template[i]
  }

  predicate AllDigits(s: string) {
    forall i :: 0 <= i < |s| ==> IsAsciiDigit(s[i])
  }

  /** Python's `int` on a run of ASCII digits (leading zeros allowed). */
  function DigitsValue(s: string): nat
    requires AllDigits(s)
  {
    if s == [] then 0 else DigitsValue(s[..|s| - 1]) * 10 + (s[|s| - 1] as int - '0' as int)
  }

  predicate IsLeapYear(year: int) {
    (year % 4 == 0 && year % 100 != 0) || year % 400 == 0
  }

  function DaysInMonth(year: int, month: int): int
    requires 1 <= month <= 12
  {
    if month == 2 then (if IsLeapYear(year) then 29 else 28)
    else if month == 4 || month == 6 || month == 9 || month == 11 then 30
    else 31
  }

  /** What Python's `datetime.date(year, month, day)` accepts (proleptic Gregorian, years 1..9999). */
  predicate IsCalendarDate(year: int, month: int, day: int) {
    1 <= year <= 9999 && 1 <= month <= 12 && 1 <= day <= DaysInMonth(year, month)
  }

  /** The chain of checks of `has_valid_timestamp`, in the source's order. */
  predicate HasValidTimestamp(filename: string) {
    && |filename| >= StampLength
    && MatchesTemplate(filename)
    && var year := DigitsValue(filename[0..4]);
       var month := DigitsValue(filename[5..7]);
       var day := DigitsValue(filename[8..10]);
       var hour := DigitsValue(filename[11..13]);
       var minute := DigitsValue(filename[13..15]);
       var second := DigitsValue(filename[15..17]);
       && 1 <= month <= 12
       && 1 <= day <= 31
       && hour <= 23
       && minute <= 59
       && second <= 59
       && IsCalendarDate(year, month, day)
  }

  // ---------------------------------------------------------------------------
  // An independent description: the stamps of valid calendar instants, printed.

  datatype Stamp = Stamp(year: nat, month: nat, day: nat, hour: nat, minute: nat, second: nat)

  predicate ValidStamp(st: Stamp) {
    && IsCalendarDate(st.year, st.month, st.day)
    && st.hour <= 23 && st.minute <= 59 && st.second <= 59
  }

  function Pow10(n: nat): nat {
    if n == 0 then 1 else 10 * Pow10(n - 1)
  }

  /** `n` printed zero-padded to exactly `width` digits. */
  function Digits(n: nat, width: nat): (r: string)
    requires n < Pow10(width)
    ensures |r| == width && AllDigits(r)
  {
    if width == 0 then [] else Digits(n / 10, width - 1) + [('0' as int + n % 10) as char]
  }

  predicate Printable(st: Stamp) {
    st.year < 10000 && st.month < 100 && st.day < 100 && st.hour < 100 && st.minute < 100 && st.second < 100
  }

  function Format(st: Stamp): (r: string)
    requires Printable(st)
    ensures |r| == StampLength
  {
    Digits(st.year, 4) + "-" + Digits(st.month, 2) + "-" + Digits(st.day, 2) + "T"
      + Digits(st.hour, 2) + Digits(st.minute, 2) + Digits(st.second, 2)
  }

  lemma {:induction false} DigitsRoundTrip(n: nat, width: nat)
    requires n < Pow10(width)
    ensures DigitsValue(Digits(n, width)) == n
  {
    if width > 0 {
      DigitsRoundTrip(n / 10, width - 1);
      var r := Digits(n, width);
      assert r[..|r| - 1] == Digits(n / 10, width - 1);
    }
  }

  lemma {:induction false} ValueRoundTrip(s: string)
    requires AllDigits(s)
    ensures DigitsValue(s) < Pow10(|s|)
    ensures Digits(DigitsValue(s), |s|) == s
  {
    if s != [] {
      var init := s[..|s| - 1];
      ValueRoundTrip(init);
      var v := DigitsValue(init);
      var d := s[|s| - 1] as int - '0' as int;
      assert (v * 10 + d) / 10 == v && (v * 10 + d) % 10 == d;
      assert s == init + [s[|s| - 1]];
    }
  }

  /** Where each field and separator sits in a printed stamp. */
  lemma FormatSlices(st: Stamp)
    requires Printable(st)
    ensures var f := Format(st);
      && f[0..4] == Digits(st.year, 4) && f[4] == '-' && f[5..7] == Digits(st.month, 2) && f[7] == '-'
      && f[8..10] == Digits(st.day, 2) && f[10] == 'T' && f[11..13] == Digits(st.hour, 2)
      && f[13..15] == Digits(st.minute, 2) && f[15..17] == Digits(st.second, 2)
  {
  }

  /** Two 17-character strings that agree field by field and separator by separator are equal. */
  lemma SameBySlices(f: string, n: string)
    requires |f| == StampLength && |n| == StampLength
    requires f[0..4] == n[0..4] && f[4] == n[4] && f[5..7] == n[5..7] && f[7] == n[7]
    requires f[8..10] == n[8..10] && f[10] == n[10] && f[11..13] == n[11..13]
    requires f[13..15] == n[13..15] && f[15..17] == n[15..17]
    ensures f == n
  {
    forall i | 0 <= i < StampLength ensures f[i] == n[i] {
      if i < 4 { assert f[i] == f[0..4][i]; }
      else if 5 <= i < 7 { assert f[i] == f[5..7][i - 5]; }
      else if 8 <= i < 10 { assert f[i] == f[8..10][i - 8]; }
      else if 11 <= i < 13 { assert f[i] == f[11..13][i - 11]; }
      else if 13 <= i < 15 { assert f[i] == f[13..15][i - 13]; }
      else if 15 <= i < 17 { assert f[i] == f[15..17][i - 15]; }
    }
  }

  /** The printed stamp has the template's shape and reads back as the same fields. */
  lemma FormatParses(st: Stamp)
    requires Printable(st)
    ensures MatchesTemplate(Format(st))
    ensures var f := Format(st);
      && DigitsValue(f[0..4]) == st.year && DigitsValue(f[5..7]) == st.month
      && DigitsValue(f[8..10]) == st.day && DigitsValue(f[11..13]) == st.hour
      && DigitsValue(f[13..15]) == st.minute && DigitsValue(f[15..17]) == st.second
  {
    var f := Format(st);
    FormatSlices(st);
    DigitsRoundTrip(st.year, 4);
    DigitsRoundTrip(st.month, 2);
    DigitsRoundTrip(st.day, 2);
    DigitsRoundTrip(st.hour, 2);
    DigitsRoundTrip(st.minute, 2);
    DigitsRoundTrip(st.second, 2);
    forall i | 0 <= i < StampLength
      ensures if Template[i] == '0' then IsAsciiDigit(f[i]) else f[i] == Template[i]
    {
      if i < 4 { assert f[i] == f[0..4][i]; }
      else if 5 <= i < 7 { assert f[i] == f[5..7][i - 5]; }
      else if 8 <= i < 10 { assert f[i] == f[8..10][i - 8]; }
      else if 11 <= i < 13 { assert f[i] == f[11..13][i - 11]; }
      else if 13 <= i < 15 { assert f[i] == f[13..15][i - 13]; }
      else if 15 <= i < 17 { assert f[i] == f[15..17][i - 15]; }
    }
  }

  /** The stamp a template-shaped name denotes. */
  function ParseStamp(name: string): (st: Stamp)
    requires |name| >= StampLength && MatchesTemplate(name)
  {
    assert AllDigits(name[0..4]) && AllDigits(name[5..7]) && AllDigits(name[8..10]);
    assert AllDigits(name[11..13]) && AllDigits(name[13..15]) && AllDigits(name[15..17]);
    Stamp(DigitsValue(name[0..4]), DigitsValue(name[5..7]), DigitsValue(name[8..10]),
          DigitsValue(name[11..13]), DigitsValue(name[13..15]), DigitsValue(name[15..17]))
  }

  /** Each field of a template-shaped name prints back as itself. */
  lemma ParsedFieldsPrint(name: string)
    requires |name| >= StampLength && MatchesTemplate(name)
    ensures var st := ParseStamp(name);
      && Printable(st)
      && Digits(st.year, 4) == name[0..4] && Digits(st.month, 2) == name[5..7]
      && Digits(st.day, 2) == name[8..10] && Digits(st.hour, 2) == name[11..13]
      && Digits(st.minute, 2) == name[13..15] && Digits(st.second, 2) == name[15..17]
  {
    assert AllDigits(name[0..4]) && AllDigits(name[5..7]) && AllDigits(name[8..10]);
    assert AllDigits(name[11..13]) && AllDigits(name[13..15]) && AllDigits(name[15..17]);
    ValueRoundTrip(name[0..4]);
    ValueRoundTrip(name[5..7]);
    ValueRoundTrip(name[8..10]);
    ValueRoundTrip(name[11..13]);
    ValueRoundTrip(name[13..15]);
    ValueRoundTrip(name[15..17]);
  }

  /** A template-shaped name is the printing of the stamp it denotes. */
  lemma ParseFormats(name: string)
    requires |name| >= StampLength && MatchesTemplate(name)
    ensures Printable(ParseStamp(name)) && Format(ParseStamp(name)) == name[..StampLength]
  {
    var st := ParseStamp(name);
    ParsedFieldsPrint(name);
    FormatSlices(st);
    var n := name[..StampLength];
    assert n[4] == '-' && n[7] == '-' && n[10] == 'T' by {
      assert Template[4] == '-' && Template[7] == '-' && Template[10] == 'T';
    }
    assert n[0..4] == name[0..4] && n[5..7] == name[5..7] && n[8..10] == name[8..10];
    assert n[11..13] == name[11..13] && n[13..15] == name[13..15] && n[15..17] == name[15..17];
    SameBySlices(Format(st), n);
  }

  /** A name is a migration exactly when its first 17 characters print a valid calendar instant. */
  lemma ValidIffPrintsValidStamp(name: string)
    ensures HasValidTimestamp(name) <==>
      |name| >= StampLength && exists st :: Printable(st) && ValidStamp(st) && Format(st) == name[..StampLength]
  {
    if HasValidTimestamp(name) {
      var st := ParseStamp(name);
      ParseFormats(name);
      assert ValidStamp(st);
    }
    if |name| >= StampLength && exists st :: Printable(st) && ValidStamp(st) && Format(st) == name[..StampLength] {
      var st :| Printable(st) && ValidStamp(st) && Format(st) == name[..StampLength];
      PrintedStampIsValid(name, st);
    }
  }

  lemma PrintedStampIsValid(name: string, st: Stamp)
    requires |name| >= StampLength && Printable(st) && ValidStamp(st) && Format(st) == name[..StampLength]
    ensures HasValidTimestamp(name)
  {
    FormatParses(st);
    var f := Format(st);
    assert forall i :: 0 <= i < StampLength ==> name[i] == f[i];
    assert name[0..4] == f[0..4] && name[5..7] == f[5..7] && name[8..10] == f[8..10];
    assert name[11..13] == f[11..13] && name[13..15] == f[13..15] && name[15..17] == f[15..17];
  }

  /** Only the first 17 characters are consulted: any suffix is ignored. */
  lemma SuffixIgnored(name: string, suffix: string)
    requires |name| >= StampLength
    ensures HasValidTimestamp(name + suffix) == HasValidTimestamp(name)
  {
    var n := name + suffix;
    assert n[0..4] == name[0..4] && n[5..7] == name[5..7] && n[8..10] == name[8..10];
    assert n[11..13] == name[11..13] && n[13..15] == name[13..15] && n[15..17] == name[15..17];
    assert forall i :: 0 <= i < StampLength ==> n[i] == name[i];
  }

  /** Names shorter than a stamp are never migrations. */
  lemma ShortNamesInvalid(name: string)
    requires |name| < StampLength
    ensures !HasValidTimestamp(name)
  {
  }

  /** A migration's name has '-' at positions 4 and 7, 'T' at 10 and digits elsewhere in 0..16. */
  lemma ValidHasTemplateShape(name: string)
    requires HasValidTimestamp(name)
    ensures name[4] == '-' && name[7] == '-' && name[10] == 'T'
    ensures forall i :: 0 <= i < StampLength && i != 4 && i != 7 && i != 10 ==> IsAsciiDigit(name[i])
  {
    assert Template[4] == '-' && Template[7] == '-' && Template[10] == 'T';
    assert forall i :: 0 <= i < StampLength && i != 4 && i != 7 && i != 10 ==> Template[i] == '0';
  }

  /** 29 February of a year is a migration date exactly when the year is a leap year (and not year 0). */
  lemma LeapDay(year: nat, hour: nat, minute: nat, second: nat)
    requires year < 10000 && hour <= 23 && minute <= 59 && second <= 59
    ensures var f := Format(Stamp(year, 2, 29, hour, minute, second));
      HasValidTimestamp(f) <==> year >= 1 && IsLeapYear(year)
  {
    var st := Stamp(year, 2, 29, hour, minute, second);
    FormatParses(st);
  }

  /** Every field range the source checks is enforced. */
  lemma ValidFieldsInRange(name: string)
    requires HasValidTimestamp(name)
    ensures var st := ParseStamp(name);
      && 1 <= st.year && 1 <= st.month <= 12 && 1 <= st.day <= DaysInMonth(st.year, st.month)
      && st.hour <= 23 && st.minute <= 59 && st.second <= 59
  {
  }
}
