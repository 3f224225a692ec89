/** Calendar dates and `calculateAge`. A date of birth arrives as the string an
    HTML date input produces, `YYYY-MM-DD`; "today" is supplied by the caller. */
module Dates {
  import opened Wrappers

  /** A calendar date in the proleptic Gregorian calendar; `month` runs 1..12
      (JavaScript's `getMonth` is 0-based, which shifts both operands of every
      comparison alike and so changes nothing here). */
  datatype Date = Date(year: int, month: int, day: int)

  predicate IsLeapYear(y: int)
  {
    y % 4 == 0 && (y % 100 != 0 || y % 400 == 0)
  }

  function DaysInMonth(y: int, m: int): (n: int)
    requires 1 <= m <= 12
  {
    if m == 2 then (if IsLeapYear(y) then 29 else 28)
    else if m == 4 || m == 6 || m == 9 || m == 11 then 30
    else 31
  }

  /** A date that names an existing calendar day. */
  predicate ValidDate(d: Date)
  {
    1 <= d.month <= 12 && 1 <= d.day <= DaysInMonth(d.year, d.month)
  }

  // ---------------------------------------------------------------------
  // Decimal digit fields

  function Pow10(n: nat): (p: nat)
    ensures p >= 1
  {
    if n == 0 then 1 else 10 * Pow10(n - 1)
  }

  predicate IsDigit(c: char)
  {
    '0' <= c <= '9'
  }

  predicate AllDigits(s: string)
  {
    forall k | 0 <= k < |s| :: IsDigit(s[k])
  }

  /** The value of a string of decimal digits; it always fits in `|s|` digits. */
  function DigitsValue(s: string): (v: nat)
    requires AllDigits(s)
    ensures v < Pow10(|s|)
  {
    if s == [] then 0
    else DigitsValue(s[..|s| - 1]) * 10 + (s[|s| - 1] as int - '0' as int)
  }

  /** A non-empty field of decimal digits, or `None`. */
  function ParseDigits(s: string): (r: Option<nat>)
  {
    if |s| > 0 && AllDigits(s) then Some(DigitsValue(s)) else None
  }

  /** `n` written with exactly `width` digits, zero-padded on the left. */
  function FormatDigits(n: nat, width: nat): (s: string)
    ensures |s| == width && AllDigits(s)
  {
    if width == 0 then []
    else FormatDigits(n / 10, width - 1) + [('0' as int + n % 10) as char]
  }

  lemma {:induction false} DigitsRoundTrip(n: nat, width: nat)
    requires n < Pow10(width)
    ensures DigitsValue(FormatDigits(n, width)) == n
  {
    if width > 0 {
      var s := FormatDigits(n, width);
      var p := FormatDigits(n / 10, width - 1);
      assert s[..|s| - 1] == p;
      assert n / 10 < Pow10(width - 1);
      DigitsRoundTrip(n / 10, width - 1);
    }
  }

  lemma {:induction false} DigitsCanonical(s: string)
    requires AllDigits(s)
    ensures FormatDigits(DigitsValue(s), |s|) == s
  {
    if s != [] {
      var p := s[..|s| - 1];
      var d := s[|s| - 1] as int - '0' as int;
      var v := DigitsValue(s);
      assert v == DigitsValue(p) * 10 + d;
      assert v / 10 == DigitsValue(p) && v % 10 == d;
      DigitsCanonical(p);
      assert s == p + [s[|s| - 1]];
    }
  }

  // ---------------------------------------------------------------------
  // The `YYYY-MM-DD` form

  /** The date an HTML date input's value denotes: four year digits, two month
      digits and two day digits separated by `-`, naming an existing day.
      Anything else (including the empty string) gives `None`, JavaScript's
      invalid date. */
  function ParseDob(s: string): (r: Option<Date>)
    ensures r.Some? ==> ValidDate(r.value) && 0 <= r.value.year <= 9999
  {
    if |s| != 10 || s[4] != '-' || s[7] != '-' then None
    else
      match (ParseDigits(s[..4]), ParseDigits(s[5..7]), ParseDigits(s[8..]))
      case (Some(y), Some(m), Some(d)) =>
        if ValidDate(Date(y, m, d)) then Some(Date(y, m, d)) else None
      case _ => None
  }

  function FormatDate(d: Date): (s: string)
    requires 0 <= d.year <= 9999 && 1 <= d.month <= 12 && 1 <= d.day <= 31
    ensures |s| == 10
  {
    FormatDigits(d.year, 4) + "-" + FormatDigits(d.month, 2) + "-" + FormatDigits(d.day, 2)
  }

  /** Every valid four-digit-year date is read back from its `YYYY-MM-DD` form. */
  lemma ParseFormatDate(d: Date)
    requires ValidDate(d) && 0 <= d.year <= 9999
    ensures ParseDob(FormatDate(d)) == Some(d)
  {
    var s := FormatDate(d);
    assert s[..4] == FormatDigits(d.year, 4);
    assert s[5..7] == FormatDigits(d.month, 2);
    assert s[8..] == FormatDigits(d.day, 2);
    assert Pow10(4) == 10000 && Pow10(2) == 100;
    DigitsRoundTrip(d.year, 4);
    DigitsRoundTrip(d.month, 2);
    DigitsRoundTrip(d.day, 2);
  }

  /** Conversely, a string that parses is exactly the `YYYY-MM-DD` form of its date. */
  lemma FormatParseDate(s: string)
    requires ParseDob(s).Some?
    ensures FormatDate(ParseDob(s).value) == s
  {
    DigitsCanonical(s[..4]);
    DigitsCanonical(s[5..7]);
    DigitsCanonical(s[8..]);
    assert s == s[..4] + "-" + s[5..7] + "-" + s[8..];
  }

  // ---------------------------------------------------------------------
  // Age

  /** `calculateAge`'s arithmetic: the difference of the years, one less when
      this year's birthday (month, then day) is still ahead. */
  function Age(birth: Date, today: Date): (age: int)
  {
    var age := today.year - birth.year;
    var monthDiff := today.month - birth.month;
    if monthDiff < 0 || (monthDiff == 0 && today.day < birth.day) then age - 1 else age
  }

  /** `calculateAge`: no age (JavaScript `null`) for a date that does not parse,
      otherwise the whole years between the birth date and today. */
  function CalculateAge(dob: string, today: Date): (r: Option<int>)
    ensures r.None? <==> ParseDob(dob).None?
    ensures r.Some? ==> r.value == Age(ParseDob(dob).value, today)
  {
    match ParseDob(dob)
    case None => None
    case Some(birth) => Some(Age(birth, today))
  }

  /** Lexicographic order on (year, month, day). */
  predicate OnOrBefore(x: Date, y: Date)
  {
    x.year < y.year ||
    (x.year == y.year && (x.month < y.month || (x.month == y.month && x.day <= y.day)))
  }

  /** The `n`-th anniversary of a date: same month and day, `n` years later. */
  function Anniversary(birth: Date, n: int): (a: Date)
  {
    Date(birth.year + n, birth.month, birth.day)
  }

  /** The age is the number of completed years: its anniversary has been
      reached by today and the next one has not. */
  lemma AgeIsCompletedYears(birth: Date, today: Date)
    ensures OnOrBefore(Anniversary(birth, Age(birth, today)), today)
    ensures !OnOrBefore(Anniversary(birth, Age(birth, today) + 1), today)
  {
  }

  /** Only one number of years has that property, so it determines the age. */
  lemma CompletedYearsDetermineAge(birth: Date, today: Date, n: int)
    requires OnOrBefore(Anniversary(birth, n), today)
    requires !OnOrBefore(Anniversary(birth, n + 1), today)
    ensures n == Age(birth, today)
  {
  }

  /** Age never decreases as today moves forward. */
  lemma AgeMonotone(birth: Date, t1: Date, t2: Date)
    requires OnOrBefore(t1, t2)
    ensures Age(birth, t1) <= Age(birth, t2)
  {
  }

  /** Born `n` years ago today gives `n`; born `n` years ago on a month and
      day still ahead this year gives `n - 1`. */
  lemma AgeOnAndBeforeBirthday(birth: Date, today: Date, n: int)
    requires birth.year == today.year - n
    ensures (birth.month, birth.day) == (today.month, today.day) ==> Age(birth, today) == n
    ensures !OnOrBefore(Date(0, birth.month, birth.day), Date(0, today.month, today.day)) ==>
              Age(birth, today) == n - 1
  {
  }

  // ---------------------------------------------------------------------
  // The date of birth as `calculateAge` actually reads it

  /** The calendar day before `d`. */
  function PrevDay(d: Date): (p: Date)
    requires ValidDate(d)
    ensures ValidDate(p) && OnOrBefore(p, d) && p != d
    ensures forall x | ValidDate(x) && OnOrBefore(x, d) && x != d :: OnOrBefore(x, p)
  {
    if d.day > 1 then Date(d.year, d.month, d.day - 1)
    else if d.month > 1 then Date(d.year, d.month - 1, DaysInMonth(d.year, d.month - 1))
    else Date(d.year - 1, 12, 31)
  }

  /** `new Date("YYYY-MM-DD")` is midnight UTC, while `getFullYear`,
      `getMonth` and `getDate` read local time. With a local offset between
      UTC-12:00 and UTC+14:00, that instant falls on the previous evening
      west of UTC and on the same day otherwise. */
  function LocalBirthDate(birth: Date, utcOffsetMinutes: int): (local: Date)
    requires ValidDate(birth) && -720 <= utcOffsetMinutes <= 840
  {
    if utcOffsetMinutes < 0 then PrevDay(birth) else birth
  }

  /** `calculateAge` as the code computes it in a browser whose local time
      is `utcOffsetMinutes` away from UTC. */
  function CalculateAgeAsWritten(dob: string, today: Date, utcOffsetMinutes: int): (r: Option<int>)
    requires -720 <= utcOffsetMinutes <= 840
    ensures r.None? <==> ParseDob(dob).None?
    ensures r.Some? ==> r.value == Age(LocalBirthDate(ParseDob(dob).value, utcOffsetMinutes), today)
  {
    match ParseDob(dob)
    case None => None
    case Some(birth) => Some(Age(LocalBirthDate(birth, utcOffsetMinutes), today))
  }

  /** At UTC and east of it the code computes the intended age. */
  lemma AsWrittenAgreesEastOfUtc(dob: string, today: Date, utcOffsetMinutes: int)
    requires 0 <= utcOffsetMinutes <= 840
    ensures CalculateAgeAsWritten(dob, today, utcOffsetMinutes) == CalculateAge(dob, today)
  {
  }

  /** West of UTC the code reads the birth date one day early, so the age
      goes up a day before the birthday: born 2008-10-15, on 2026-10-14 in a
      UTC-05:00 browser the code gives 18 where the completed years are 17. */
  lemma AsWrittenAgesEarlyWestOfUtc()
    ensures CalculateAgeAsWritten("2008-10-15", Date(2026, 10, 14), -300) == Some(18)
    ensures CalculateAge("2008-10-15", Date(2026, 10, 14)) == Some(17)
  {
    var birth := Date(2008, 10, 15);
    ParseFormatDate(birth);
    assert FormatDate(birth) == "2008-10-15" by {
      assert FormatDigits(2008, 4) == "2008";
      assert FormatDigits(10, 2) == "10";
      assert FormatDigits(15, 2) == "15";
    }
  }

  /** West of UTC, on the day before the `n`-th birthday (in any month, from
      the 2nd day on), the code already gives `n`; the completed years are `n - 1`. */
  lemma AsWrittenAgeOnEveOfBirthday(birth: Date, n: int, utcOffsetMinutes: int)
    requires ValidDate(birth) && birth.day > 1 && -720 <= utcOffsetMinutes < 0
    ensures Age(LocalBirthDate(birth, utcOffsetMinutes), Date(birth.year + n, birth.month, birth.day - 1)) == n
    ensures Age(birth, Date(birth.year + n, birth.month, birth.day - 1)) == n - 1
  {
  }
}
