/** UTC calendar dates of the admin reports. A Date is its day number, days since 1970-01-01 (ECMA-262 section 21.4.1). */
module Calendar {
  import opened Text

  datatype Civil = Civil(year: int, month: int, day: int)

  predicate IsLeap(y: int) { y % 4 == 0 && (y % 100 != 0 || y % 400 == 0) }

  /** DayFromYear of ECMA-262; Dafny's division by a positive number is its floor. */
  function DayFromYear(y: int): int {
    365 * (y - 1970) + (y - 1969) / 4 - (y - 1901) / 100 + (y - 1601) / 400
  }

  function DaysInYear(y: int): int { if IsLeap(y) then 366 else 365 }

  function DaysInMonth(y: int, month: int): int {
    if month == 2 then if IsLeap(y) then 29 else 28
    else if month == 4 || month == 6 || month == 9 || month == 11 then 30 else 31
  }

  /** Days of the year before the first of `month`, which runs from 1 to 13. */
  function DaysBeforeMonth(y: int, month: int): int
    requires 1 <= month <= 13
  {
    if month == 1 then 0 else DaysBeforeMonth(y, month - 1) + DaysInMonth(y, month - 1)
  }

  predicate ValidCivil(c: Civil) {
    1 <= c.month <= 12 && 1 <= c.day <= DaysInMonth(c.year, c.month)
  }

  function DayNumber(c: Civil): int
    requires 1 <= c.month <= 12
  {
    DayFromYear(c.year) + DaysBeforeMonth(c.year, c.month) + c.day - 1
  }

  /** Counting multiples: the quotient grows at multiples of the divisor. */
  lemma QuotientSteps(a: int)
    ensures (a + 1) / 4 == a / 4 + (if (a + 1) % 4 == 0 then 1 else 0)
    ensures (a + 1) / 100 == a / 100 + (if (a + 1) % 100 == 0 then 1 else 0)
    ensures (a + 1) / 400 == a / 400 + (if (a + 1) % 400 == 0 then 1 else 0)
  {
  }

  lemma SameMultiples(y: int)
    ensures (y - 1968) % 4 == 0 <==> y % 4 == 0
    ensures (y - 1900) % 100 == 0 <==> y % 100 == 0
    ensures (y - 1600) % 400 == 0 <==> y % 400 == 0
  {
  }

  lemma YearsAbut(y: int)
    ensures DayFromYear(y + 1) == DayFromYear(y) + DaysInYear(y)
  {
    QuotientSteps(y - 1969);
    QuotientSteps(y - 1901);
    QuotientSteps(y - 1601);
    SameMultiples(y);
    LeapByHundreds(y);
  }

  lemma LeapByHundreds(y: int)
    ensures y % 400 == 0 ==> y % 100 == 0
    ensures y % 100 == 0 ==> y % 4 == 0
  {
  }

  /** The day table of ECMA-262, section 21.4.1: days of the year before each month. */
  lemma DayTable(y: int)
    ensures var leap := if y % 4 == 0 && (y % 100 != 0 || y % 400 == 0) then 1 else 0;
            && DaysBeforeMonth(y, 1) == 0
            && DaysBeforeMonth(y, 2) == 31
            && DaysBeforeMonth(y, 3) == 59 + leap
            && DaysBeforeMonth(y, 4) == 90 + leap
            && DaysBeforeMonth(y, 5) == 120 + leap
            && DaysBeforeMonth(y, 6) == 151 + leap
            && DaysBeforeMonth(y, 7) == 181 + leap
            && DaysBeforeMonth(y, 8) == 212 + leap
            && DaysBeforeMonth(y, 9) == 243 + leap
            && DaysBeforeMonth(y, 10) == 273 + leap
            && DaysBeforeMonth(y, 11) == 304 + leap
            && DaysBeforeMonth(y, 12) == 334 + leap
  {
    var february := DaysInMonth(y, 2);
    assert DaysBeforeMonth(y, 2) == 31;
    assert DaysBeforeMonth(y, 3) == 31 + february;
    assert DaysBeforeMonth(y, 4) == 62 + february;
    assert DaysBeforeMonth(y, 5) == 92 + february;
    assert DaysBeforeMonth(y, 6) == 123 + february;
    assert DaysBeforeMonth(y, 7) == 153 + february;
    assert DaysBeforeMonth(y, 8) == 184 + february;
    assert DaysBeforeMonth(y, 9) == 215 + february;
    assert DaysBeforeMonth(y, 10) == 245 + february;
    assert DaysBeforeMonth(y, 11) == 276 + february;
  }

  lemma MonthsFillTheYear(y: int)
    ensures DaysBeforeMonth(y, 13) == DaysInYear(y)
  {
    DayTable(y);
  }

  /** YearFromTime: the year whose days include day number n, searched from y. */
  function YearOf(n: int, y: int): int
    decreases if n < DayFromYear(y) then DayFromYear(y) - n else n - DayFromYear(y)
  {
    YearsAbut(y);
    YearsAbut(y - 1);
    if n < DayFromYear(y) then if n >= DayFromYear(y - 1) then y - 1 else YearOf(n, y - 1)
    else if n >= DayFromYear(y + 1) then YearOf(n, y + 1)
    else y
  }

  lemma {:induction false} YearOfContains(n: int, y: int)
    ensures DayFromYear(YearOf(n, y)) <= n < DayFromYear(YearOf(n, y) + 1)
    decreases if n < DayFromYear(y) then DayFromYear(y) - n else n - DayFromYear(y)
  {
    hide DayFromYear, IsLeap;
    YearsAbut(y);
    YearsAbut(y - 1);
    if n < DayFromYear(y) {
      if n < DayFromYear(y - 1) {
        YearOfContains(n, y - 1);
      }
    } else if n >= DayFromYear(y + 1) {
      YearOfContains(n, y + 1);
    }
  }

  lemma {:induction false} YearsAscend(y: int, z: int)
    requires y <= z
    ensures DayFromYear(y) <= DayFromYear(z)
    decreases z - y
  {
    if y < z {
      YearsAbut(y);
      YearsAscend(y + 1, z);
    }
  }

  function MonthOf(y: int, d: int, month: int): int
    requires 1 <= month <= 12
    decreases 12 - month
  {
    if month == 12 || d < DaysBeforeMonth(y, month + 1) then month else MonthOf(y, d, month + 1)
  }

  lemma {:induction false} MonthOfContains(y: int, d: int, month: int)
    requires 1 <= month <= 12 && DaysBeforeMonth(y, month) <= d < DaysInYear(y)
    ensures var m := MonthOf(y, d, month); month <= m <= 12 && DaysBeforeMonth(y, m) <= d < DaysBeforeMonth(y, m + 1)
    decreases 12 - month
  {
    MonthsFillTheYear(y);
    if month < 12 && d >= DaysBeforeMonth(y, month + 1) {
      MonthOfContains(y, d, month + 1);
    }
  }

  lemma {:induction false} MonthsAscend(y: int, a: int, b: int)
    requires 1 <= a <= b <= 13
    ensures DaysBeforeMonth(y, a) <= DaysBeforeMonth(y, b)
    decreases b - a
  {
    if a < b {
      MonthsAscend(y, a, b - 1);
    }
  }

  /** getUTCFullYear, getUTCMonth + 1 and getUTCDate. */
  function CivilOf(n: int): Civil {
    var y := YearOf(n, 1970);
    YearOfContains(n, 1970);
    var d := n - DayFromYear(y);
    var m := MonthOf(y, d, 1);
    YearsAbut(y);
    MonthOfContains(y, d, 1);
    Civil(y, m, d - DaysBeforeMonth(y, m) + 1)
  }

  lemma CivilOfIsValid(n: int)
    ensures ValidCivil(CivilOf(n)) && DayNumber(CivilOf(n)) == n
  {
    var y := YearOf(n, 1970);
    YearOfContains(n, 1970);
    YearsAbut(y);
    MonthOfContains(y, n - DayFromYear(y), 1);
  }

  lemma DayNumberInYear(c: Civil)
    requires ValidCivil(c)
    ensures DayFromYear(c.year) <= DayNumber(c) < DayFromYear(c.year + 1)
    ensures DaysBeforeMonth(c.year, c.month) <= DayNumber(c) - DayFromYear(c.year) < DaysBeforeMonth(c.year, c.month + 1)
  {
    YearsAbut(c.year);
    MonthsFillTheYear(c.year);
    MonthsAscend(c.year, 1, c.month);
    MonthsAscend(c.year, c.month + 1, 13);
  }

  /** Valid dates and day numbers are in one-to-one correspondence. */
  lemma DayNumberIsInjective(a: Civil, b: Civil)
    requires ValidCivil(a) && ValidCivil(b) && DayNumber(a) == DayNumber(b)
    ensures a == b
  {
    DayNumberInYear(a);
    DayNumberInYear(b);
    if a.year < b.year {
      YearsAscend(a.year + 1, b.year);
    } else if b.year < a.year {
      YearsAscend(b.year + 1, a.year);
    } else if a.month < b.month {
      MonthsAscend(a.year, a.month + 1, b.month);
    } else if b.month < a.month {
      MonthsAscend(a.year, b.month + 1, a.month);
    }
  }

  lemma CivilOfDayNumber(c: Civil)
    requires ValidCivil(c)
    ensures CivilOf(DayNumber(c)) == c
  {
    CivilOfIsValid(DayNumber(c));
    DayNumberIsInjective(CivilOf(DayNumber(c)), c);
  }

  /** MakeDay with a month already in range and any date: overflowing dates run on into the next months. */
  function MakeDay(year: int, month: int, date: int): int
    requires 1 <= month <= 12
  {
    DayNumber(Civil(year, month, 1)) + date - 1
  }

  /** date.setUTCDate(k) */
  function SetUtcDate(n: int, k: int): int {
    CivilOfIsValid(n);
    MakeDay(CivilOf(n).year, CivilOf(n).month, k)
  }

  /** setUTCDate(getUTCDate() + k) moves by exactly k days, across any month or year boundary. */
  lemma SetUtcDateShifts(n: int, k: int)
    ensures SetUtcDate(n, CivilOf(n).day + k) == n + k
  {
    CivilOfIsValid(n);
  }

  predicate IsDigit(c: char) { '0' <= c <= '9' }

  function Digit(c: char): int
    requires IsDigit(c)
  {
    c as int - '0' as int
  }

  /** `^(\d{4})-(\d{2})-(\d{2})$` */
  predicate MatchesDatePattern(s: string) {
    && |s| == 10 && s[4] == '-' && s[7] == '-'
    && IsDigit(s[0]) && IsDigit(s[1]) && IsDigit(s[2]) && IsDigit(s[3])
    && IsDigit(s[5]) && IsDigit(s[6]) && IsDigit(s[8]) && IsDigit(s[9])
  }

  function WrittenDate(s: string): Civil
    requires MatchesDatePattern(s)
  {
    Civil(Digit(s[0]) * 1000 + Digit(s[1]) * 100 + Digit(s[2]) * 10 + Digit(s[3]),
          Digit(s[5]) * 10 + Digit(s[6]), Digit(s[8]) * 10 + Digit(s[9]))
  }

  /** Date.UTC: years 0 to 99 mean 1900 to 1999; months outside 1..12 carry into the year. */
  function DateUtc(c: Civil): int {
    var year := if 0 <= c.year <= 99 then 1900 + c.year else c.year;
    MakeDay(year + (c.month - 1) / 12, (c.month - 1) % 12 + 1, c.day)
  }

  /** Parsed by comparing the Date built from the written numbers with those numbers. */
  function ParseCalendarDate(s: string): Option<int> {
    if !MatchesDatePattern(s) then None
    else
      var written := WrittenDate(s);
      var n := DateUtc(written);
      if CivilOf(n) == written then Some(n) else None
  }

  /** For the years a date text can name, Date.UTC of a valid date is its day, except in the years 0 to 99. */
  lemma DateUtcOfValid(c: Civil)
    requires ValidCivil(c)
    ensures DateUtc(c) == DayNumber(if 0 <= c.year <= 99 then c.(year := 1900 + c.year) else c)
      || (0 <= c.year <= 99 && c.month == 2 && c.day == 29)
    ensures !(0 <= c.year <= 99) ==> DateUtc(c) == DayNumber(c)
  {
    hide DayFromYear, DaysBeforeMonth;
    assert (c.month - 1) / 12 == 0 && (c.month - 1) % 12 + 1 == c.month;
  }

  /** Exactly the written Gregorian dates of the years 100 to 9999 are accepted, with their day number. */
  lemma ParseAcceptsExactly(s: string)
    ensures ParseCalendarDate(s).Some? <==>
            MatchesDatePattern(s) && ValidCivil(WrittenDate(s)) && 100 <= WrittenDate(s).year <= 9999
    ensures ParseCalendarDate(s).Some? ==> ParseCalendarDate(s).value == DayNumber(WrittenDate(s))
  {
    hide DayFromYear, DaysBeforeMonth, CivilOf, DateUtc, DayNumber, DaysInMonth;
    if MatchesDatePattern(s) {
      var c := WrittenDate(s);
      assert 0 <= c.year <= 9999;
      CivilOfIsValid(DateUtc(c));
      if ValidCivil(c) {
        DateUtcOfValid(c);
        if c.year >= 100 {
          CivilOfDayNumber(c);
        } else {
          ShiftedCenturyDiffers(c);
        }
      }
    }
  }

  /** A date text is accepted on its written numbers alone: day 31 only in the seven long months, day 30 in all but
      February, 29 February only in leap years, and no year before 100. */
  lemma ParseAcceptsByNumbers(s: string)
    requires MatchesDatePattern(s)
    ensures var y := (s[0] as int - 48) * 1000 + (s[1] as int - 48) * 100 + (s[2] as int - 48) * 10 + (s[3] as int - 48);
            var m := (s[5] as int - 48) * 10 + (s[6] as int - 48);
            var d := (s[8] as int - 48) * 10 + (s[9] as int - 48);
            ParseCalendarDate(s).Some? <==>
            && y >= 100 && 1 <= m <= 12 && 1 <= d <= 31
            && (d == 31 ==> m == 1 || m == 3 || m == 5 || m == 7 || m == 8 || m == 10 || m == 12)
            && (d == 30 ==> m != 2)
            && (d == 29 && m == 2 ==> y % 4 == 0 && (y % 100 != 0 || y % 400 == 0))
  {
    ParseAcceptsExactly(s);
    hide ParseCalendarDate;
  }

  /** The text of a date is ten characters: digits, with hyphens in the fifth and the eighth place. */
  lemma ParseNeedsThePattern(s: string)
    ensures ParseCalendarDate(s).Some? ==>
              && |s| == 10 && s[4] == '-' && s[7] == '-'
              && forall k | 0 <= k < 10 && k != 4 && k != 7 :: 48 <= s[k] as int <= 57
  {
  }

  /** Days are counted from the first of January 1970. */
  lemma EpochIsDayZero()
    ensures ParseCalendarDate("1970-01-01") == Some(0)
  {
    hide ParseCalendarDate, DaysInMonth;
    var s := "1970-01-01";
    ParseAcceptsByNumbers(s);
    ParseAcceptsExactly(s);
    assert WrittenDate(s) == Civil(1970, 1, 1);
    DayTable(1970);
    assert DayNumber(Civil(1970, 1, 1)) == 0;
  }

  /** The years 0 to 99 are read as 1900 to 1999, so the Date never has the written year. */
  lemma ShiftedCenturyDiffers(c: Civil)
    requires ValidCivil(c) && 0 <= c.year <= 99
    ensures CivilOf(DateUtc(c)).year != c.year
  {
    hide DayFromYear, DaysBeforeMonth, CivilOf;
    var y, n := 1900 + c.year, DateUtc(c);
    CivilOfIsValid(n);
    DayNumberInYear(CivilOf(n));
    assert (c.month - 1) / 12 == 0 && (c.month - 1) % 12 + 1 == c.month;
    MonthsAscend(y, 1, c.month);
    FirstMonth(y);
    YearsAscend(c.year + 1, y);
  }

  lemma FirstMonth(y: int)
    ensures DaysBeforeMonth(y, 1) == 0
  {
  }

  function Digits2(n: int): string
    requires 0 <= n <= 99
  {
    ['0' + (n / 10) as char, '0' + (n % 10) as char]
  }

  /** Decimal notation without padding, for years of at most four digits. */
  function YearText(y: int): string
    requires 0 <= y <= 9999
  {
    if y >= 1000 then ['0' + (y / 1000) as char] + ['0' + (y / 100 % 10) as char] + Digits2(y % 100)
    else if y >= 100 then ['0' + (y / 100) as char] + Digits2(y % 100)
    else if y >= 10 then Digits2(y)
    else ['0' + y as char]
  }

  /** Years the report dates stay in; padStart pads only month and day. */
  predicate Writable(n: int) { 0 <= CivilOf(n).year <= 9999 }

  function FormatCalendarDate(n: int): string
    requires Writable(n)
  {
    CivilOfIsValid(n);
    var c := CivilOf(n);
    YearText(c.year) + "-" + Digits2(c.month) + "-" + Digits2(c.day)
  }

  lemma Digits2Reads(a: char, b: char)
    requires IsDigit(a) && IsDigit(b)
    ensures Digits2(Digit(a) * 10 + Digit(b)) == [a, b]
  {
  }

  lemma Digits2Writes(n: int)
    requires 0 <= n <= 99
    ensures var s := Digits2(n); |s| == 2 && IsDigit(s[0]) && IsDigit(s[1]) && Digit(s[0]) * 10 + Digit(s[1]) == n
  {
  }

  lemma YearDigits(a: int, b: int, c: int, d: int)
    requires 0 <= a <= 9 && 0 <= b <= 9 && 0 <= c <= 9 && 0 <= d <= 9
    ensures var y := a * 1000 + b * 100 + c * 10 + d;
            y / 1000 == a && y / 100 == a * 10 + b && y / 100 % 10 == b && y % 100 == c * 10 + d && y / 10 == a * 100 + b * 10 + c
  {
  }

  lemma YearReads(a: char, b: char, c: char, d: char)
    requires IsDigit(a) && IsDigit(b) && IsDigit(c) && IsDigit(d)
    ensures var y := Digit(a) * 1000 + Digit(b) * 100 + Digit(c) * 10 + Digit(d);
            && (y >= 1000 ==> YearText(y) == [a, b, c, d])
            && (y < 1000 ==> |YearText(y)| < 4)
  {
    hide Digits2;
    var y := Digit(a) * 1000 + Digit(b) * 100 + Digit(c) * 10 + Digit(d);
    YearDigits(Digit(a), Digit(b), Digit(c), Digit(d));
    Digits2Reads(c, d);
    if 10 <= y < 100 {
      Digits2Writes(y);
    }
    Digits2Writes(y % 100);
    if y >= 1000 {
      assert YearText(y) == [a] + [b] + [c, d];
    }
  }

  lemma YearPieces(y: int)
    requires 1000 <= y <= 9999
    ensures 1 <= y / 1000 <= 9 && 0 <= y / 100 % 10 <= 9 && 0 <= y % 100 <= 99
    ensures y == y / 1000 * 1000 + y / 100 % 10 * 100 + y % 100
  {
  }

  lemma DigitOf(n: int)
    requires 0 <= n <= 9
    ensures IsDigit('0' + n as char) && Digit('0' + n as char) == n
  {
  }

  lemma YearWrites(y: int)
    requires 1000 <= y <= 9999
    ensures var s := YearText(y);
            && |s| == 4 && IsDigit(s[0]) && IsDigit(s[1]) && IsDigit(s[2]) && IsDigit(s[3])
            && Digit(s[0]) * 1000 + Digit(s[1]) * 100 + Digit(s[2]) * 10 + Digit(s[3]) == y
  {
    hide Digits2, IsDigit, Digit;
    YearPieces(y);
    var thousands, hundreds, last := y / 1000, y / 100 % 10, y % 100;
    DigitOf(thousands);
    DigitOf(hundreds);
    Digits2Writes(last);
    var s := YearText(y);
    assert s == ['0' + thousands as char] + ['0' + hundreds as char] + Digits2(last);
    assert s[2] == Digits2(last)[0] && s[3] == Digits2(last)[1];
  }

  lemma FormatIs(n: int)
    requires Writable(n)
    ensures ValidCivil(CivilOf(n))
    ensures var c := CivilOf(n);
            FormatCalendarDate(n) == YearText(c.year) + "-" + Digits2(c.month) + "-" + Digits2(c.day)
  {
    CivilOfIsValid(n);
  }

  /** Formatting a parsed date gives back the text exactly for years from 1000 on; earlier years lose their zeros. */
  lemma FormatInvertsParse(s: string)
    requires ParseCalendarDate(s).Some?
    ensures var n := ParseCalendarDate(s).value;
            Writable(n) && CivilOf(n) == WrittenDate(s)
            && (FormatCalendarDate(n) == s <==> WrittenDate(s).year >= 1000)
  {
    ParseAcceptsExactly(s);
    var c := WrittenDate(s);
    CivilOfDayNumber(c);
    FormatIs(DayNumber(c));
    hide ParseCalendarDate, DayNumber, CivilOf, FormatCalendarDate, ValidCivil;
    FormattedWrittenDate(s);
  }

  lemma FormattedWrittenDate(s: string)
    requires MatchesDatePattern(s)
    ensures var c := WrittenDate(s);
            && 0 <= c.year <= 9999 && 0 <= c.month <= 99 && 0 <= c.day <= 99
            && (YearText(c.year) + "-" + Digits2(c.month) + "-" + Digits2(c.day) == s <==> c.year >= 1000)
  {
    hide YearText, Digits2;
    var c := WrittenDate(s);
    Digits2Reads(s[5], s[6]);
    Digits2Reads(s[8], s[9]);
    YearReads(s[0], s[1], s[2], s[3]);
    var year, rest := YearText(c.year), "-" + [s[5], s[6]] + "-" + [s[8], s[9]];
    var written := [s[0], s[1], s[2], s[3]];
    TextFromParts(year, s[5], s[6], s[8], s[9]);
    assert s == written + rest;
    SameHead(year, written, rest);
  }

  lemma TextFromParts(year: string, a: char, b: char, c: char, d: char)
    ensures year + "-" + [a, b] + "-" + [c, d] == year + ("-" + [a, b] + "-" + [c, d])
  {
  }

  lemma SameHead(a: string, b: string, rest: string)
    ensures a + rest == b + rest <==> a == b
  {
    if a + rest == b + rest {
      assert a == (a + rest)[..|a|];
      assert b == (b + rest)[..|b|];
    }
  }

  /** Parsing reads back what formatting writes, for every day of the years 1000 to 9999. */
  lemma ParseInvertsFormat(n: int)
    requires 1000 <= CivilOf(n).year <= 9999
    ensures ParseCalendarDate(FormatCalendarDate(n)) == Some(n)
  {
    CivilOfIsValid(n);
    hide ParseCalendarDate, DayNumber, CivilOf, YearText, Digits2, FormatCalendarDate;
    FormatIs(n);
    var c, s := CivilOf(n), FormatCalendarDate(n);
    YearWrites(c.year);
    Digits2Writes(c.month);
    Digits2Writes(c.day);
    assert s[0..4] == YearText(c.year) && s[5..7] == Digits2(c.month) && s[8..10] == Digits2(c.day);
    assert s[0] == YearText(c.year)[0] && s[1] == YearText(c.year)[1];
    assert s[2] == YearText(c.year)[2] && s[3] == YearText(c.year)[3];
    assert s[5] == Digits2(c.month)[0] && s[6] == Digits2(c.month)[1];
    assert s[8] == Digits2(c.day)[0] && s[9] == Digits2(c.day)[1];
    assert WrittenDate(s) == c;
    ParseAcceptsExactly(s);
  }

  predicate IsTextOf(s: string, n: int) {
    Writable(n) && s == FormatCalendarDate(n)
  }

  datatype RangeError = InvalidDate | FromAfterTo

  /** Every day from `from` to `to`, once, in order. */
  method BuildRequestedDateRange(from: string, to: string) returns (r: Result<seq<string>, RangeError>)
    ensures var a, b := ParseCalendarDate(from), ParseCalendarDate(to);
            && (r == Err(InvalidDate) <==> a.None? || b.None?)
            && (r == Err(FromAfterTo) <==> a.Some? && b.Some? && a.value > b.value)
            && (r.Ok? ==> |r.value| == b.value - a.value + 1
                          && (forall k | 0 <= k < |r.value| :: IsTextOf(r.value[k], a.value + k))
                          && (forall j, k | 0 <= j < k < |r.value| :: r.value[j] != r.value[k]))
  {
    hide ParseCalendarDate, FormatCalendarDate, CivilOf, SetUtcDate, Writable;
    var startDate, endDate := ParseCalendarDate(from), ParseCalendarDate(to);
    if startDate.None? || endDate.None? {
      return Err(InvalidDate);
    }
    if startDate.value > endDate.value {
      return Err(FromAfterTo);
    }
    var dates: seq<string> := [];
    var currentDate := startDate.value;
    while currentDate <= endDate.value
      invariant startDate.value <= currentDate <= endDate.value + 1
      invariant |dates| == currentDate - startDate.value
      invariant forall k | 0 <= k < |dates| :: IsTextOf(dates[k], startDate.value + k)
    {
      BetweenIsWritable(from, to, currentDate);
      assert IsTextOf(FormatCalendarDate(currentDate), startDate.value + |dates|);
      dates := dates + [FormatCalendarDate(currentDate)];
      SetUtcDateShifts(currentDate, 1);
      currentDate := SetUtcDate(currentDate, CivilOf(currentDate).day + 1);
    }
    forall j, k | 0 <= j < k < |dates| ensures dates[j] != dates[k] {
      TextsDiffer(dates[j], dates[k], startDate.value + j, startDate.value + k);
    }
    return Ok(dates);
  }

  lemma LaterDayLaterYear(a: Civil, b: Civil)
    requires ValidCivil(a) && ValidCivil(b) && DayNumber(a) <= DayNumber(b)
    ensures a.year <= b.year
  {
    hide DayFromYear, DaysBeforeMonth, DayNumber, DaysInMonth;
    if b.year < a.year {
      YearsAscend(b.year + 1, a.year);
      DayNumberInYear(a);
      DayNumberInYear(b);
    }
  }

  lemma BetweenIsWritable(from: string, to: string, n: int)
    requires ParseCalendarDate(from).Some? && ParseCalendarDate(to).Some?
    requires ParseCalendarDate(from).value <= n <= ParseCalendarDate(to).value
    ensures Writable(n) && 100 <= CivilOf(n).year
  {
    ParseAcceptsExactly(from);
    ParseAcceptsExactly(to);
    hide ParseCalendarDate, DayNumber, CivilOf, WrittenDate;
    CivilOfIsValid(n);
    LaterDayLaterYear(WrittenDate(from), CivilOf(n));
    LaterDayLaterYear(CivilOf(n), WrittenDate(to));
  }

  const DEFAULT_REPORT_RANGE_LOOKBACK_DAYS := 30

  datatype Range = Range(from: string, to: string)

  /** The default window: thirty days back from the last available day, clamped up to the first available day,
      so it never leaves a non-empty available range. */
  method BuildDefaultReportRange(available: Range) returns (r: Result<Range, RangeError>)
    ensures var a, b := ParseCalendarDate(available.from), ParseCalendarDate(available.to);
            && (r == Err(InvalidDate) <==> a.None? || b.None?)
            && (a.Some? && b.Some? ==>
                  && r.Ok?
                  && IsTextOf(r.value.to, b.value)
                  && exists first ::
                       && IsTextOf(r.value.from, first)
                       && (first == a.value || (a.value < first && first == b.value - 30))
                       && first >= b.value - 30
                       && (a.value <= b.value ==> a.value <= first <= b.value))
  {
    hide ParseCalendarDate, FormatCalendarDate, CivilOf, SetUtcDate, Writable;
    var availableFrom, availableTo := ParseCalendarDate(available.from), ParseCalendarDate(available.to);
    if availableFrom.None? || availableTo.None? {
      return Err(InvalidDate);
    }
    SetUtcDateShifts(availableTo.value, -DEFAULT_REPORT_RANGE_LOOKBACK_DAYS);
    var defaultFrom := SetUtcDate(availableTo.value, CivilOf(availableTo.value).day - DEFAULT_REPORT_RANGE_LOOKBACK_DAYS);
    var first := if defaultFrom < availableFrom.value then availableFrom.value else defaultFrom;
    BetweenIsWritable(available.from, available.from, availableFrom.value);
    BetweenIsWritable(available.to, available.to, availableTo.value);
    if first != availableFrom.value {
      BetweenIsWritable(available.from, available.to, first);
    }
    r := Ok(Range(FormatCalendarDate(first), FormatCalendarDate(availableTo.value)));
    assert IsTextOf(r.value.from, first);
  }

  lemma YearTextIsInjective(y: int, z: int)
    requires 0 <= y <= 9999 && 0 <= z <= 9999 && YearText(y) == YearText(z)
    ensures y == z
  {
    YearTextLength(y);
    YearTextLength(z);
    if y >= 1000 {
      hide YearText;
      YearWrites(y);
      YearWrites(z);
    } else if y >= 100 {
      ThreeDigits(y);
      ThreeDigits(z);
      hide YearText, Digits2;
      Digits2IsInjective(y % 100, z % 100);
    } else if y >= 10 {
      hide Digits2;
      Digits2IsInjective(y, z);
    } else {
      assert YearText(y)[0] == YearText(z)[0];
    }
  }

  lemma YearTextLength(y: int)
    requires 0 <= y <= 9999
    ensures |YearText(y)| == if y >= 1000 then 4 else if y >= 100 then 3 else if y >= 10 then 2 else 1
  {
  }

  lemma ThreeDigits(y: int)
    requires 100 <= y <= 999
    ensures YearText(y)[0] as int - '0' as int == y / 100 && YearText(y)[1..] == Digits2(y % 100)
    ensures y == y / 100 * 100 + y % 100
  {
  }

  lemma Digits2IsInjective(a: int, b: int)
    requires 0 <= a <= 99 && 0 <= b <= 99 && Digits2(a) == Digits2(b)
    ensures a == b
  {
    Digits2Writes(a);
    Digits2Writes(b);
  }

  /** A date text determines its three parts. */
  lemma PartsOfText(y: string, m: string, d: string, y': string, m': string, d': string)
    requires |m| == |d| == |m'| == |d'| == 2
    requires y + "-" + m + "-" + d == y' + "-" + m' + "-" + d'
    ensures y == y' && m == m' && d == d'
  {
    var s, t := y + "-" + m + "-" + d, y' + "-" + m' + "-" + d';
    var i := |s| - 6;
    assert s[..i] == y && t[..i] == y';
    assert s[i + 1..i + 3] == m && t[i + 1..i + 3] == m';
    assert s[i + 4..] == d && t[i + 4..] == d';
  }

  /** Different days are written differently, in every year that can be written. */
  lemma RangeHasNoRepeats(m: int, n: int)
    requires Writable(m) && Writable(n) && m != n
    ensures FormatCalendarDate(m) != FormatCalendarDate(n)
  {
    hide FormatCalendarDate, CivilOf, YearText, Digits2, DayNumber;
    var a, b := CivilOf(m), CivilOf(n);
    FormatIs(m);
    FormatIs(n);
    CivilOfIsValid(m);
    CivilOfIsValid(n);
    if FormatCalendarDate(m) == FormatCalendarDate(n) {
      Digits2Writes(a.month);
      Digits2Writes(a.day);
      Digits2Writes(b.month);
      Digits2Writes(b.day);
      PartsOfText(YearText(a.year), Digits2(a.month), Digits2(a.day), YearText(b.year), Digits2(b.month), Digits2(b.day));
      YearTextIsInjective(a.year, b.year);
      Digits2IsInjective(a.month, b.month);
      Digits2IsInjective(a.day, b.day);
      assert false;
    }
  }

  lemma TextsDiffer(s: string, t: string, m: int, n: int)
    requires IsTextOf(s, m) && IsTextOf(t, n) && m != n
    ensures s != t
  {
    RangeHasNoRepeats(m, n);
  }
}
