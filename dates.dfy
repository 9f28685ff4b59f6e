/**
 * Calendar dates and the two conversions the core performs on them:
 * `datetime.strptime` with the formats `%d.%m.%Y`, `%Y-%m-%d`, `%d/%m/%Y`
 * and `%m/%d/%Y`, and `strftime("%d.%m.%Y")`.
 *
 * `strptime` turns a format into a regular expression in which `%d` is
 * `3[01]|[12]\d|0[1-9]|[1-9]| [1-9]`, `%m` is `1[0-2]|0[1-9]|[1-9]` and
 * `%Y` is `\d\d\d\d`, requires the match to cover the whole input, and then
 * refuses dates the Gregorian calendar does not have.  Since the separators
 * are neither digits nor spaces, that is the same as splitting the input at
 * the two separators and checking each piece against its field's language,
 * which is how it is written here.
 */
module Dates {
  import opened Options
  import opened Strings

  /** `datetime.date` (the time of day is always midnight here). */
  datatype Date = Date(year: int, month: int, day: int)

  predicate IsLeapYear(y: int) {
    y % 4 == 0 && (y % 100 != 0 || y % 400 == 0)
  }

  function DaysInMonth(y: int, m: int): (n: int)
    requires 1 <= m <= 12
    ensures 28 <= n <= 31
    ensures m == 2 ==> (n == 29 <==> IsLeapYear(y))
  {
    if m == 2 then (if IsLeapYear(y) then 29 else 28)
    else if m == 4 || m == 6 || m == 9 || m == 11 then 30
    else 31
  }

  /** A date between `MINYEAR` and `MAXYEAR` that the calendar has. */
  predicate ValidDate(d: Date) {
    1 <= d.year <= 9999 && 1 <= d.month <= 12 && 1 <= d.day <= DaysInMonth(d.year, d.month)
  }

  /** A `datetime.date` value: only dates the calendar has can exist. */
  type CalendarDate = d: Date | ValidDate(d) witness Date(2000, 1, 1)

  /** Chronological order. */
  predicate Before(a: Date, b: Date) {
    a.year < b.year || (a.year == b.year && (a.month < b.month || (a.month == b.month && a.day < b.day)))
  }

  /** The order of the three fields and the character between them. */
  datatype DateFormat = DayMonthYear(sep: char) | YearMonthDay(sep: char) | MonthDayYear(sep: char)

  function DigitValue(c: char): (v: nat)
    requires IsDigit(c)
    ensures v <= 9
  {
    c as int - '0' as int
  }

  /** `int(s)` for a string of decimal digits. */
  function DecimalValue(s: string): nat
    requires AllDigits(s)
  {
    if s == [] then 0 else 10 * DecimalValue(s[..|s| - 1]) + DigitValue(s[|s| - 1])
  }

  /** The language of `%d`. */
  predicate DayToken(t: string) {
    || (|t| == 1 && '1' <= t[0] <= '9')
    || (|t| == 2 && (|| (t[0] == '3' && '0' <= t[1] <= '1')
                     || ('1' <= t[0] <= '2' && IsDigit(t[1]))
                     || (t[0] == '0' && '1' <= t[1] <= '9')
                     || (t[0] == ' ' && '1' <= t[1] <= '9')))
  }

  /** The language of `%m`. */
  predicate MonthToken(t: string) {
    || (|t| == 1 && '1' <= t[0] <= '9')
    || (|t| == 2 && (|| (t[0] == '1' && '0' <= t[1] <= '2')
                     || (t[0] == '0' && '1' <= t[1] <= '9')))
  }

  /** The language of `%Y`. */
  predicate YearToken(t: string) {
    |t| == 4 && AllDigits(t)
  }

  lemma TwoDigitValue(t: string)
    requires |t| == 2 && AllDigits(t)
    ensures DecimalValue(t) == 10 * DigitValue(t[0]) + DigitValue(t[1])
  {
    var h := t[..1];
    assert t[..|t| - 1] == h && h[..|h| - 1] == [];
    assert DecimalValue(h) == DigitValue(t[0]);
  }

  /** The number a `%d` or `%m` piece denotes (a space before a digit is allowed). */
  function SmallValue(t: string): (v: nat)
    requires DayToken(t) || MonthToken(t)
    ensures DayToken(t) ==> 1 <= v <= 31
    ensures MonthToken(t) ==> 1 <= v <= 12
    ensures t[0] == ' ' ==> AllDigits(t[1..]) && v == DecimalValue(t[1..])
    ensures t[0] != ' ' ==> AllDigits(t) && v == DecimalValue(t)
  {
    if |t| == 1 then DigitValue(t[0])
    else if t[0] == ' ' then DigitValue(t[1])
    else (TwoDigitValue(t); DecimalValue(t))
  }

  /** Split `s` at exactly two occurrences of `sep`. */
  function Split3(s: string, sep: char): (r: Option<(string, string, string)>)
    ensures r.Some? ==> s == r.value.0 + [sep] + r.value.1 + [sep] + r.value.2
    ensures r.Some? ==> sep !in r.value.0 && sep !in r.value.1 && sep !in r.value.2
  {
    match IndexOf(s, sep)
    case None => None
    case Some(i) =>
      var rest := s[i + 1..];
      match IndexOf(rest, sep)
      case None => None
      case Some(j) =>
        var tail := rest[j + 1..];
        if sep in tail then None
        else
          assert s == s[..i] + [sep] + rest[..j] + [sep] + tail;
          Some((s[..i], rest[..j], tail))
  }

  /** Splitting undoes joining with a separator the pieces do not contain. */
  lemma Split3Of(a: string, b: string, c: string, sep: char)
    requires sep !in a && sep !in b && sep !in c
    ensures Split3(a + [sep] + b + [sep] + c, sep) == Some((a, b, c))
  {
    var s := a + [sep] + b + [sep] + c;
    assert s[..|a|] == a && s[|a|] == sep;
    forall k | |a| < k <= |s| ensures sep in s[..k] {
      assert s[..k][|a|] == sep;
    }
    assert IndexOf(s, sep) == Some(|a|);
    var rest := s[|a| + 1..];
    assert rest == b + [sep] + c;
    assert rest[..|b|] == b && rest[|b|] == sep;
    forall k | |b| < k <= |rest| ensures sep in rest[..k] {
      assert rest[..k][|b|] == sep;
    }
    assert IndexOf(rest, sep) == Some(|b|);
    assert rest[|b| + 1..] == c;
  }

  /** Which piece is the day, the month and the year. */
  function Fields(f: DateFormat, parts: (string, string, string)): (string, string, string) {
    match f
    case DayMonthYear(_) => (parts.0, parts.1, parts.2)
    case YearMonthDay(_) => (parts.2, parts.1, parts.0)
    case MonthDayYear(_) => (parts.1, parts.0, parts.2)
  }

  /** `datetime.strptime(s, f)`, `None` where it raises `ValueError`. */
  function StrPTime(s: string, f: DateFormat): (r: Option<Date>)
    ensures r.Some? ==> ValidDate(r.value)
  {
    match Split3(s, f.sep)
    case None => None
    case Some(parts) =>
      var (dt, mt, yt) := Fields(f, parts);
      if DayToken(dt) && MonthToken(mt) && YearToken(yt) then
        var d := Date(DecimalValue(yt), SmallValue(mt), SmallValue(dt));
        if ValidDate(d) then Some(d) else None
      else None
  }

  function DigitChar(n: nat): (c: char)
    requires n <= 9
    ensures IsDigit(c) && DigitValue(c) == n
  {
    ('0' as int + n) as char
  }

  /** `%02d`. */
  function Pad2(n: nat): (r: string)
    requires n < 100
    ensures |r| == 2 && AllDigits(r) && DecimalValue(r) == n
  {
    var r := [DigitChar(n / 10), DigitChar(n % 10)];
    TwoDigitValue(r);
    r
  }

  /** `str(n)`: decimal digits without leading zeros. */
  function Decimal(n: nat): (r: string)
    ensures |r| >= 1 && AllDigits(r)
    ensures DecimalValue(r) == n
  {
    if n < 10 then [DigitChar(n)]
    else
      var r := Decimal(n / 10) + [DigitChar(n % 10)];
      assert r[..|r| - 1] == Decimal(n / 10);
      r
  }

  /** A year with four digits is written with four digits. */
  lemma DecimalFourDigits(n: nat)
    requires 1000 <= n <= 9999
    ensures |Decimal(n)| == 4
  {
    var n1, n2, n3 := n / 10, n / 10 / 10, n / 10 / 10 / 10;
    assert 100 <= n1 <= 999 && 10 <= n2 <= 99 && 1 <= n3 <= 9;
    assert |Decimal(n3)| == 1;
    assert |Decimal(n2)| == |Decimal(n3)| + 1;
    assert |Decimal(n1)| == |Decimal(n2)| + 1;
    assert |Decimal(n)| == |Decimal(n1)| + 1;
  }

  /** `strftime("%d.%m.%Y")`, where `%Y` is written as `str(year)`
      (the C library's form, which pads nothing). */
  function FormatDate(d: Date): (r: string)
    requires ValidDate(d)
    ensures |r| >= 7 && r[2] == '.' && r[5] == '.'
    ensures d.year >= 1000 ==> |r| == 10
    ensures AllDigits(r[..2]) && DecimalValue(r[..2]) == d.day
    ensures AllDigits(r[3..5]) && DecimalValue(r[3..5]) == d.month
    ensures AllDigits(r[6..]) && DecimalValue(r[6..]) == d.year
  {
    var dd, mm, yyyy := Pad2(d.day), Pad2(d.month), Decimal(d.year);
    var r := dd + "." + mm + "." + yyyy;
    assert r[..2] == dd && r[3..5] == mm && r[6..] == yyyy;
    if d.year >= 1000 then DecimalFourDigits(d.year); r else r
  }

  /** Reading back a date written as `DD.MM.YYYY` gives the same date. */
  lemma FormatDateRoundTrip(d: Date)
    requires ValidDate(d) && d.year >= 1000
    ensures StrPTime(FormatDate(d), DayMonthYear('.')) == Some(d)
  {
    var a, b, c := Pad2(d.day), Pad2(d.month), Decimal(d.year);
    DecimalFourDigits(d.year);
    assert FormatDate(d) == a + ['.'] + b + ['.'] + c;
    Pad2Token(d.day);
    Pad2Token(d.month);
    TokenHasNoSeparator(a);
    TokenHasNoSeparator(b);
    TokenHasNoSeparator(c);
    StrPTimeOfPieces(DayMonthYear('.'), a, b, c);
  }

  /** `%02d` of a day is in the language of `%d`, and of a month in that of
      `%m`, and reads back as the same number. */
  lemma Pad2Token(n: nat)
    requires 1 <= n <= 31
    ensures DayToken(Pad2(n)) && SmallValue(Pad2(n)) == n
    ensures n <= 12 ==> MonthToken(Pad2(n))
  {
  }

  /** The formats `parse_birthday` tries, in its order. */
  const BirthdayFormats: seq<DateFormat> :=
    [DayMonthYear('.'), YearMonthDay('-'), DayMonthYear('/'), MonthDayYear('/')]

  /** The date the first format in `formats` that accepts `s` produces. */
  function FirstParse(s: string, formats: seq<DateFormat>): (r: Option<Date>)
    ensures r.Some? ==> ValidDate(r.value)
  {
    if formats == [] then None
    else
      match StrPTime(s, formats[0])
      case Some(d) => Some(d)
      case None => FirstParse(s, formats[1..])
  }

  /** Format `k` is the first of `formats` that accepts `s`, and it gives `d`. */
  predicate FirstSuccessAt(s: string, formats: seq<DateFormat>, k: int, d: Date) {
    && 0 <= k < |formats|
    && StrPTime(s, formats[k]) == Some(d)
    && forall j :: 0 <= j < k ==> StrPTime(s, formats[j]).None?
  }

  lemma {:induction false} FirstParseFindsFirst(s: string, formats: seq<DateFormat>, d: Date)
    requires FirstParse(s, formats) == Some(d)
    ensures exists k :: FirstSuccessAt(s, formats, k, d)
  {
    if StrPTime(s, formats[0]).Some? {
      assert FirstSuccessAt(s, formats, 0, d);
    } else {
      FirstParseFindsFirst(s, formats[1..], d);
      var k :| FirstSuccessAt(s, formats[1..], k, d);
      assert forall j :: 1 <= j <= k ==> formats[j] == formats[1..][j - 1];
      assert FirstSuccessAt(s, formats, k + 1, d);
    }
  }

  lemma {:induction false} FirstSuccessIsFirstParse(s: string, formats: seq<DateFormat>, k: int, d: Date)
    requires FirstSuccessAt(s, formats, k, d)
    ensures FirstParse(s, formats) == Some(d)
    decreases k
  {
    if k > 0 {
      var rest := formats[1..];
      assert FirstSuccessAt(s, rest, k - 1, d) by {
        forall j | 0 <= j < k - 1 ensures StrPTime(s, rest[j]).None? {
          assert rest[j] == formats[j + 1];
        }
        assert rest[k - 1] == formats[k];
      }
      FirstSuccessIsFirstParse(s, rest, k - 1, d);
      assert StrPTime(s, formats[0]).None?;
    }
  }

  /** `FirstParse` answers with the earliest format that succeeds, and only
      when one does: the first success wins. */
  lemma FirstParseIsFirstSuccess(s: string, formats: seq<DateFormat>, d: Date)
    ensures FirstParse(s, formats) == Some(d) <==> exists k :: FirstSuccessAt(s, formats, k, d)
  {
    if FirstParse(s, formats) == Some(d) {
      FirstParseFindsFirst(s, formats, d);
    }
    if exists k :: FirstSuccessAt(s, formats, k, d) {
      var k :| FirstSuccessAt(s, formats, k, d);
      FirstSuccessIsFirstParse(s, formats, k, d);
    }
  }


  lemma YearTokenValue(t: string)
    requires YearToken(t)
    ensures DecimalValue(t) == 1000 * DigitValue(t[0]) + 100 * DigitValue(t[1]) + 10 * DigitValue(t[2]) + DigitValue(t[3])
  {
    var t3, t2, t1 := t[..3], t[..2], t[..1];
    assert t[..|t| - 1] == t3 && t3[..|t3| - 1] == t2 && t2[..|t2| - 1] == t1 && t1[..|t1| - 1] == [];
    assert DecimalValue(t1) == DigitValue(t[0]);
    assert DecimalValue(t2) == 10 * DecimalValue(t1) + DigitValue(t[1]);
    assert DecimalValue(t3) == 10 * DecimalValue(t2) + DigitValue(t[2]);
  }

  /** Pieces in the languages of their fields that name a real date are read
      as that date. */
  lemma StrPTimeOfPieces(f: DateFormat, a: string, b: string, c: string)
    requires f.sep !in a && f.sep !in b && f.sep !in c
    requires var (dt, mt, yt) := Fields(f, (a, b, c));
      DayToken(dt) && MonthToken(mt) && YearToken(yt) &&
      ValidDate(Date(DecimalValue(yt), SmallValue(mt), SmallValue(dt)))
    ensures var (dt, mt, yt) := Fields(f, (a, b, c));
      StrPTime(a + [f.sep] + b + [f.sep] + c, f) == Some(Date(DecimalValue(yt), SmallValue(mt), SmallValue(dt)))
  {
    Split3Of(a, b, c, f.sep);
  }

  /** A string without the separator is not split. */
  lemma Split3NeedsSeparator(s: string, sep: char)
    requires sep !in s
    ensures Split3(s, sep).None?
  {
  }

  /** A format whose separator does not occur in `s` rejects it. */
  lemma StrPTimeNeedsSeparator(s: string, f: DateFormat)
    requires f.sep !in s
    ensures StrPTime(s, f).None?
  {
    Split3NeedsSeparator(s, f.sep);
  }

  /** Pieces in the languages of their fields that name no real date are
      rejected. */
  lemma StrPTimeRejectsMissingDate(f: DateFormat, a: string, b: string, c: string)
    requires f.sep !in a && f.sep !in b && f.sep !in c
    requires var (dt, mt, yt) := Fields(f, (a, b, c));
      DayToken(dt) && MonthToken(mt) && YearToken(yt) &&
      !ValidDate(Date(DecimalValue(yt), SmallValue(mt), SmallValue(dt)))
    ensures StrPTime(a + [f.sep] + b + [f.sep] + c, f).None?
  {
    Split3Of(a, b, c, f.sep);
  }

  /** Field pieces hold digits and spaces only, never a separator. */
  lemma TokenHasNoSeparator(t: string)
    requires DayToken(t) || MonthToken(t) || YearToken(t)
    ensures '.' !in t && '-' !in t && '/' !in t
  {
    assert forall i :: 0 <= i < |t| ==> IsDigit(t[i]) || t[i] == ' ';
  }

  /** `parse_birthday`'s list of formats, tried in order. */
  lemma BirthdayFormatsInOrder(s: string)
    ensures FirstParse(s, BirthdayFormats) ==
      if StrPTime(s, DayMonthYear('.')).Some? then StrPTime(s, DayMonthYear('.'))
      else if StrPTime(s, YearMonthDay('-')).Some? then StrPTime(s, YearMonthDay('-'))
      else if StrPTime(s, DayMonthYear('/')).Some? then StrPTime(s, DayMonthYear('/'))
      else StrPTime(s, MonthDayYear('/'))
  {
    var f3: seq<DateFormat> := [MonthDayYear('/')];
    var f2 := [DayMonthYear('/')] + f3;
    var f1 := [YearMonthDay('-')] + f2;
    assert BirthdayFormats == [DayMonthYear('.')] + f1;
    assert f3[1..] == [];
    assert FirstParse(s, f3) == StrPTime(s, MonthDayYear('/'));
    assert f2[1..] == f3;
    assert FirstParse(s, f2) == if StrPTime(s, DayMonthYear('/')).Some? then StrPTime(s, DayMonthYear('/')) else FirstParse(s, f3);
    assert f1[1..] == f2;
    assert FirstParse(s, f1) == if StrPTime(s, YearMonthDay('-')).Some? then StrPTime(s, YearMonthDay('-')) else FirstParse(s, f2);
    assert BirthdayFormats[1..] == f1;
  }

  /** A date written with slashes is read day first whenever that reading is
      a real date: `%d/%m/%Y` comes before `%m/%d/%Y`. */
  lemma SlashDatesAreDayFirst(dd: string, mm: string, yyyy: string)
    requires DayToken(dd) && MonthToken(mm) && YearToken(yyyy)
    requires ValidDate(Date(DecimalValue(yyyy), SmallValue(mm), SmallValue(dd)))
    ensures FirstParse(dd + ['/'] + mm + ['/'] + yyyy, BirthdayFormats) == Some(Date(DecimalValue(yyyy), SmallValue(mm), SmallValue(dd)))
  {
    var s := dd + ['/'] + mm + ['/'] + yyyy;
    TokenHasNoSeparator(dd);
    TokenHasNoSeparator(mm);
    TokenHasNoSeparator(yyyy);
    StrPTimeNeedsSeparator(s, DayMonthYear('.'));
    StrPTimeNeedsSeparator(s, YearMonthDay('-'));
    StrPTimeOfPieces(DayMonthYear('/'), dd, mm, yyyy);
    BirthdayFormatsInOrder(s);
  }

  /** `03/04/2000` is 3 April 2000, not 4 March. */
  lemma AmbiguousSlashDate(s: string)
    requires s == "03/04/2000"
    ensures FirstParse(s, BirthdayFormats) == Some(Date(2000, 4, 3))
  {
    assert s == "03" + ['/'] + "04" + ['/'] + "2000";
    assert DecimalValue("2000") == 2000 by { YearTokenValue("2000"); }
    assert SmallValue("03") == 3 by { TwoDigitValue("03"); }
    assert SmallValue("04") == 4 by { TwoDigitValue("04"); }
    SlashDatesAreDayFirst("03", "04", "2000");
  }

  lemma MonthFirstReads(s: string)
    requires s == "12/25/2000"
    ensures StrPTime(s, MonthDayYear('/')) == Some(Date(2000, 12, 25))
  {
    assert s == "12" + ['/'] + "25" + ['/'] + "2000";
    assert DecimalValue("2000") == 2000 by { YearTokenValue("2000"); }
    assert SmallValue("12") == 12 by { TwoDigitValue("12"); }
    assert SmallValue("25") == 25 by { TwoDigitValue("25"); }
    StrPTimeOfPieces(MonthDayYear('/'), "12", "25", "2000");
  }

  lemma DayFirstFails(s: string)
    requires s == "12/25/2000"
    ensures StrPTime(s, DayMonthYear('/')).None?
  {
    assert s == "12" + ['/'] + "25" + ['/'] + "2000";
    Split3Of("12", "25", "2000", '/');
    assert !MonthToken("25");
  }

  /** `12/25/2000` has no 25th month, so the month-first format reads it. */
  lemma MonthFirstFallback(s: string)
    requires s == "12/25/2000"
    ensures FirstParse(s, BirthdayFormats) == Some(Date(2000, 12, 25))
  {
    assert '.' !in s && '-' !in s;
    StrPTimeNeedsSeparator(s, DayMonthYear('.'));
    StrPTimeNeedsSeparator(s, YearMonthDay('-'));
    DayFirstFails(s);
    MonthFirstReads(s);
    BirthdayFormatsInOrder(s);
  }

  /** 29 February 2000 exists: 2000 is a leap year. */
  lemma LeapDay2000(s: string)
    requires s == "29.02.2000"
    ensures StrPTime(s, DayMonthYear('.')) == Some(Date(2000, 2, 29))
  {
    assert s == "29" + ['.'] + "02" + ['.'] + "2000";
    assert DecimalValue("2000") == 2000 by { YearTokenValue("2000"); }
    assert SmallValue("29") == 29 by { TwoDigitValue("29"); }
    assert SmallValue("02") == 2 by { TwoDigitValue("02"); }
    StrPTimeOfPieces(DayMonthYear('.'), "29", "02", "2000");
  }

  /** 29 February 1900 does not: a century year is a leap year only when
      divisible by 400. */
  lemma NoLeapDay1900(s: string)
    requires s == "29.02.1900"
    ensures StrPTime(s, DayMonthYear('.')).None?
  {
    assert s == "29" + ['.'] + "02" + ['.'] + "1900";
    assert DecimalValue("1900") == 1900 by { YearTokenValue("1900"); }
    assert SmallValue("29") == 29 by { TwoDigitValue("29"); }
    assert SmallValue("02") == 2 by { TwoDigitValue("02"); }
    assert !ValidDate(Date(1900, 2, 29));
    StrPTimeRejectsMissingDate(DayMonthYear('.'), "29", "02", "1900");
  }
}
