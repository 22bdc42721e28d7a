/** Calendar dates and naive date-times as Python's datetime module sees them:
    datetime.strptime(s, "%Y-%m-%d") and the ordering of datetime values. */
module Calendar {
  import opened Wrappers
  import opened Text

  datatype Date = Date(year: int, month: int, day: int)

  /** A naive datetime; `micro` is the microsecond field. */
  datatype DateTime = DateTime(date: Date, hour: int, minute: int, second: int, micro: int)

  const MinYear := 1
  const MaxYear := 9999

  predicate IsLeap(y: int) {
    y % 4 == 0 && (y % 100 != 0 || y % 400 == 0)
  }

  function DaysInMonth(y: int, m: int): (n: int)
    requires 1 <= m <= 12
    ensures 28 <= n <= 31
    ensures m == 2 ==> (n == 29 <==> IsLeap(y))
    ensures m != 2 ==> n >= 30 && (n == 30 <==> m in {4, 6, 9, 11})
  {
    if m == 2 then (if IsLeap(y) then 29 else 28)
    else if m == 4 || m == 6 || m == 9 || m == 11 then 30
    else 31
  }

  /** The dates datetime.date accepts: years 1 to 9999, real month lengths. */
  predicate ValidDate(d: Date) {
    && MinYear <= d.year <= MaxYear
    && 1 <= d.month <= 12
    && 1 <= d.day <= DaysInMonth(d.year, d.month)
  }

  predicate ValidDateTime(t: DateTime) {
    && ValidDate(t.date)
    && 0 <= t.hour < 24 && 0 <= t.minute < 60 && 0 <= t.second < 60 && 0 <= t.micro < 1000000
  }

  /** The datetime strptime builds from a bare date: that day at 00:00:00. */
  function Midnight(d: Date): (t: DateTime)
    ensures ValidDate(d) ==> ValidDateTime(t)
    ensures t.date == d
  {
    DateTime(d, 0, 0, 0, 0)
  }

  // ---------------------------------------------------------------------------
  // Ordering: datetime values compare field by field, most significant first.

  function Fields(t: DateTime): seq<int> {
    [t.date.year, t.date.month, t.date.day, t.hour, t.minute, t.second, t.micro]
  }

  /** Strict lexicographic order on equally long integer tuples. */
  predicate LexLess(a: seq<int>, b: seq<int>)
    requires |a| == |b|
  {
    |a| > 0 && (a[0] < b[0] || (a[0] == b[0] && LexLess(a[1..], b[1..])))
  }

  /** a > b for datetimes. */
  predicate Later(a: DateTime, b: DateTime) {
    LexLess(Fields(b), Fields(a))
  }

  lemma {:induction false} LexLessTransitive(a: seq<int>, b: seq<int>, c: seq<int>)
    requires |a| == |b| == |c|
    requires LexLess(a, b) && LexLess(b, c)
    ensures LexLess(a, c)
  {
    if a[0] == b[0] && b[0] == c[0] {
      LexLessTransitive(a[1..], b[1..], c[1..]);
    }
  }

  lemma {:induction false} LexLessIrreflexive(a: seq<int>)
    ensures !LexLess(a, a)
  {
    if |a| > 0 {
      LexLessIrreflexive(a[1..]);
    }
  }

  lemma {:induction false} LexLessTotal(a: seq<int>, b: seq<int>)
    requires |a| == |b|
    ensures LexLess(a, b) || a == b || LexLess(b, a)
  {
    if |a| > 0 && a[0] == b[0] {
      LexLessTotal(a[1..], b[1..]);
      if a[1..] == b[1..] {
        assert a == [a[0]] + a[1..] && b == [b[0]] + b[1..];
      }
    }
  }

  /** Later is a strict order: transitive and irreflexive. */
  lemma LaterTransitive(a: DateTime, b: DateTime, c: DateTime)
    requires Later(a, b) && Later(b, c)
    ensures Later(a, c)
  {
    LexLessTransitive(Fields(c), Fields(b), Fields(a));
  }

  lemma LaterIrreflexive(a: DateTime)
    ensures !Later(a, a)
  {
    LexLessIrreflexive(Fields(a));
  }

  /** Two distinct datetimes are ordered one way or the other. */
  lemma LaterTotal(a: DateTime, b: DateTime)
    ensures Later(a, b) || a == b || Later(b, a)
  {
    LexLessTotal(Fields(a), Fields(b));
    if Fields(a) == Fields(b) {
      assert a.date == Date(Fields(a)[0], Fields(a)[1], Fields(a)[2]);
      assert b.date == Date(Fields(b)[0], Fields(b)[1], Fields(b)[2]);
    }
  }

  /** A moment of day d is later than midnight of d exactly when it is not
      midnight itself. */
  lemma {:induction false} LaterThanMidnightSameDay(t: DateTime)
    requires ValidDateTime(t)
    ensures Later(t, Midnight(t.date)) <==> (t.hour, t.minute, t.second, t.micro) != (0, 0, 0, 0)
  {
    var p := [t.date.year, t.date.month, t.date.day];
    var x := [0, 0, 0, 0];
    var y := [t.hour, t.minute, t.second, t.micro];
    assert Fields(Midnight(t.date)) == p + x && Fields(t) == p + y;
    LexLessCommonPrefix(p, x, y);
    var x1, y1 := [0, 0, 0], [t.minute, t.second, t.micro];
    var x2, y2 := [0, 0], [t.second, t.micro];
    var x3, y3 := [0], [t.micro];
    assert x[1..] == x1 && y[1..] == y1 && x1[1..] == x2 && y1[1..] == y2;
    assert x2[1..] == x3 && y2[1..] == y3 && x3[1..] == [] && y3[1..] == [];
    assert LexLess(x3, y3) <==> 0 < t.micro;
    assert LexLess(x2, y2) <==> 0 < t.second || (0 == t.second && LexLess(x3, y3));
    assert LexLess(x1, y1) <==> 0 < t.minute || (0 == t.minute && LexLess(x2, y2));
    assert LexLess(x, y) <==> 0 < t.hour || (0 == t.hour && LexLess(x1, y1));
  }

  /** A shared prefix does not influence the order. */
  lemma {:induction false} LexLessCommonPrefix(p: seq<int>, a: seq<int>, b: seq<int>)
    requires |a| == |b|
    ensures LexLess(p + a, p + b) <==> LexLess(a, b)
  {
    if |p| > 0 {
      assert (p + a)[1..] == p[1..] + a && (p + b)[1..] == p[1..] + b;
      LexLessCommonPrefix(p[1..], a, b);
    } else {
      assert p + a == a && p + b == b;
    }
  }

  /** Day a comes before day b in the calendar. */
  predicate DateBefore(a: Date, b: Date) {
    LexLess([a.year, a.month, a.day], [b.year, b.month, b.day])
  }

  /** A moment on a later day than d is later than midnight of d, whatever its time. */
  lemma LaterDayIsLater(t: DateTime, d: Date)
    requires DateBefore(d, t.date)
    ensures Later(t, Midnight(d))
  {
    var a := Fields(Midnight(d));
    var b := Fields(t);
    assert a[..3] == [d.year, d.month, d.day] && b[..3] == [t.date.year, t.date.month, t.date.day];
    LexLessPrefix(a, b, 3);
  }

  lemma {:induction false} LexLessPrefix(a: seq<int>, b: seq<int>, k: nat)
    requires |a| == |b| && k <= |a|
    requires LexLess(a[..k], b[..k])
    ensures LexLess(a, b)
  {
    if a[0] == b[0] {
      assert a[..k][1..] == a[1..][..k - 1] && b[..k][1..] == b[1..][..k - 1];
      LexLessPrefix(a[1..], b[1..], k - 1);
    }
  }

  // ---------------------------------------------------------------------------
  // datetime.strptime(s, "%Y-%m-%d")
  //
  // The format compiles to the pattern  Y-m-d  with
  //   Y = four digits
  //   m = 1[0-2] | 0[1-9] | [1-9]
  //   d = 3[01] | [12][0-9] | 0[1-9] | [1-9] | " "[1-9]
  // matched from the start of the string; text left after the match is an error,
  // and so is a year 0 or a day past the end of its month.

  predicate InRange(c: char, lo: char, hi: char) { lo <= c <= hi }

  predicate IsMonthToken(t: string) {
    || (|t| == 1 && InRange(t[0], '1', '9'))
    || (|t| == 2 && t[0] == '1' && InRange(t[1], '0', '2'))
    || (|t| == 2 && t[0] == '0' && InRange(t[1], '1', '9'))
  }

  predicate IsDayToken(t: string) {
    || (|t| == 1 && InRange(t[0], '1', '9'))
    || (|t| == 2 && t[0] == '3' && InRange(t[1], '0', '1'))
    || (|t| == 2 && InRange(t[0], '1', '2') && IsDigit(t[1]))
    || (|t| == 2 && t[0] == '0' && InRange(t[1], '1', '9'))
    || (|t| == 2 && t[0] == ' ' && InRange(t[1], '1', '9'))
  }

  /** The ways a month m may be written: two digits, or one digit when below 10. */
  predicate MonthSpelling(t: string, m: int) {
    1 <= m <= 12 && (t == Pad(m, 2) || (m < 10 && t == [DigitChar(m)]))
  }

  /** The ways a day d may be written: two digits, or, when below 10, one digit or a
      space and one digit. */
  predicate DaySpelling(t: string, d: int) {
    1 <= d <= 31 && (t == Pad(d, 2) || (d < 10 && (t == [DigitChar(d)] || t == [' ', DigitChar(d)])))
  }

  /** int(token): the value of a one- or two-character token, a leading space ignored. */
  function TokenValue(t: string): (n: nat)
    requires IsMonthToken(t) || IsDayToken(t)
    ensures IsMonthToken(t) ==> MonthSpelling(t, n)
    ensures IsDayToken(t) ==> DaySpelling(t, n)
  {
    if |t| == 1 then OneDigitSpelling(t); DigitValue(t[0])
    else if t[0] == ' ' then SpacedDigitSpelling(t); DigitValue(t[1])
    else TwoDigitSpelling(t); 10 * DigitValue(t[0]) + DigitValue(t[1])
  }

  lemma OneDigitSpelling(t: string)
    requires |t| == 1 && InRange(t[0], '1', '9')
    ensures MonthSpelling(t, DigitValue(t[0])) && DaySpelling(t, DigitValue(t[0]))
  {
    DigitCharOf(t[0]);
    assert t == [t[0]];
  }

  lemma SpacedDigitSpelling(t: string)
    requires |t| == 2 && t[0] == ' ' && InRange(t[1], '1', '9')
    ensures DaySpelling(t, DigitValue(t[1]))
  {
    DigitCharOf(t[1]);
    assert t == [' ', t[1]];
  }

  lemma TwoDigitSpelling(t: string)
    requires |t| == 2 && IsDigit(t[0]) && IsDigit(t[1])
    ensures IsMonthToken(t) ==> MonthSpelling(t, 10 * DigitValue(t[0]) + DigitValue(t[1]))
    ensures IsDayToken(t) ==> DaySpelling(t, 10 * DigitValue(t[0]) + DigitValue(t[1]))
  {
    TwoDigitPad(t);
  }

  function YearValue(y: string): (n: nat)
    requires |y| == 4 && AllDigits(y)
    ensures n <= 9999
  {
    DecimalBound(y);
    DecimalValue(y)
  }

  /** The date from the three matched tokens, if datetime.date accepts it. */
  function BuildDate(y: string, m: string, d: string): (r: Option<Date>)
    requires |y| == 4 && AllDigits(y) && IsMonthToken(m)
    ensures r.Some? <==> IsDayToken(d) && ValidDate(Date(YearValue(y), TokenValue(m), TokenValue(d)))
    ensures r.Some? ==> r.value == Date(YearValue(y), TokenValue(m), TokenValue(d))
  {
    if !IsDayToken(d) then None
    else
      var date := Date(YearValue(y), TokenValue(m), TokenValue(d));
      if ValidDate(date) then Some(date) else None
  }

  /** datetime.strptime(s, "%Y-%m-%d").date(), or None where strptime raises ValueError. */
  function ParseIsoDate(s: string): (r: Option<Date>)
    ensures r.Some? ==> ValidDate(r.value)
    ensures r.Some? ==> 8 <= |s| <= 10 && s[..4] == Pad(r.value.year, 4) && s[4] == '-'
  {
    if |s| < 5 || !AllDigits(s[..4]) || s[4] != '-' then None
    else
      var y := s[..4];
      var rest := s[5..];
      var r :=
        if |rest| >= 2 && rest[1] == '-' && IsMonthToken(rest[..1]) then BuildDate(y, rest[..1], rest[2..])
        else if |rest| >= 3 && rest[2] == '-' && IsMonthToken(rest[..2]) then BuildDate(y, rest[..2], rest[3..])
        else None;
      if r.Some? then PadYearValue(y); r else r
  }

  // ---------------------------------------------------------------------------
  // Formatting, the inverse used by the lifecycle service: YYYY-MM-DD, zero padded.

  lemma PadYearValue(y: string)
    requires |y| == 4 && AllDigits(y)
    ensures Pad(YearValue(y), 4) == y
  {
    PadDecimalValue(y);
  }

  lemma Pad2Digits(n: nat)
    ensures Pad(n, 2) == [DigitChar(n / 10 % 10), DigitChar(n % 10)]
  {
    assert Pad(n / 10, 1) == Pad(n / 100, 0) + [DigitChar(n / 10 % 10)];
  }

  function FormatIsoDate(d: Date): string
    requires ValidDate(d)
  {
    Pad(d.year, 4) + "-" + Pad(d.month, 2) + "-" + Pad(d.day, 2)
  }

  /** Every valid date, written YYYY-MM-DD, parses back to itself. */
  lemma ParseFormatIso(d: Date)
    requires ValidDate(d)
    ensures ParseIsoDate(FormatIsoDate(d)) == Some(d)
  {
    var s := FormatIsoDate(d);
    var y, m, dd := Pad(d.year, 4), Pad(d.month, 2), Pad(d.day, 2);
    assert s[..4] == y;
    assert s[5..] == m + "-" + dd;
    assert (m + "-" + dd)[..2] == m && (m + "-" + dd)[3..] == dd;
    PadValue4(d.year);
    PadValue2(d.month);
    PadValue2(d.day);
  }

  lemma PadValue4(n: nat)
    requires n <= 9999
    ensures YearValue(Pad(n, 4)) == n
  {
    DecimalPadValue(n, 4);
  }

  lemma PadValue2(n: nat)
    requires 1 <= n <= 31
    ensures |Pad(n, 2)| == 2 && (n <= 12 ==> IsMonthToken(Pad(n, 2))) && IsDayToken(Pad(n, 2))
    ensures TokenValue(Pad(n, 2)) == n
  {
    Pad2Digits(n);
    var hi, lo := n / 10, n % 10;
    assert n == 10 * hi + lo && hi <= 3 && lo < 10;
    var t := Pad(n, 2);
    assert t == [DigitChar(hi), DigitChar(lo)];
    DigitRoundTrip(hi);
    DigitRoundTrip(lo);
    assert TokenValue(t) == 10 * hi + lo;
  }

  /** A one-digit month or day may also be written without its leading zero. */
  lemma ParseUnpaddedIso(d: Date)
    requires ValidDate(d) && d.month < 10 && d.day < 10
    ensures ParseIsoDate(Pad(d.year, 4) + "-" + [DigitChar(d.month)] + "-" + [DigitChar(d.day)]) == Some(d)
  {
    ParseSpelled(d, [DigitChar(d.month)], [DigitChar(d.day)]);
  }

  /** Anything after the day is "unconverted data": the parse fails. */
  lemma ParseRejectsTrailing(d: Date, c: char)
    requires ValidDate(d)
    ensures ParseIsoDate(FormatIsoDate(d) + [c]) == None
  {
    var s := FormatIsoDate(d) + [c];
    assert s[5..] == Pad(d.month, 2) + "-" + Pad(d.day, 2) + [c];
  }

  /** February 29 parses only in a leap year. */
  lemma ParseLeapDay(y: nat)
    requires MinYear <= y <= MaxYear
    ensures ParseIsoDate(Pad(y, 4) + "-02-29").Some? <==> IsLeap(y)
  {
    LeapDayParts(y);
    LeapDayValues();
    PadValue4(y);
    assert DaysInMonth(y, 2) == 29 <==> IsLeap(y);
  }

  lemma LeapDayParts(y: nat)
    ensures ParseIsoDate(Pad(y, 4) + "-02-29") == BuildDate(Pad(y, 4), "02", "29")
  {
    assert IsMonthToken("02");
    ParseParts(Pad(y, 4), "02", "29");
  }

  lemma LeapDayValues()
    ensures IsMonthToken("02") && TokenValue("02") == 2
    ensures IsDayToken("29") && TokenValue("29") == 29
  {
  }

  /** A four-digit year, a two-character month token and a day part, joined by dashes,
      are read as those three parts. */
  lemma ParseParts(y: string, m: string, d: string)
    requires |y| == 4 && AllDigits(y) && |m| == 2 && IsMonthToken(m)
    ensures ParseIsoDate(y + "-" + m + "-" + d) == BuildDate(y, m, d)
  {
    var s := y + "-" + m + "-" + d;
    assert s[..4] == y;
    assert s[4] == '-';
    var rest := s[5..];
    assert rest == m + "-" + d;
    assert rest[1] == m[1] && rest[2] == '-';
    assert rest[..2] == m && rest[3..] == d;
  }

  /** A four-digit year, a one-character month token and a day part, joined by
      dashes, are read as those three parts. */
  lemma ParseParts1(y: string, m: string, d: string)
    requires |y| == 4 && AllDigits(y) && |m| == 1 && IsMonthToken(m)
    ensures ParseIsoDate(y + "-" + m + "-" + d) == BuildDate(y, m, d)
  {
    var s := y + "-" + m + "-" + d;
    assert s[..4] == y;
    assert s[4] == '-';
    var rest := s[5..];
    assert rest == m + "-" + d;
    assert rest[1] == '-';
    assert rest[..1] == m && rest[2..] == d;
  }

  /** Every spelling of a month or a day is a token that reads back as its value. */
  lemma SpellingIsToken(t: string, u: string, m: int, d: int)
    requires MonthSpelling(t, m) && DaySpelling(u, d)
    ensures IsMonthToken(t) && TokenValue(t) == m
    ensures IsDayToken(u) && TokenValue(u) == d
  {
    if m < 10 {
      DigitRoundTrip(m);
    }
    PadValue2(m);
    if d < 10 {
      DigitRoundTrip(d);
    }
    PadValue2(d);
  }

  /** Every spelling of a valid date parses to that date. */
  lemma ParseSpelled(d: Date, m: string, t: string)
    requires ValidDate(d) && MonthSpelling(m, d.month) && DaySpelling(t, d.day)
    ensures ParseIsoDate(Pad(d.year, 4) + "-" + m + "-" + t) == Some(d)
  {
    var y := Pad(d.year, 4);
    SpellingIsToken(m, t, d.month, d.day);
    PadValue4(d.year);
    if |m| == 2 {
      ParseParts(y, m, t);
    } else {
      ParseParts1(y, m, t);
    }
  }

  /** A string that parses is its year, a month token and a day part, joined by
      dashes, and the date is built from those parts. */
  lemma ParseSplit(s: string) returns (m: string, t: string)
    requires ParseIsoDate(s).Some?
    ensures |s| >= 5 && AllDigits(s[..4]) && IsMonthToken(m)
    ensures s == s[..4] + "-" + m + "-" + t
    ensures BuildDate(s[..4], m, t) == ParseIsoDate(s)
  {
    var rest := s[5..];
    var k := if |rest| >= 2 && rest[1] == '-' && IsMonthToken(rest[..1]) then 1 else 2;
    m, t := rest[..k], rest[k + 1..];
    assert s == s[..4] + [s[4]] + rest;
    assert rest == m + [rest[k]] + t;
  }

  /** A string that parses is a spelling of the date it parses to. */
  lemma ParseIsSpelling(s: string)
    requires ParseIsoDate(s).Some?
    ensures var d := ParseIsoDate(s).value;
            exists m, t :: MonthSpelling(m, d.month) && DaySpelling(t, d.day) && s == Pad(d.year, 4) + "-" + m + "-" + t
  {
    var d := ParseIsoDate(s).value;
    var m, t := ParseSplit(s);
    PadYearValue(s[..4]);
    assert MonthSpelling(m, d.month) && DaySpelling(t, d.day);
  }

  /** strptime's reading of %Y-%m-%d, both ways: s parses to d exactly when d is a
      valid date and s writes its year in four digits and its month and day in one of
      their accepted spellings. Every other string is refused. */
  lemma ParseIsoDateExactly(s: string, d: Date)
    ensures ParseIsoDate(s) == Some(d) <==>
              ValidDate(d) &&
              exists m, t :: MonthSpelling(m, d.month) && DaySpelling(t, d.day) && s == Pad(d.year, 4) + "-" + m + "-" + t
  {
    if ParseIsoDate(s) == Some(d) {
      ParseIsSpelling(s);
    }
    if ValidDate(d) && exists m, t :: MonthSpelling(m, d.month) && DaySpelling(t, d.day) && s == Pad(d.year, 4) + "-" + m + "-" + t {
      var m, t :| MonthSpelling(m, d.month) && DaySpelling(t, d.day) && s == Pad(d.year, 4) + "-" + m + "-" + t;
      ParseSpelled(d, m, t);
    }
  }

  /** Year 0000 matches the pattern but datetime rejects it. */
  lemma ParseRejectsYearZero()
    ensures ParseIsoDate("0000-01-01") == None
  {
    var s := "0000-01-01";
    assert s[..4] == "0000" && s[5..] == "01-01";
    assert "0000"[..3] == "000" && "000"[..2] == "00" && "00"[..1] == "0" && "0"[..0] == "";
    assert YearValue("0000") == 0;
  }
}
