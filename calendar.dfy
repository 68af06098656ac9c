/** Calendar dates as `datetime.strptime(text, "%Y-%m-%d")` accepts them
    (main.py, the date check of `add_expense`), and the zero-padded text that
    `strftime("%Y-%m-%d")` writes for the form's default date. */
module Calendar {
  import opened Wrappers
  import opened Text
  import opened Digits

  datatype Date = Date(year: int, month: int, day: int)

  /** Gregorian leap years, as Python's `calendar.isleap`. */
  predicate IsLeapYear(y: int) {
    y % 4 == 0 && (y % 100 != 0 || y % 400 == 0)
  }

  function DaysInMonth(y: int, m: int): (n: int)
    requires 1 <= m <= 12
    ensures 28 <= n <= 31
    ensures n == 29 <==> m == 2 && IsLeapYear(y)
  {
    if m == 2 then (if IsLeapYear(y) then 29 else 28)
    else if m == 4 || m == 6 || m == 9 || m == 11 then 30
    else 31
  }

  /** The dates Python's `datetime.date` can represent. */
  predicate IsValidDate(d: Date) {
    && 1 <= d.year <= 9999
    && 1 <= d.month <= 12
    && 1 <= d.day <= DaysInMonth(d.year, d.month)
  }

  /** Strictly earlier in the calendar. */
  predicate DateBefore(a: Date, b: Date) {
    || a.year < b.year
    || (a.year == b.year && a.month < b.month)
    || (a.year == b.year && a.month == b.month && a.day < b.day)
  }

  /** The `%m` directive's pattern `1[0-2]|0[1-9]|[1-9]`, tried on a prefix of
      `s` alternative by alternative: the month and how many characters it took. */
  function MatchMonth(s: string): (r: Option<(int, nat)>)
    ensures r.Some? ==> 1 <= r.value.0 <= 12 && 1 <= r.value.1 <= |s|
  {
    if |s| >= 2 && s[0] == '1' && '0' <= s[1] <= '2' then Some((10 + DigitValue(s[1]), 2))
    else if |s| >= 2 && s[0] == '0' && '1' <= s[1] <= '9' then Some((DigitValue(s[1]), 2))
    else if |s| >= 1 && '1' <= s[0] <= '9' then Some((DigitValue(s[0]), 1))
    else None
  }

  /** The `%d` directive's pattern `3[01]|[12]\d|0[1-9]|[1-9]| [1-9]`, tried the
      same way; the last alternative admits a space-padded day such as " 5". */
  function MatchDay(s: string): (r: Option<(int, nat)>)
    ensures r.Some? ==> 1 <= r.value.0 <= 31 && 1 <= r.value.1 <= |s|
  {
    if |s| >= 2 && s[0] == '3' && '0' <= s[1] <= '1' then Some((30 + DigitValue(s[1]), 2))
    else if |s| >= 2 && '1' <= s[0] <= '2' && IsDigit(s[1]) then Some((10 * DigitValue(s[0]) + DigitValue(s[1]), 2))
    else if |s| >= 2 && s[0] == '0' && '1' <= s[1] <= '9' then Some((DigitValue(s[1]), 2))
    else if |s| >= 1 && '1' <= s[0] <= '9' then Some((DigitValue(s[0]), 1))
    else if |s| >= 2 && s[0] == ' ' && '1' <= s[1] <= '9' then Some((DigitValue(s[1]), 2))
    else None
  }

  /** The regular expression `strptime` builds for "%Y-%m-%d" (`%Y` is exactly
      four digits), followed by its "unconverted data remains" check that the
      match used the whole text. The month is always followed by '-', so taking
      the first month alternative that matches loses no match backtracking would
      find; the day ends the pattern, so its first matching alternative is the
      one the regular expression reports. */
  function MatchFormat(s: string): (r: Option<Date>)
    ensures r.Some? ==> 0 <= r.value.year <= 9999 && 1 <= r.value.month <= 12 && 1 <= r.value.day <= 31
  {
    if |s| < 5 || !AllDigits(s[..4]) || s[4] != '-' then None
    else
      match MatchMonth(s[5..])
      case None => None
      case Some((m, k)) =>
        var rest := s[5 + k..];
        if rest == [] || rest[0] != '-' then None
        else
          match MatchDay(rest[1..])
          case None => None
          case Some((d, j)) =>
            if j == |rest| - 1 then Some(Date(ValueOf(s[..4]), m, d)) else None
  }

  /** `datetime.strptime(s, "%Y-%m-%d")`: the text matches the format and names
      a real date (year 0 and days past the end of the month raise `ValueError`). */
  function ParseDate(s: string): (r: Option<Date>)
    ensures r.Some? ==> IsValidDate(r.value)
  {
    match MatchFormat(s)
    case None => None
    case Some(d) => if IsValidDate(d) then Some(d) else None
  }

  /** `strftime("%Y-%m-%d")` for years from 1000 on: zero-padded ISO text. */
  function FormatDate(d: Date): (s: string)
    requires IsValidDate(d)
    ensures |s| == 10
  {
    Padded(d.year, 4) + ("-" + (Padded(d.month, 2) + ("-" + Padded(d.day, 2))))
  }

  lemma PaddedTwo(n: nat)
    requires n < 100
    ensures Padded(n, 2) == [DigitChar(n / 10), DigitChar(n % 10)]
  {
    var q := n / 10;
    assert q < 10 && q % 10 == q;
    assert Padded(q, 1) == Padded(q / 10, 0) + [DigitChar(q)];
  }

  /** Every valid date written in ISO form is read back by the date check. */
  lemma ParseFormatDate(d: Date)
    requires IsValidDate(d)
    ensures ParseDate(FormatDate(d)) == Some(d)
  {
    var s := FormatDate(d);
    var y, mm, dd := Padded(d.year, 4), Padded(d.month, 2), Padded(d.day, 2);
    assert s == y + ("-" + (mm + ("-" + dd)));
    assert |y| == 4 && |mm| == 2 && |dd| == 2;
    ValueOfPadded(d.year, 4);
    PaddedTwo(d.month);
    PaddedTwo(d.day);
    assert s[..4] == y && s[4] == '-' && s[7] == '-';
    assert s[5..][0] == mm[0] && s[5..][1] == mm[1];
    assert MatchMonth(s[5..]) == Some((d.month, 2));
    assert s[8..] == dd;
    assert MatchDay(s[8..]) == Some((d.day, 2));
    ParseDateOf(s, 2, 2, d);
  }

  /** Text shaped like `YYYY-MM-DD`: ASCII digits in the field positions and
      hyphens between them. */
  predicate IsCanonicalText(s: string) {
    && |s| == 10 && AllDigits(s[..4]) && s[4] == '-' && s[7] == '-'
    && AllDigits(s[5..7]) && AllDigits(s[8..])
  }

  /** The converse of `ParseFormatDate`: a text shaped like `YYYY-MM-DD` that
      the date check accepts is exactly the ISO text of the date it yields. */
  lemma AcceptedCanonicalText(s: string, d: Date)
    requires IsCanonicalText(s) && ParseDate(s) == Some(d)
    ensures FormatDate(d) == s
  {
    var y, mm, dd := s[..4], s[5..7], s[8..];
    assert s[5..][0] == s[5] && s[5..][1] == s[6] && s[5..][2] == '-';
    assert IsDigit(mm[0]) && IsDigit(mm[1]) && mm[..1] == [s[5]];
    assert IsDigit(dd[0]) && IsDigit(dd[1]) && dd[..1] == [s[8]];
    assert ValueOf(mm) == 10 * DigitValue(s[5]) + DigitValue(s[6]);
    assert ValueOf(dd) == 10 * DigitValue(s[8]) + DigitValue(s[9]);
    assert MatchMonth(s[5..]) == Some((ValueOf(mm), 2));
    assert s[7..][1..] == dd;
    assert MatchDay(dd) == Some((ValueOf(dd), 2));
    assert d == Date(ValueOf(y), ValueOf(mm), ValueOf(dd));
    PaddedValueOf(y);
    PaddedValueOf(mm);
    PaddedValueOf(dd);
    assert s == y + ("-" + (mm + ("-" + dd)));
  }

  /** Among texts shaped like `YYYY-MM-DD`, the date check accepts exactly
      the ISO texts of real dates. */
  lemma CanonicalTextAccepted(s: string, d: Date)
    requires IsCanonicalText(s)
    ensures ParseDate(s) == Some(d) <==> IsValidDate(d) && FormatDate(d) == s
  {
    if ParseDate(s) == Some(d) {
      AcceptedCanonicalText(s, d);
    }
    if IsValidDate(d) && FormatDate(d) == s {
      ParseFormatDate(d);
    }
  }

  lemma PaddedInjective(x: nat, y: nat, width: nat)
    requires x < Pow10(width) && y < Pow10(width)
    ensures Padded(x, width) == Padded(y, width) <==> x == y
  {
    ValueOfPadded(x, width);
    ValueOfPadded(y, width);
  }

  /** For dates in ISO form, SQLite's text order is the calendar order, so
      `ORDER BY date DESC` lists the newest day first. */
  lemma CanonicalTextOrderIsChronological(a: Date, b: Date)
    requires IsValidDate(a) && IsValidDate(b)
    ensures LexLess(FormatDate(a), FormatDate(b)) <==> DateBefore(a, b)
  {
    var da, db := Padded(a.day, 2), Padded(b.day, 2);
    var ma, mb := Padded(a.month, 2), Padded(b.month, 2);
    PaddedOrder(a.year, b.year, 4);
    PaddedOrder(a.month, b.month, 2);
    PaddedOrder(a.day, b.day, 2);
    PaddedInjective(a.year, b.year, 4);
    PaddedInjective(a.month, b.month, 2);
    LexLessConcat("-", da, "-", db);
    LexLessConcat(ma, "-" + da, mb, "-" + db);
    LexLessConcat("-", ma + ("-" + da), "-", mb + ("-" + db));
    LexLessConcat(Padded(a.year, 4), "-" + (ma + ("-" + da)), Padded(b.year, 4), "-" + (mb + ("-" + db)));
    LexLessIrreflexive("-");
  }

  /** The value of a four-digit year field. */
  lemma ValueOfFour(s: string)
    requires |s| == 4 && AllDigits(s)
    ensures ValueOf(s) == 1000 * DigitValue(s[0]) + 100 * DigitValue(s[1]) + 10 * DigitValue(s[2]) + DigitValue(s[3])
  {
    assert s[..3][..2] == s[..2] && s[..2][..1] == s[..1] && s[..1][..0] == [];
    assert ValueOf(s[..1]) == DigitValue(s[0]);
    assert ValueOf(s[..2]) == 10 * DigitValue(s[0]) + DigitValue(s[1]);
    assert ValueOf(s[..3]) == 100 * DigitValue(s[0]) + 10 * DigitValue(s[1]) + DigitValue(s[2]);
    assert s[..4] == s;
  }

  /** Unfolds the date check on a text whose year, month and day fields have
      already been matched. */
  lemma ParseDateOf(s: string, k: nat, j: nat, d: Date)
    requires |s| == 6 + k + j && AllDigits(s[..4]) && s[4] == '-' && s[5 + k] == '-'
    requires MatchMonth(s[5..]) == Some((d.month, k))
    requires MatchDay(s[6 + k..]) == Some((d.day, j))
    requires ValueOf(s[..4]) == d.year
    ensures ParseDate(s) == if IsValidDate(d) then Some(d) else None
  {
    var rest := s[5 + k..];
    assert rest[0] == '-' && rest[1..] == s[6 + k..];
  }

  lemma AcceptedOneDigitMonth()
    ensures ParseDate("2024-9-30") == Some(Date(2024, 9, 30))
  {
    ValueOfFour("2024");
    var s := "2024-9-30";
    assert s[..4] == "2024" && s[5..] == "9-30" && s[7..] == "30";
    ParseDateOf(s, 1, 2, Date(2024, 9, 30));
  }

  lemma AcceptedFirstOfOctober()
    ensures ParseDate("2024-10-01") == Some(Date(2024, 10, 1))
  {
    ValueOfFour("2024");
    var t := "2024-10-01";
    assert t[..4] == "2024" && t[5..] == "10-01" && t[8..] == "01";
    ParseDateOf(t, 2, 2, Date(2024, 10, 1));
  }

  /** The check also accepts one-digit months and days. Stored as typed, such
      text breaks the agreement above: 30 September sorts as later text than
      1 October, so the newest-first listing shows it first. */
  lemma UnpaddedTextOrderIsNotChronological()
    ensures ParseDate("2024-9-30") == Some(Date(2024, 9, 30))
    ensures ParseDate("2024-10-01") == Some(Date(2024, 10, 1))
    ensures DateBefore(Date(2024, 9, 30), Date(2024, 10, 1))
    ensures LexLess("2024-10-01", "2024-9-30")
  {
    AcceptedOneDigitMonth();
    AcceptedFirstOfOctober();
    assert "2024-10-01" == "2024-" + "10-01" && "2024-9-30" == "2024-" + "9-30";
    LexLessConcat("2024-", "10-01", "2024-", "9-30");
    LexLessIrreflexive("2024-");
  }

  lemma RejectedMonth()
    ensures ParseDate("2024-13-01") == None
  {
    var s := "2024-13-01";
    assert s[5..] == "13-01";
    assert MatchMonth("13-01") == Some((1, 1));
    assert s[6..] == "3-01";
  }

  lemma RejectedSeparator()
    ensures ParseDate("2024/01/15") == None
  {
  }

  lemma RejectedDay32()
    ensures ParseDate("2024-01-32") == None
  {
    var s := "2024-01-32";
    assert s[5..] == "01-32" && s[8..] == "32";
    assert MatchDay("32") == Some((3, 1));
  }

  /** 30 February never exists. */
  lemma RejectedFebruary30()
    ensures ParseDate("2024-02-30") == None
  {
    var s := "2024-02-30";
    ValueOfFour("2024");
    assert s[..4] == "2024" && s[5..] == "02-30" && s[8..] == "30";
    ParseDateOf(s, 2, 2, Date(2024, 2, 30));
  }

  /** 29 February outside a leap year. */
  lemma RejectedLeapDay2023()
    ensures ParseDate("2023-02-29") == None
  {
    var s := "2023-02-29";
    ValueOfFour("2023");
    assert s[..4] == "2023" && s[5..] == "02-29" && s[8..] == "29";
    ParseDateOf(s, 2, 2, Date(2023, 2, 29));
  }

  /** 1900 is divisible by 100 but not by 400, so it has no 29 February. */
  lemma RejectedLeapDay1900()
    ensures ParseDate("1900-02-29") == None
  {
    var s := "1900-02-29";
    ValueOfFour("1900");
    assert s[..4] == "1900" && s[5..] == "02-29" && s[8..] == "29";
    ParseDateOf(s, 2, 2, Date(1900, 2, 29));
  }

  /** Year zero matches `%Y` but is outside `datetime`'s range. */
  lemma RejectedYearZero()
    ensures ParseDate("0000-01-01") == None
  {
    var s := "0000-01-01";
    ValueOfFour("0000");
    assert s[..4] == "0000" && s[5..] == "01-01" && s[8..] == "01";
    ParseDateOf(s, 2, 2, Date(0, 1, 1));
  }

  /** The leap day of 2024. */
  lemma AcceptedLeapDay2024()
    ensures ParseDate("2024-02-29") == Some(Date(2024, 2, 29))
  {
    var a := "2024-02-29";
    ValueOfFour("2024");
    assert a[..4] == "2024" && a[5..] == "02-29" && a[8..] == "29";
    ParseDateOf(a, 2, 2, Date(2024, 2, 29));
  }

  /** The leap day of 2000, a century divisible by 400. */
  lemma AcceptedLeapDay2000()
    ensures ParseDate("2000-02-29") == Some(Date(2000, 2, 29))
  {
    var b := "2000-02-29";
    ValueOfFour("2000");
    assert b[..4] == "2000" && b[5..] == "02-29" && b[8..] == "29";
    ParseDateOf(b, 2, 2, Date(2000, 2, 29));
  }

  /** `strptime` also takes one-digit month and day fields... */
  lemma AcceptedOneDigitFields()
    ensures ParseDate("2024-1-5") == Some(Date(2024, 1, 5))
  {
    var c := "2024-1-5";
    ValueOfFour("2024");
    assert c[..4] == "2024" && c[5..] == "1-5" && c[7..] == "5";
    ParseDateOf(c, 1, 1, Date(2024, 1, 5));
  }

  /** ... and a day written as a space and one digit. */
  lemma AcceptedSpacePaddedDay()
    ensures ParseDate("2024-01- 5") == Some(Date(2024, 1, 5))
  {
    var e := "2024-01- 5";
    ValueOfFour("2024");
    assert e[..4] == "2024" && e[5..] == "01- 5" && e[8..] == " 5";
    ParseDateOf(e, 2, 2, Date(2024, 1, 5));
  }
}
