/** The command-line dates of kobe_bid_scraper.py: `validate_date`, which
    is `datetime.strptime(s, "%Y-%m-%d")`, and the start/end check in
    `main`. */
module KobeDates {
  import opened Base
  import opened Calendar

  /** `validate_date` raises a single ValueError carrying the argument. */
  datatype DateError = InvalidDate(text: string)

  /** The `%m` directive of `strptime`, `1[0-2]|0[1-9]|[1-9]`, tried in that
      order at the start of `u`: the month and the characters it consumed. */
  function MonthField(u: string): (r: Option<(int, nat)>)
    ensures r.Some? ==> 1 <= r.value.0 <= 12 && 1 <= r.value.1 <= 2 && r.value.1 <= |u|
    ensures r.Some? ==> AllDigits(u[..r.value.1]) && DigitsValue(u[..r.value.1]) == r.value.0
  {
    if |u| >= 2 && u[0] == '1' && '0' <= u[1] <= '2' then
      DigitsValueTwo(u[..2]);
      Some((10 + DigitValue(u[1]), 2))
    else if |u| >= 2 && u[0] == '0' && '1' <= u[1] <= '9' then
      DigitsValueTwo(u[..2]);
      Some((DigitValue(u[1]), 2))
    else if |u| >= 1 && '1' <= u[0] <= '9' then
      assert u[..1][..0] == [];
      Some((DigitValue(u[0]), 1))
    else
      None
  }

  /** The `%d` directive, `3[01]|[12]\d|0[1-9]|[1-9]| [1-9]`, tried in that
      order at the start of `u`: the day and the characters it consumed. */
  function DayField(u: string): (r: Option<(int, nat)>)
    ensures r.Some? ==> 1 <= r.value.0 <= 31 && 1 <= r.value.1 <= 2 && r.value.1 <= |u|
  {
    if |u| >= 2 && u[0] == '3' && '0' <= u[1] <= '1' then Some((30 + DigitValue(u[1]), 2))
    else if |u| >= 2 && '1' <= u[0] <= '2' && IsDigit(u[1]) then
      Some((10 * DigitValue(u[0]) + DigitValue(u[1]), 2))
    else if |u| >= 2 && u[0] == '0' && '1' <= u[1] <= '9' then Some((DigitValue(u[1]), 2))
    else if |u| >= 1 && '1' <= u[0] <= '9' then Some((DigitValue(u[0]), 1))
    else if |u| >= 2 && u[0] == ' ' && '1' <= u[1] <= '9' then Some((DigitValue(u[1]), 2))
    else None
  }

  /** The pattern `strptime` builds from "%Y-%m-%d" (`%Y` is exactly four
      digits), matched at the start of `s`, followed by its check that no
      text is left over. Gives the three numbers, which need not yet form
      a real date. */
  function ParseYmd(s: string): (r: Option<Date>)
    ensures r.Some? ==> 0 <= r.value.year <= 9999 && 1 <= r.value.month <= 12 && 1 <= r.value.day <= 31
  {
    if |s| < 5 || !AllDigits(s[..4]) || s[4] != '-' then None
    else
      var rest := s[5..];
      match MonthField(rest)
      case None => None
      case Some((month, mlen)) =>
        if mlen >= |rest| || rest[mlen] != '-' then None
        else
          var tail := rest[mlen + 1..];
          match DayField(tail)
          case None => None
          case Some((day, dlen)) =>
            if dlen != |tail| then None      // "unconverted data remains"
            else
              DigitsValueBound(s[..4]);
              Some(Date(DigitsValue(s[..4]), month, day))
  }

  /** `validate_date`: the parsed date, or ValueError when the text does not
      match the format or names no calendar date (February 30th, year 0). */
  function ValidateDate(s: string): (r: Result<Date, DateError>)
    ensures r.Ok? ==> Valid(r.value)
    ensures r.Err? ==> r.error == InvalidDate(s)
  {
    match ParseYmd(s)
    case Some(d) => if Valid(d) then Ok(d) else Err(InvalidDate(s))
    case None => Err(InvalidDate(s))
  }

  /** The texts `%m` reads as month `m`: its two digits, or its one digit
      when it is below ten. */
  function MonthSpellings(m: nat): set<string>
    requires 1 <= m <= 12
  {
    if m <= 9 then {ZeroPad(m, 2), [DigitChar(m)]} else {ZeroPad(m, 2)}
  }

  /** The texts `%d` reads as day `day`: its two digits, or, below ten, its
      one digit alone or after a blank. */
  function DaySpellings(day: nat): set<string>
    requires 1 <= day <= 31
  {
    if day <= 9 then {ZeroPad(day, 2), [DigitChar(day)], [' ', DigitChar(day)]}
    else {ZeroPad(day, 2)}
  }

  /** Every text `strptime(s, "%Y-%m-%d")` reads as the date `d`: four year
      digits, a dash, a month spelling, a dash, a day spelling. */
  function Spellings(d: Date): set<string>
    requires Valid(d)
  {
    set ms, ds | ms in MonthSpellings(d.month) && ds in DaySpellings(d.day) ::
      ZeroPad(d.year, 4) + "-" + ms + "-" + ds
  }

  /** `validate_date` accepts exactly the spellings of real dates, and reads
      each as the date it spells. */
  lemma ValidateDateSpellings(s: string, d: Date)
    ensures ValidateDate(s) == Ok(d) <==> Valid(d) && s in Spellings(d)
  {
    if ValidateDate(s) == Ok(d) {
      AcceptedIsSpelling(s, d);
    }
    if Valid(d) && s in Spellings(d) {
      var ms, ds :| ms in MonthSpellings(d.month) && ds in DaySpellings(d.day)
                    && s == ZeroPad(d.year, 4) + "-" + ms + "-" + ds;
      SpellingParses(d, ms, ds);
    }
  }

  /** A spelling of a real date is read as that date. */
  lemma SpellingParses(d: Date, ms: string, ds: string)
    requires Valid(d) && ms in MonthSpellings(d.month) && ds in DaySpellings(d.day)
    ensures ParseYmd(ZeroPad(d.year, 4) + "-" + ms + "-" + ds) == Some(d)
  {
    ZeroPadValue(d.year, 4);
    MonthSpellingRead(ms, ds, d.month);
    DaySpellingRead(ds, d.day);
    FieldsParse(ZeroPad(d.year, 4), ms, ds, d);
  }

  /** The pattern reads the three fields it finds in turn. */
  lemma FieldsParse(y: string, ms: string, ds: string, d: Date)
    requires |y| == 4 && AllDigits(y) && DigitsValue(y) == d.year
    requires MonthField(ms + "-" + ds) == Some((d.month, |ms|))
    requires DayField(ds) == Some((d.day, |ds|))
    ensures ParseYmd(y + "-" + ms + "-" + ds) == Some(d)
  {
    var rest := ms + "-" + ds;
    var s := y + "-" + rest;
    assert y + "-" + ms + "-" + ds == s;
    assert s[..4] == y && s[4] == '-' && s[5..] == rest;
    assert rest[|ms|] == '-' && rest[|ms| + 1..] == ds;
  }

  lemma MonthSpellingRead(ms: string, ds: string, m: nat)
    requires 1 <= m <= 12 && ms in MonthSpellings(m)
    ensures MonthField(ms + "-" + ds) == Some((m, |ms|))
  {
    var u := ms + "-" + ds;
    if ms == ZeroPad(m, 2) {
      ZeroPadTwo(m);
      var hi, lo := m / 10, m % 10;
      assert u[0] == DigitChar(hi) && u[1] == DigitChar(lo) && m == 10 * hi + lo;
      if hi == 1 {
        assert MonthField(u) == Some((10 + lo, 2));
      } else {
        assert MonthField(u) == Some((lo, 2));
      }
    } else {
      assert ms == [DigitChar(m)] && u[0] == ms[0] && u[1] == '-';
      assert MonthField(u) == Some((m, 1));
    }
  }

  lemma DaySpellingRead(ds: string, day: nat)
    requires 1 <= day <= 31 && ds in DaySpellings(day)
    ensures DayField(ds) == Some((day, |ds|))
  {
    if ds == ZeroPad(day, 2) {
      ZeroPadTwo(day);
      var hi, lo := day / 10, day % 10;
      assert ds == [DigitChar(hi), DigitChar(lo)] && day == 10 * hi + lo;
      if hi == 3 {
        assert DayField(ds) == Some((30 + lo, 2));
      } else if hi >= 1 {
        assert DayField(ds) == Some((10 * hi + lo, 2));
      } else {
        assert DayField(ds) == Some((lo, 2));
      }
    } else if ds == [DigitChar(day)] {
      assert DayField(ds) == Some((day, 1));
    } else {
      assert ds == [' ', DigitChar(day)];
      assert DayField(ds) == Some((day, 2));
    }
  }

  /** Two zero-padded digits of a number below 100: its tens, then its units. */
  lemma ZeroPadTwo(n: nat)
    requires n < 100
    ensures ZeroPad(n, 2) == [DigitChar(n / 10), DigitChar(n % 10)]
  {
    var hi := n / 10;
    assert hi / 10 == 0 && hi % 10 == hi;
    assert ZeroPad(hi, 1) == ZeroPad(0, 0) + [DigitChar(hi)];
    assert ZeroPad(n, 2) == ZeroPad(hi, 1) + [DigitChar(n % 10)];
  }

  /** What `validate_date` accepts is a spelling of the date it returns. */
  lemma AcceptedIsSpelling(s: string, d: Date)
    requires ValidateDate(s) == Ok(d)
    ensures Valid(d) && s in Spellings(d)
  {
    var rest := s[5..];
    var Some((month, mlen)) := MonthField(rest);
    var tail := rest[mlen + 1..];
    var Some((day, dlen)) := DayField(tail);
    assert d == Date(DigitsValue(s[..4]), month, day) && dlen == |tail|;
    var y := ZeroPad(d.year, 4);
    ZeroPadValue(d.year, 4);
    DigitsInjective(s[..4], y);
    var ms := rest[..mlen];
    MonthSpelled(ms, month);
    DaySpelled(tail, day);
    assert s == y + "-" + ms + "-" + tail;
  }

  lemma MonthSpelled(ms: string, m: nat)
    requires 1 <= |ms| <= 2 && AllDigits(ms) && DigitsValue(ms) == m && 1 <= m <= 12
    ensures ms in MonthSpellings(m)
  {
    if |ms| == 2 {
      ZeroPadValue(m, 2);
      DigitsInjective(ms, ZeroPad(m, 2));
    } else {
      DigitsValueBound(ms);
      var c := [DigitChar(m)];
      assert c[..0] == [];
      DigitsInjective(ms, c);
    }
  }

  lemma DaySpelled(tail: string, day: nat)
    requires DayField(tail) == Some((day, |tail|))
    ensures 1 <= day <= 31 && tail in DaySpellings(day)
  {
    if |tail| == 2 && tail[0] != ' ' {
      assert AllDigits(tail);
      DigitsValueTwo(tail);
      ZeroPadValue(day, 2);
      DigitsInjective(tail, ZeroPad(day, 2));
    } else if |tail| == 1 {
      assert tail == [DigitChar(day)];
    } else {
      assert tail == [' ', DigitChar(day)];
    }
  }

  /** Every real date, written as `YYYY-MM-DD`, is accepted as itself. */
  lemma ValidateIso(d: Date)
    requires Valid(d)
    ensures ValidateDate(Iso(d)) == Ok(d)
  {
    var s := Iso(d);
    IsoFields(d);
    IsoMonth(d);
    IsoDay(d);
    assert s[5..][3..] == s[8..];
    assert ParseYmd(s) == Some(d);
  }

  lemma IsoMonth(d: Date)
    requires Valid(d)
    ensures MonthField(Iso(d)[5..]) == Some((d.month, 2))
  {
    var s := Iso(d);
    IsoFields(d);
    var rest := s[5..];
    assert rest[..2] == s[5..7];
    DigitsValueTwo(s[5..7]);
  }

  lemma IsoDay(d: Date)
    requires Valid(d)
    ensures DayField(Iso(d)[8..]) == Some((d.day, 2))
  {
    var u := Iso(d)[8..];
    IsoFields(d);
    DigitsValueTwo(u);
    assert 10 * DigitValue(u[0]) + DigitValue(u[1]) == d.day;
    assert 1 <= d.day <= 31;
  }

  /** Among ten-character arguments without blanks, exactly the canonical
      `YYYY-MM-DD` spellings are accepted (with `ValidateIso`, an
      if-and-only-if). */
  lemma ValidateTenChars(s: string, d: Date)
    requires |s| == 10 && forall k :: 0 <= k < |s| ==> s[k] != ' '
    requires ValidateDate(s) == Ok(d)
    ensures s == Iso(d)
  {
    var rest := s[5..];
    var Some((month, mlen)) := MonthField(rest);
    var tail := rest[mlen + 1..];
    var Some((day, dlen)) := DayField(tail);
    assert mlen == 2 && dlen == 2 && tail == s[8..];
    var t := Iso(d);
    IsoFields(d);
    DigitsInjective(s[..4], t[..4]);
    MonthDigits(rest, t[5..7], d.month);
    DayDigits(tail, t[8..], d.day);
    assert s == s[..4] + "-" + rest[..2] + "-" + tail;
    assert t == t[..4] + "-" + t[5..7] + "-" + t[8..];
  }

  lemma MonthDigits(rest: string, m: string, month: int)
    requires |m| == 2 && AllDigits(m) && DigitsValue(m) == month
    requires MonthField(rest) == Some((month, 2))
    ensures rest[..2] == m
  {
    DigitsInjective(rest[..2], m);
  }

  lemma DayDigits(tail: string, t: string, day: int)
    requires |t| == 2 && AllDigits(t) && DigitsValue(t) == day
    requires |tail| == 2 && tail[0] != ' '
    requires DayField(tail) == Some((day, 2))
    ensures tail == t
  {
    DigitsValueTwo(t);
    DigitsValueTwo(tail);
    DigitsInjective(tail, t);
  }

  /** Two digit strings of the same length with the same value are equal. */
  lemma {:induction false} DigitsInjective(a: string, b: string)
    requires |a| == |b| && AllDigits(a) && AllDigits(b)
    requires DigitsValue(a) == DigitsValue(b)
    ensures a == b
  {
    if a != [] {
      var n := |a| - 1;
      assert DigitValue(a[n]) == DigitValue(b[n]);
      DigitsInjective(a[..n], b[..n]);
      assert a == a[..n] + [a[n]] && b == b[..n] + [b[n]];
    }
  }

  /** The cases exercised by the repository's unit test of `validate_date`:
      a well-formed date is accepted, */
  lemma ValidateDateExample()
    ensures ValidateDate("2025-04-01") == Ok(Date(2025, 4, 1))
  {
    Year2025();
    var a := "2025-04-01";
    assert a[..4] == "2025" && a[5..] == "04-01";
    assert "04-01"[3..] == "01";
    assert MonthField("04-01") == Some((4, 2)) by {
      assert "04-01"[..2] == "04";
    }
    assert DayField("01") == Some((1, 2));
  }

  /** slashes instead of dashes are refused, */
  lemma ValidateDateWrongSeparator()
    ensures ValidateDate("2025/04/01").Err?
  {
    assert "2025/04/01"[4] == '/';
  }

  /** and so is month 13. */
  lemma ValidateDateBadMonth()
    ensures ValidateDate("2025-13-01").Err?
  {
    var a := "2025-13-01";
    assert a[5..] == "13-01";
    assert MonthField("13-01") == Some((1, 1)) by {
      assert "13-01"[..1] == "1";
    }
    assert "13-01"[1] == '3';
  }

  lemma Year2025()
    ensures DigitsValue("2025") == 2025
  {
    assert "2025"[..3] == "202" && "202"[..2] == "20" && "20"[..1] == "2" && "2"[..0] == "";
  }

  /** `strptime` is more lenient than the `YYYY-MM-DD` its message asks
      for: one-digit months and days are read. */
  lemma ValidateDateOneDigitFields()
    ensures ValidateDate("2025-4-1") == Ok(Date(2025, 4, 1))
  {
    Year2025();
    var a := "2025-4-1";
    assert a[..4] == "2025";
    assert a[5..] == "4-1";
    assert "4-1"[2..] == "1";
    assert MonthField("4-1") == Some((4, 1));
  }

  /** A day padded with a blank instead of a zero is read too. */
  lemma ValidateDateBlankPaddedDay()
    ensures ValidateDate("2025-04- 1") == Ok(Date(2025, 4, 1))
  {
    Year2025();
    var b := "2025-04- 1";
    assert b[4] == '-';
    assert b[..4] == "2025";
    assert b[5..] == "04- 1";
    assert "04- 1"[3..] == " 1";
    assert MonthField("04- 1") == Some((4, 2)) by {
      assert "04- 1"[..2] == "04";
    }
    assert "04- 1"[2] == '-';
    assert DayField(" 1") == Some((1, 2)) by {
      assert " 1"[0] == ' ' && " 1"[1] == '1';
      assert DigitValue('1') == 1;
    }
    assert AllDigits(b[..4]);
    assert ParseYmd(b) == Some(Date(2025, 4, 1));
    assert Valid(Date(2025, 4, 1));
  }

  /** Well-formed text that names no date is refused. */
  lemma ValidateDateNoSuchDay()
    ensures ValidateDate("2025-02-30").Err?
    ensures ValidateDate("0000-01-01").Err?
  {
    var z := "0000-01-01";
    assert z[..4] == "0000";
    assert DigitsValue("0000") == 0 by {
      assert "0000"[..3] == "000" && "000"[..2] == "00" && "00"[..1] == "0" && "0"[..0] == "";
    }
  }

  /** The date range of one run of `main`. */
  datatype DateRange = DateRange(start: Date, end: Date, days: int, tooWide: bool)

  datatype RangeError = BadArgument(cause: DateError) | StartAfterEnd

  /** The date checks in `main`: both arguments through `validate_date`
      (start first), then `start_date > end_date` is an error; the range
      counts both ends, and more than 31 days draws a warning. */
  function CheckDates(startArg: string, endArg: string): (r: Result<DateRange, RangeError>)
    ensures r.Ok? ==> Valid(r.value.start) && Valid(r.value.end)
    ensures r.Ok? ==> ValidateDate(startArg) == Ok(r.value.start) && ValidateDate(endArg) == Ok(r.value.end)
    ensures r.Ok? ==> r.value.days == DayNumber(r.value.end) - DayNumber(r.value.start) + 1
    ensures r.Ok? ==> r.value.days >= 1 && (r.value.tooWide <==> r.value.days > 31)
    ensures r == Err(StartAfterEnd) <==>
              ValidateDate(startArg).Ok? && ValidateDate(endArg).Ok?
              && Before(ValidateDate(endArg).value, ValidateDate(startArg).value)
    ensures (ValidateDate(startArg).Ok? && ValidateDate(endArg).Ok?
             && !Before(ValidateDate(endArg).value, ValidateDate(startArg).value)) ==> r.Ok?
    ensures ValidateDate(startArg).Err? ==> r == Err(BadArgument(ValidateDate(startArg).error))
    ensures ValidateDate(startArg).Ok? && ValidateDate(endArg).Err? ==>
              r == Err(BadArgument(ValidateDate(endArg).error))
  {
    match ValidateDate(startArg)
    case Err(e) => Err(BadArgument(e))
    case Ok(start) =>
      match ValidateDate(endArg)
      case Err(e) => Err(BadArgument(e))
      case Ok(end) =>
        if Before(end, start) then Err(StartAfterEnd)
        else
          DayNumberOrder(start, end);
          var days := DayNumber(end) - DayNumber(start) + 1;
          Ok(DateRange(start, end, days, days > 31))
  }

  /** The range is one day exactly when start and end are the same date,
      and within one month it is the difference of the days plus one. */
  lemma RangeLength(startArg: string, endArg: string)
    requires CheckDates(startArg, endArg).Ok?
    ensures var r := CheckDates(startArg, endArg).value;
            (r.days == 1 <==> r.start == r.end)
            && (r.start.year == r.end.year && r.start.month == r.end.month ==> r.days == r.end.day - r.start.day + 1)
  {
    var r := CheckDates(startArg, endArg).value;
    DayNumberOrder(r.start, r.end);
    if r.start.year == r.end.year && r.start.month == r.end.month {
      SameMonthDistance(r.start, r.end);
    }
  }
}
