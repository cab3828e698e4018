/** scraping_auto.py: it reads a start and an end date, then runs the
    scraper once per window of at most one calendar month, from the start
    to the end. The scraper run for a window (`subprocess.run`) is outside
    the model: the sequence of windows is what the loop hands to it. */
module ScrapingAuto {
  import opened Base
  import opened Calendar

  /** Python's `s.split(sep)` for a one-character separator: the pieces
      between separators, empty ones included. */
  function Split(s: string, sep: char): (parts: seq<string>)
    ensures |parts| >= 1
    ensures forall i :: 0 <= i < |parts| ==> sep !in parts[i]
  {
    if s == [] then [""]
    else
      var rest := Split(s[1..], sep);
      if s[0] == sep then [""] + rest
      else [[s[0]] + rest[0]] + rest[1..]
  }

  /** `sep.join(parts)`, the inverse of `Split`. */
  function Join(parts: seq<string>, sep: char): string
    requires |parts| >= 1
  {
    if |parts| == 1 then parts[0] else parts[0] + [sep] + Join(parts[1..], sep)
  }

  lemma {:induction false} JoinSplit(s: string, sep: char)
    ensures Join(Split(s, sep), sep) == s
  {
    if s != [] {
      JoinSplit(s[1..], sep);
      var rest := Split(s[1..], sep);
      if s[0] != sep && |rest| > 1 {
        assert Join(rest, sep) == rest[0] + [sep] + Join(rest[1..], sep);
      }
    }
  }

  lemma {:induction false} SplitJoin(parts: seq<string>, sep: char)
    requires |parts| >= 1 && forall i :: 0 <= i < |parts| ==> sep !in parts[i]
    ensures Split(Join(parts, sep), sep) == parts
  {
    if |parts| == 1 {
      SplitNoSeparator(parts[0], [], sep);
      assert Split([], sep) == [""];
      assert parts[0] + [] == parts[0] && parts[0] + "" == parts[0];
      assert [parts[0]] == parts;
    } else {
      var tail := Join(parts[1..], sep);
      SplitJoin(parts[1..], sep);
      assert ([sep] + tail)[1..] == tail;
      var after := Split([sep] + tail, sep);
      assert after == [""] + parts[1..];
      assert after[0] == "" && after[1..] == parts[1..];
      SplitNoSeparator(parts[0], [sep] + tail, sep);
      assert Join(parts, sep) == parts[0] + ([sep] + tail);
      assert parts[0] + after[0] == parts[0];
      assert [parts[0]] + parts[1..] == parts;
    }
  }

  /** Text without the separator joins the first piece of what follows it. */
  lemma {:induction false} SplitNoSeparator(p: string, r: string, sep: char)
    requires sep !in p
    requires r == [] || r[0] == sep
    ensures var parts := Split(r, sep); Split(p + r, sep) == [p + parts[0]] + parts[1..]
  {
    if p != [] {
      var parts := Split(r, sep);
      SplitNoSeparator(p[1..], r, sep);
      assert (p + r)[1..] == p[1..] + r;
      var rest := Split(p[1..] + r, sep);
      assert rest == [p[1..] + parts[0]] + parts[1..];
      assert (p + r)[0] == p[0] && p[0] != sep;
      assert Split(p + r, sep) == [[p[0]] + rest[0]] + rest[1..];
      assert [p[0]] + (p[1..] + parts[0]) == p + parts[0];
    } else {
      var parts := Split(r, sep);
      assert p + r == r && p + parts[0] == parts[0];
      assert [parts[0]] + parts[1..] == parts;
    }
  }

  /** The blanks `int()` skips around its digits: Python's `isspace` set
      without U+001C..U+001F. `int()` first turns every non-ASCII blank
      into a space, then skips only tab, line feed, vertical tab, form
      feed, carriage return and space, so the four ASCII separators stay
      and make the text no number. */
  predicate IntBlank(c: char) {
    IsSpace(c) && !('\U{1c}' <= c <= '\U{1f}')
  }

  /** The index of the first character of `s` at or after `i` that is not
      an `int()` blank, or |s| when there is none. */
  function SkipIntBlanks(s: string, i: nat): (n: nat)
    requires i <= |s|
    ensures i <= n <= |s|
    ensures forall k :: i <= k < n ==> IntBlank(s[k])
    ensures n == |s| || !IntBlank(s[n])
    decreases |s| - i
  {
    if i < |s| && IntBlank(s[i]) then SkipIntBlanks(s, i + 1) else i
  }

  /** The index just past the last character of `s[lo..j]` that is not an
      `int()` blank, or `lo` when there is none. */
  function TrimIntBlanks(s: string, lo: nat, j: nat): (n: nat)
    requires lo <= j <= |s|
    ensures lo <= n <= j
    ensures forall k :: n <= k < j ==> IntBlank(s[k])
    ensures n == lo || !IntBlank(s[n - 1])
    decreases j
  {
    if j > lo && IntBlank(s[j - 1]) then TrimIntBlanks(s, lo, j - 1) else j
  }

  /** What `int()` parses: `text` without its `int()` blanks at both ends. */
  function IntBody(text: string): (r: string)
    ensures var i := SkipIntBlanks(text, 0);
            && i + |r| <= |text| && r == text[i..i + |r|]
            && (forall k :: 0 <= k < i ==> IntBlank(text[k]))
            && (forall k :: i + |r| <= k < |text| ==> IntBlank(text[k]))
    ensures r == [] || (!IntBlank(r[0]) && !IntBlank(r[|r| - 1]))
  {
    var i := SkipIntBlanks(text, 0);
    text[i..TrimIntBlanks(text, i, |text|)]
  }

  /** The most digits `int()` converts (CPython's default
      `sys.int_info.default_max_str_digits`); a longer run is a ValueError. */
  const MaxStrDigits: nat := 4300

  /** Python's `int(text)` on decimal text: optional blanks around, an
      optional sign, then one to `MaxStrDigits` ASCII digits. */
  function PyInt(text: string): (r: Option<int>)
    ensures r.Some? ==> IntBody(text) != []
  {
    var t := IntBody(text);
    var signed := |t| > 0 && (t[0] == '+' || t[0] == '-');
    var digits := if signed then t[1..] else t;
    if digits != [] && AllDigits(digits) && |digits| <= MaxStrDigits then
      var v: int := DigitsValue(digits);
      Some(if signed && t[0] == '-' then -v else v)
    else None
  }

  lemma PyIntDigits(s: string)
    requires s != [] && AllDigits(s) && |s| <= MaxStrDigits
    ensures PyInt(s) == Some(DigitsValue(s))
  {
    IntBodyOfDigits(s);
  }

  /** More digits than `int()` converts is the ValueError, however small
      the number they denote. */
  lemma PyIntTooLong(s: string)
    requires AllDigits(s) && |s| > MaxStrDigits
    ensures PyInt(s) == None
  {
    IntBodyOfDigits(s);
  }

  lemma IntBodyOfDigits(s: string)
    requires s != [] && AllDigits(s)
    ensures IntBody(s) == s && s[0] != '+' && s[0] != '-'
  {
    assert IsDigit(s[0]) && IsDigit(s[|s| - 1]);
    assert SkipIntBlanks(s, 0) == 0;
    assert TrimIntBlanks(s, 0, |s|) == |s|;
  }

  /** An ASCII separator (U+001C..U+001F) in front of the text is not
      skipped: the text is no number, although `str.strip()` would remove
      it. */
  lemma PyIntSeparatorFirst(c: char, s: string)
    requires '\U{1c}' <= c <= '\U{1f}'
    ensures PyInt([c] + s) == None
    ensures IsSpace(c)
  {
    var text := [c] + s;
    assert text[0] == c && !IntBlank(c);
    assert SkipIntBlanks(text, 0) == 0;
    assert TrimIntBlanks(text, 0, |text|) >= 1;
    var t := IntBody(text);
    assert t[0] == c && !IsDigit(c);
  }

  lemma Join3(a: string, b: string, c: string, sep: char)
    ensures Join([a, b, c], sep) == a + [sep] + b + [sep] + c
  {
    assert [a, b, c][1..] == [b, c] && [b, c][1..] == [c];
    assert Join([c], sep) == c;
    assert Join([b, c], sep) == b + [sep] + c;
    assert Join([a, b, c], sep) == a + [sep] + (b + [sep] + c);
  }

  /** Every way `parse_date` fails. The first three are ValueError; the
      last is the OverflowError `datetime.date` raises when a part does not
      fit the C `int` it converts its arguments to. */
  datatype ParseError = NotThreeParts | NotAnInteger | NoSuchDate | IntOverflow

  /** The range of a C `int`. */
  const CIntMin: int := -0x8000_0000
  const CIntMax: int := 0x7fff_ffff

  predicate FitsCInt(v: int) {
    CIntMin <= v <= CIntMax
  }

  /** `parse_date`: split on '-', exactly three parts, each through `int`;
      then `datetime.date(y, m, d)` converts the three to C ints and the
      date must exist. */
  function ParseDate(arg: string): (r: Result<Date, ParseError>)
    ensures r.Ok? ==> Valid(r.value)
    ensures r == Err(NotThreeParts) <==> |Split(arg, '-')| != 3
    ensures r.Ok? ==> (var p := Split(arg, '-');
                       PyInt(p[0]) == Some(r.value.year) && PyInt(p[1]) == Some(r.value.month)
                       && PyInt(p[2]) == Some(r.value.day))
  {
    var parts := Split(arg, '-');
    if |parts| != 3 then Err(NotThreeParts)
    else
      match (PyInt(parts[0]), PyInt(parts[1]), PyInt(parts[2]))
      case (Some(y), Some(m), Some(d)) =>
        if !(FitsCInt(y) && FitsCInt(m) && FitsCInt(d)) then Err(IntOverflow)
        else if Valid(Date(y, m, d)) then Ok(Date(y, m, d)) else Err(NoSuchDate)
      case _ => Err(NotAnInteger)
  }

  /** What `strftime("%Y-%m-%d")` wrote, `parse_date` reads back. */
  lemma ParseDateIso(d: Date)
    requires Valid(d)
    ensures ParseDate(Iso(d)) == Ok(d)
  {
    var s := Iso(d);
    var y, m, dd := s[..4], s[5..7], s[8..];
    IsoFields(d);
    assert s == y + "-" + m + "-" + dd;
    ParseDateOverflow(y, m, dd);
  }

  /** Three dash-separated runs of at most `MaxStrDigits` digits overflow
      exactly when one of them is above the largest C `int`; otherwise they
      give a date or the ValueError for a non-existent one. */
  lemma ParseDateOverflow(y: string, m: string, d: string)
    requires y != [] && m != [] && d != [] && AllDigits(y) && AllDigits(m) && AllDigits(d)
    requires |y| <= MaxStrDigits && |m| <= MaxStrDigits && |d| <= MaxStrDigits
    ensures ParseDate(y + "-" + m + "-" + d) == Err(IntOverflow) <==>
              DigitsValue(y) > CIntMax || DigitsValue(m) > CIntMax || DigitsValue(d) > CIntMax
    ensures ParseDate(y + "-" + m + "-" + d) != Err(IntOverflow) ==>
              var date := Date(DigitsValue(y), DigitsValue(m), DigitsValue(d));
              ParseDate(y + "-" + m + "-" + d) == if Valid(date) then Ok(date) else Err(NoSuchDate)
  {
    DigitParts(y, m, d);
    PyIntDigits(y);
    PyIntDigits(m);
    PyIntDigits(d);
    ParseDateOfParts(y + "-" + m + "-" + d, DigitsValue(y), DigitsValue(m), DigitsValue(d));
  }

  /** `parse_date` once `int` has read the three parts: one branch of
      `ParseDate` stated on its own, a step that keeps the proof of
      `ParseDateOverflow` small rather than a property of its own. */
  lemma ParseDateOfParts(arg: string, y: int, m: int, d: int)
    requires |Split(arg, '-')| == 3
    requires var p := Split(arg, '-'); PyInt(p[0]) == Some(y) && PyInt(p[1]) == Some(m) && PyInt(p[2]) == Some(d)
    ensures ParseDate(arg) == if !(FitsCInt(y) && FitsCInt(m) && FitsCInt(d)) then Err(IntOverflow)
                              else if Valid(Date(y, m, d)) then Ok(Date(y, m, d)) else Err(NoSuchDate)
  {
  }

  /** A run of more than `MaxStrDigits` digits is a format error, not an
      overflow: `int()` refuses it before `datetime.date` sees a number. */
  lemma ParseDateTooLong(y: string, m: string, d: string)
    requires AllDigits(y) && AllDigits(m) && AllDigits(d)
    requires |y| > MaxStrDigits || |m| > MaxStrDigits || |d| > MaxStrDigits
    ensures ParseDate(y + "-" + m + "-" + d) == Err(NotAnInteger)
  {
    var s := y + "-" + m + "-" + d;
    DigitParts(y, m, d);
    var parts := Split(s, '-');
    assert parts[0] == y && parts[1] == m && parts[2] == d;
    if |y| > MaxStrDigits {
      PyIntTooLong(y);
    } else if |m| > MaxStrDigits {
      PyIntTooLong(m);
    } else {
      PyIntTooLong(d);
    }
  }

  /** A file separator in front of the year makes the argument a format
      error, where `str.strip()` would have dropped it. */
  lemma ParseDateSeparatorFirst(y: string, m: string, d: string)
    requires AllDigits(y) && AllDigits(m) && AllDigits(d)
    ensures ParseDate("\U{1c}" + y + "-" + m + "-" + d) == Err(NotAnInteger)
  {
    var first := "\U{1c}" + y;
    NoDash(y);
    NoDash(m);
    NoDash(d);
    assert '-' !in first by {
      assert forall k :: 1 <= k < |first| ==> first[k] == y[k - 1];
    }
    SplitJoin([first, m, d], '-');
    Join3(first, m, d, '-');
    assert "\U{1c}" + y + "-" + m + "-" + d == first + "-" + m + "-" + d;
    PyIntSeparatorFirst('\U{1c}', y);
  }

  /** Three runs of digits joined by dashes split back into the three. */
  lemma DigitParts(y: string, m: string, d: string)
    requires AllDigits(y) && AllDigits(m) && AllDigits(d)
    ensures Split(y + "-" + m + "-" + d, '-') == [y, m, d]
  {
    NoDash(y);
    NoDash(m);
    NoDash(d);
    SplitJoin([y, m, d], '-');
    Join3(y, m, d, '-');
  }

  lemma NoDash(s: string)
    requires AllDigits(s)
    ensures '-' !in s
  {
    forall k | 0 <= k < |s| ensures s[k] != '-' {
      assert IsDigit(s[k]);
    }
  }

  /** Slashes are not the separator: the text is a single part. */
  lemma ParseDateSlashes()
    ensures ParseDate("2024/1/1") == Err(NotThreeParts)
  {
    SplitJoin(["2024/1/1"], '-');
  }

  /** Two parts are not enough. */
  lemma ParseDateTwoParts()
    ensures ParseDate("2024-1") == Err(NotThreeParts)
  {
    SplitJoin(["2024", "1"], '-');
    assert ["2024", "1"][1..] == ["1"];
    assert Join(["2024", "1"], '-') == "2024-1";
  }

  /** Month 13 is not a date, whatever `int` made of the parts. */
  lemma ParseDateRefusesMonth13(y: string, d: string)
    requires '-' !in y && '-' !in d
    ensures ParseDate(y + "-13-" + d).Err?
  {
    SplitJoin([y, "13", d], '-');
    Join3(y, "13", d, '-');
    assert y + "-" + "13" + "-" + d == y + "-13-" + d;
    assert "13"[..1] == "1";
    PyIntDigits("13");
  }

  function Min(a: int, b: int): int {
    if a <= b then a else b
  }

  /** `add_month`: the same day of the next month, clamped to that month's
      length. `datetime.date` raises when the year passes 9999. */
  function AddMonth(d: Date): (r: Option<Date>)
    requires Valid(d)
    ensures r.Some? <==> d.year < MaxYear || d.month < 12
    ensures r.Some? ==> Valid(r.value) && Before(d, r.value) && r.value.day <= d.day
  {
    var year := d.year + d.month / 12;
    var month := d.month % 12 + 1;
    var day := Min(d.day, DaysInMonth(year, month));
    if year > MaxYear then None else Some(Date(year, month, day))
  }

  /** The calendar meaning of `add_month`'s arithmetic: the month after,
      a new year only after December, the day kept unless the next month
      is shorter. */
  lemma AddMonthCalendar(d: Date)
    requires Valid(d) && AddMonth(d).Some?
    ensures var r := AddMonth(d).value;
            && (d.month < 12 ==> r.year == d.year && r.month == d.month + 1)
            && (d.month == 12 ==> r.year == d.year + 1 && r.month == 1)
            && (r.day == d.day || (r.day == DaysInMonth(r.year, r.month) && r.day < d.day))
  {
  }

  /** One month later is 28 to 31 days later. */
  lemma AddMonthDistance(d: Date)
    requires Valid(d) && AddMonth(d).Some?
    ensures 28 <= DayNumber(AddMonth(d).value) - DayNumber(d) <= 31
  {
    var r := AddMonth(d).value;
    if d.month < 12 {
      assert DaysBeforeMonth(r.year, r.month) == DaysBeforeMonth(d.year, d.month) + DaysInMonth(d.year, d.month);
    } else {
      YearLength(d.year);
      assert DaysBeforeMonth(d.year, 13) == DaysBeforeMonth(d.year, 12) + 31;
      assert DaysBeforeYear(r.year) == DaysBeforeYear(d.year) + DaysInYear(d.year);
    }
  }

  lemma AddMonthExamples()
    ensures AddMonth(Date(2024, 1, 31)) == Some(Date(2024, 2, 29))
    ensures AddMonth(Date(2023, 1, 31)) == Some(Date(2023, 2, 28))
    ensures AddMonth(Date(2024, 12, 15)) == Some(Date(2025, 1, 15))
    ensures AddMonth(Date(9999, 12, 1)) == None
  {
  }

  /** One run of the scraper, from `from` to `to`. */
  datatype Window = Window(from: Date, to: Date)

  /** The arguments the scraper is started with for a window. */
  function WindowArguments(w: Window): (args: seq<string>)
    requires Valid(w.from) && Valid(w.to)
    ensures |args| == 2
    ensures ParseDate(args[0]) == Ok(w.from) && ParseDate(args[1]) == Ok(w.to)
  {
    ParseDateIso(w.from);
    ParseDateIso(w.to);
    [Iso(w.from), Iso(w.to)]
  }

  /** The windows the loop of `main` visits from `current` on, and whether
      it ran to the end (false: `add_month` raised and ended the program). */
  function WindowsFrom(current: Date, end: Date): (r: (seq<Window>, bool))
    requires Valid(current) && Valid(end)
    decreases DayNumber(end) - DayNumber(current)
  {
    if !Before(current, end) then ([], true)
    else
      match AddMonth(current)
      case None => ([], false)
      case Some(n) =>
        var next := Earlier(n, end);
        DayNumberOrder(current, next);
        DayNumberOrder(next, end);
        var rest := WindowsFrom(next, end);
        ([Window(current, next)] + rest.0, rest.1)
  }

  /** Each window is a real, non-empty stretch of at most 31 days whose end
      is one month after its start, cut back to the overall end. */
  predicate WindowStep(w: Window, end: Date)
    requires Valid(end)
  {
    && Valid(w.from) && Valid(w.to) && Before(w.from, w.to)
    && AddMonth(w.from).Some? && w.to == Earlier(AddMonth(w.from).value, end)
    && 1 <= DayNumber(w.to) - DayNumber(w.from) <= 31
  }

  /** One turn of the loop: the first window ends at the next `current`,
      and the rest of the windows start there. */
  lemma WindowsFromStep(current: Date, end: Date)
    requires Valid(current) && Valid(end) && Before(current, end) && AddMonth(current).Some?
    ensures var next := Earlier(AddMonth(current).value, end);
            && Valid(next) && Before(current, next) && !Before(end, next)
            && 0 <= DayNumber(end) - DayNumber(next) < DayNumber(end) - DayNumber(current)
            && WindowStep(Window(current, next), end)
            && WindowsFrom(current, end) == ([Window(current, next)] + WindowsFrom(next, end).0, WindowsFrom(next, end).1)
  {
    var n := AddMonth(current).value;
    var next := Earlier(n, end);
    DayNumberOrder(current, next);
    DayNumberOrder(next, end);
    DayNumberOrder(end, n);
    AddMonthDistance(current);
  }

  /** Every window is one step of `add_month` cut back to `end`, and none
      reaches past `end`. */
  lemma {:induction false} WindowsSteps(current: Date, end: Date)
    requires Valid(current) && Valid(end)
    ensures var ws := WindowsFrom(current, end).0;
            forall i :: 0 <= i < |ws| ==> WindowStep(ws[i], end) && !Before(end, ws[i].to)
    decreases DayNumber(end) - DayNumber(current)
  {
    if Before(current, end) && AddMonth(current).Some? {
      var next := Earlier(AddMonth(current).value, end);
      WindowsFromStep(current, end);
      WindowsSteps(next, end);
      StepsCons(Window(current, next), WindowsFrom(next, end).0, end);
    }
  }

  lemma StepsCons(w: Window, rest: seq<Window>, end: Date)
    requires Valid(end) && WindowStep(w, end) && !Before(end, w.to)
    requires forall i :: 0 <= i < |rest| ==> WindowStep(rest[i], end) && !Before(end, rest[i].to)
    ensures var ws := [w] + rest;
            forall i :: 0 <= i < |ws| ==> WindowStep(ws[i], end) && !Before(end, ws[i].to)
  {
    var ws := [w] + rest;
    forall i | 0 <= i < |ws| ensures WindowStep(ws[i], end) && !Before(end, ws[i].to) {
      if i > 0 {
        assert ws[i] == rest[i - 1];
      }
    }
  }

  /** The windows start at `current` and each ends where the next begins. */
  lemma {:induction false} WindowsContiguous(current: Date, end: Date)
    requires Valid(current) && Valid(end)
    ensures var ws := WindowsFrom(current, end).0;
            && (|ws| > 0 ==> ws[0].from == current)
            && (forall i :: 0 <= i < |ws| - 1 ==> ws[i].to == ws[i + 1].from)
    decreases DayNumber(end) - DayNumber(current)
  {
    var ws := WindowsFrom(current, end).0;
    if Before(current, end) && AddMonth(current).Some? {
      var next := Earlier(AddMonth(current).value, end);
      WindowsFromStep(current, end);
      WindowsContiguous(next, end);
      var rest := WindowsFrom(next, end).0;
      assert ws == [Window(current, next)] + rest;
      forall i | 0 <= i < |ws| - 1 ensures ws[i].to == ws[i + 1].from {
        if i > 0 {
          assert ws[i] == rest[i - 1] && ws[i + 1] == rest[i];
        }
      }
    } else {
      assert ws == [];
    }
  }

  /** Where a run of windows from `current` stopped. */
  function Reached(current: Date, ws: seq<Window>): Date {
    if ws == [] then current else ws[|ws| - 1].to
  }

  /** A run that finishes ends its last window exactly at `end`; a run that
      stops early stopped at a date before `end` that `add_month` cannot
      advance (December of year 9999). */
  predicate EndsWell(current: Date, end: Date)
    requires Valid(current) && Valid(end)
  {
    var r := WindowsFrom(current, end);
    var reached := Reached(current, r.0);
    && (r.1 ==> !Before(reached, end) && (Before(current, end) ==> r.0 != [] && reached == end))
    && (!r.1 ==> Valid(reached) && Before(reached, end) && AddMonth(reached).None?)
  }

  lemma {:induction false} WindowsReachEnd(current: Date, end: Date)
    requires Valid(current) && Valid(end)
    ensures EndsWell(current, end)
    decreases DayNumber(end) - DayNumber(current)
  {
    if Before(current, end) && AddMonth(current).Some? {
      var next := Earlier(AddMonth(current).value, end);
      WindowsFromStep(current, end);
      WindowsReachEnd(next, end);
      ReachEndStep(current, end);
    }
  }

  lemma ReachEndStep(current: Date, end: Date)
    requires Valid(current) && Valid(end) && Before(current, end) && AddMonth(current).Some?
    requires EndsWell(Earlier(AddMonth(current).value, end), end)
    ensures EndsWell(current, end)
  {
    var next := Earlier(AddMonth(current).value, end);
    WindowsFromStep(current, end);
    var ws := WindowsFrom(current, end).0;
    var rest := WindowsFrom(next, end).0;
    assert ws == [Window(current, next)] + rest;
    assert WindowsFrom(current, end).1 == WindowsFrom(next, end).1;
    if rest == [] {
      assert Reached(current, ws) == next == Reached(next, rest);
      if WindowsFrom(next, end).1 {
        DayNumberOrder(next, end);
      }
    } else {
      assert Reached(current, ws) == Reached(next, rest);
    }
  }

  /** The loop of `main`: `current` starts at `start`; while it is before
      `end`, the next window ends at `min(add_month(current), end)`, which
      becomes the next `current`. */
  method MonthWindows(start: Date, end: Date) returns (windows: seq<Window>, finished: bool)
    requires Valid(start) && Valid(end)
    ensures (windows, finished) == WindowsFrom(start, end)
  {
    windows := [];
    var current := start;
    while Before(current, end)
      invariant Valid(current)
      invariant windows + WindowsFrom(current, end).0 == WindowsFrom(start, end).0
      invariant WindowsFrom(current, end).1 == WindowsFrom(start, end).1
      decreases DayNumber(end) - DayNumber(current)
    {
      var next := AddMonth(current);
      if next.None? {
        assert WindowsFrom(current, end) == ([], false);
        assert windows == windows + [];
        return windows, false;
      }
      var nextMonth := next.value;
      if Before(end, nextMonth) {
        nextMonth := end;
      }
      assert nextMonth == Earlier(next.value, end);
      WindowsFromStep(current, end);
      WindowsAppendStep(windows, current, end);
      windows := windows + [Window(current, nextMonth)];
      current := nextMonth;
    }
    assert windows + [] == windows;
    finished := true;
  }

  /** The loop's bookkeeping: appending the next window to those already
      run leaves the same windows still to come. */
  lemma WindowsAppendStep(windows: seq<Window>, current: Date, end: Date)
    requires Valid(current) && Valid(end) && Before(current, end) && AddMonth(current).Some?
    ensures var next := Earlier(AddMonth(current).value, end);
            && windows + [Window(current, next)] + WindowsFrom(next, end).0 == windows + WindowsFrom(current, end).0
            && WindowsFrom(next, end).1 == WindowsFrom(current, end).1
  {
    WindowsFromStep(current, end);
  }

  /** The windows of a run start at the start, and a run that finishes
      ends its last window at the end. */
  lemma RunEnds(start: Date, end: Date)
    requires Valid(start) && Valid(end) && Before(start, end)
    ensures var (ws, finished) := WindowsFrom(start, end);
            && (ws != [] ==> ws[0].from == start)
            && (finished ==> ws != [] && ws[|ws| - 1].to == end)
  {
    WindowsContiguous(start, end);
    WindowsReachEnd(start, end);
    assert EndsWell(start, end);
  }

  /** How one invocation of the program ends. */
  datatype RunOutcome =
    | BadDateFormat                          // exit 1: a date did not parse
    | Overflowed                             // uncaught OverflowError: a date part is too large
    | StartNotBeforeEnd                      // exit 1: start >= end
    | Finished(windows: seq<Window>)         // every window was run
    | Crashed(windows: seq<Window>)          // add_month raised after these windows

  /** `main` after its argument-count check: parse both dates, the start
      first (only ValueError is caught; an OverflowError ends the program),
      insist that the start is before the end, then run the windows. */
  method RunMonthly(startArg: string, endArg: string) returns (outcome: RunOutcome)
    ensures outcome == BadDateFormat <==>
              (ParseDate(startArg).Err? && ParseDate(startArg) != Err(IntOverflow))
              || (ParseDate(startArg).Ok? && ParseDate(endArg).Err? && ParseDate(endArg) != Err(IntOverflow))
    ensures outcome == Overflowed <==>
              ParseDate(startArg) == Err(IntOverflow)
              || (ParseDate(startArg).Ok? && ParseDate(endArg) == Err(IntOverflow))
    ensures outcome == StartNotBeforeEnd <==>
              ParseDate(startArg).Ok? && ParseDate(endArg).Ok?
              && !Before(ParseDate(startArg).value, ParseDate(endArg).value)
    ensures outcome.Finished? || outcome.Crashed? ==>
              var start, end := ParseDate(startArg).value, ParseDate(endArg).value;
              && Before(start, end)
              && WindowsFrom(start, end) == (outcome.windows, outcome.Finished?)
              && (outcome.windows != [] ==> outcome.windows[0].from == start)
    ensures outcome.Finished? ==>
              outcome.windows != [] && outcome.windows[|outcome.windows| - 1].to == ParseDate(endArg).value
  {
    var s := ParseDate(startArg);
    if s.Err? {
      return if s.error == IntOverflow then Overflowed else BadDateFormat;
    }
    var e := ParseDate(endArg);
    if e.Err? {
      return if e.error == IntOverflow then Overflowed else BadDateFormat;
    }
    var start, end := s.value, e.value;
    if !Before(start, end) {
      return StartNotBeforeEnd;
    }
    var windows, finished := MonthWindows(start, end);
    RunEnds(start, end);
    outcome := if finished then Finished(windows) else Crashed(windows);
  }
}
