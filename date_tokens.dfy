/** The date-token resolver of the `GET /currencies/{request_date}` handler
    (backend/routers/rate.py): a token `YYYY`, `YYYY-Qn`, `YYYY-MM` or `YYYY-MM-DD`
    becomes a closed range of dates whose end is clipped to today, one of two 400
    errors, or a 500 when a number does not fit `date()`'s C int arguments.
    "Today" is a parameter. */
module DateTokens {
  import opened Wrappers
  import opened Errors
  import opened Calendar
  import opened Text

  const InvalidFormatMessage := "Invalid date format. Use YYYY for year, YYYY-MM for month, YYYY-Q1/Q2/Q3/Q4 for quarter, or YYYY-MM-DD for specific date"
  const FutureMessage := "Date cannot be in the future."

  /** How a Python call that may raise ends: with a value, with a ValueError (which
      get_rates catches), or with an OverflowError (which it does not). */
  datatype Raised<+T> = Returned(value: T) | ValueError | OverflowError

  const CIntMin := -0x8000_0000
  const CIntMax := 0x7FFF_FFFF

  /** `date()` converts each argument to a C int before it checks the calendar. */
  predicate FitsCInt(n: int)
  {
    CIntMin <= n <= CIntMax
  }

  /** `date(y, m, d)`: OverflowError for an argument outside the C int range,
      ValueError for a day that does not exist. */
  function MakeDate(y: int, m: int, d: int): (r: Raised<Date>)
    ensures r.Returned? ==> ValidDate(r.value)
  {
    if !(FitsCInt(y) && FitsCInt(m) && FitsCInt(d)) then OverflowError
    else if ValidDate(Date(y, m, d)) then Returned(Date(y, m, d))
    else ValueError
  }

  /** `date.isoformat()`: YYYY-MM-DD with zero padding. */
  function IsoFormat(d: Date): (s: string)
    requires ValidDate(d)
    ensures |s| == 10 && s[4] == '-' && s[7] == '-'
    ensures forall i :: 0 <= i < 10 && i != 4 && i != 7 ==> IsDigit(s[i])
  {
    PadDigits(d.year, 4) + "-" + PadDigits(d.month, 2) + "-" + PadDigits(d.day, 2)
  }

  /** `date.fromisoformat(s)` for the YYYY-MM-DD form: `None` where it raises ValueError. */
  function FromIsoFormat(s: string): (r: Option<Date>)
    ensures r.Some? ==> ValidDate(r.value)
  {
    if |s| == 10 && s[4] == '-' && s[7] == '-' && AllDigits(s[..4]) && AllDigits(s[5..7]) && AllDigits(s[8..]) then
      var d := Date(DigitsValue(s[..4]), DigitsValue(s[5..7]), DigitsValue(s[8..]));
      if ValidDate(d) then Some(d) else None
    else None
  }

  lemma IsoFormatParts(d: Date)
    requires ValidDate(d)
    ensures IsoFormat(d)[..4] == PadDigits(d.year, 4)
    ensures IsoFormat(d)[5..7] == PadDigits(d.month, 2)
    ensures IsoFormat(d)[8..] == PadDigits(d.day, 2)
  {
  }

  /** Every valid date reads back from its ISO form. */
  lemma IsoFormatRoundTrip(d: Date)
    requires ValidDate(d)
    ensures FromIsoFormat(IsoFormat(d)) == Some(d)
  {
    IsoFormatParts(d);
    assert Pow10(4) == 10000 && Pow10(2) == 100;
    PadDigitsRoundTrip(d.year, 4);
    PadDigitsRoundTrip(d.month, 2);
    PadDigitsRoundTrip(d.day, 2);
  }

  /** And the only strings that parse are the ISO forms of the dates they give. */
  lemma FromIsoFormatCanonical(s: string)
    requires FromIsoFormat(s).Some?
    ensures s == IsoFormat(FromIsoFormat(s).value)
  {
    var d := FromIsoFormat(s).value;
    PadDigitsOfValue(s[..4]);
    PadDigitsOfValue(s[5..7]);
    PadDigitsOfValue(s[8..]);
    IsoFormatParts(d);
    var t := IsoFormat(d);
    assert s == s[..4] + "-" + s[5..7] + "-" + s[8..];
    assert t == t[..4] + "-" + t[5..7] + "-" + t[8..];
  }

  /** The first day of month `month` and `start + relativedelta(months=k, days=-1)`,
      the end clipped to today. */
  function MonthsRange(year: int, month: int, k: int, today: Date): Raised<(Date, Date)>
    requires 1 <= k <= 12
  {
    match MakeDate(year, month, 1)
    case ValueError => ValueError
    case OverflowError => OverflowError
    case Returned(start) =>
      match AddMonthsLessOneDay(start, k)
      case None => ValueError
      case Some(end) => Returned((start, Earlier(end, today)))
  }

  /** The first month of quarter `q`, `3 * int(quarter) - 2`. */
  function QuarterStartMonth(q: int): int
  {
    3 * q - 2
  }

  /** `year, quarter = ...; date(int(year), 3 * int(quarter) - 2, 1)` and its end. */
  function QuarterRange(yearText: string, quarterText: string, today: Date): Raised<(Date, Date)>
  {
    match (ParseInt(yearText), ParseInt(quarterText))
    case (Some(year), Some(quarter)) => MonthsRange(year, QuarterStartMonth(quarter), 3, today)
    case _ => ValueError
  }

  /** `year, month = map(int, ...); date(year, month, 1)` and its end. */
  function MonthRange(yearText: string, monthText: string, today: Date): Raised<(Date, Date)>
  {
    match (ParseInt(yearText), ParseInt(monthText))
    case (Some(year), Some(month)) => MonthsRange(year, month, 1, today)
    case _ => ValueError
  }

  /** The try-block of get_rates: the range a token names before the future check,
      or the exception it raises. */
  function ParseToken(token: string, today: Date): (r: Raised<(Date, Date)>)
    requires ValidDate(today)
    ensures r.Returned? ==> ValidDate(r.value.0) && ValidDate(r.value.1)
    ensures r.Returned? && NotAfter(r.value.0, today) ==> NotAfter(r.value.0, r.value.1) && NotAfter(r.value.1, today)
  {
    if |token| == 4 then
      match ParseInt(token)
      case None => ValueError
      case Some(year) =>
        match MakeDate(year, 1, 1)
        case ValueError => ValueError
        case OverflowError => OverflowError
        case Returned(start) => Returned((start, Earlier(Date(year, 12, 31), today)))
    else if 'Q' in token then
      var parts := Split(token, "-Q");
      if |parts| != 2 then ValueError else QuarterRange(parts[0], parts[1], today)
    else if |Split(token, "-")| == 2 then
      var parts := Split(token, "-");
      MonthRange(parts[0], parts[1], today)
    else
      match FromIsoFormat(token)
      case None => ValueError
      case Some(day) => Returned((day, day))
  }

  /** The token resolution of get_rates: the range; "Invalid date format" for a token
      whose parsing raises ValueError; a 500 for one whose parsing raises
      OverflowError; "Date cannot be in the future." when the range starts after
      today. A successful range is ordered and ends no later than today. */
  function Resolve(token: string, today: Date): (r: Result<(Date, Date), HttpError>)
    requires ValidDate(today)
    ensures r.Ok? ==> ValidDate(r.value.0) && ValidDate(r.value.1)
    ensures r.Ok? ==> NotAfter(r.value.0, r.value.1) && NotAfter(r.value.1, today)
    ensures r == Err(BadRequest(InvalidFormatMessage)) <==> ParseToken(token, today).ValueError?
    ensures r == Err(InternalServerError) <==> ParseToken(token, today).OverflowError?
    ensures ParseToken(token, today).Returned? ==>
      (r == Err(BadRequest(FutureMessage)) <==> Before(today, ParseToken(token, today).value.0))
  {
    Settle(ParseToken(token, today), today)
  }

  /** The except clause and the future check that follow the try-block. */
  function Settle(parsed: Raised<(Date, Date)>, today: Date): Result<(Date, Date), HttpError>
  {
    match parsed
    case ValueError => Err(BadRequest(InvalidFormatMessage))
    case OverflowError => Err(InternalServerError)
    case Returned((start, end)) =>
      if Before(today, start) || Before(today, end) then Err(BadRequest(FutureMessage))
      else Ok((start, end))
  }

  /** `token` is two non-empty runs of digits joined by `sep`. */
  ghost predicate DigitsAround(token: string, sep: string)
  {
    exists a: string, b: string :: 0 < |a| && 0 < |b| && AllDigits(a) && AllDigits(b) && token == a + sep + b
  }

  /** The four shapes are the only tokens accepted: any token that is not four digits,
      digits "-Q" digits, digits "-" digits, or the ISO form of an existing day is an
      invalid format. */
  lemma ResolveOnlyShapes(token: string, today: Date)
    requires ValidDate(today)
    ensures Resolve(token, today) != Err(BadRequest(InvalidFormatMessage)) ==>
      (|token| == 4 && AllDigits(token)) || DigitsAround(token, "-Q") || DigitsAround(token, "-")
      || (exists d :: ValidDate(d) && token == IsoFormat(d))
  {
    if ParseToken(token, today).ValueError? {
    } else if |token| == 4 {
      assert ParseInt(token).Some?;
    } else if 'Q' in token {
      var parts := Split(token, "-Q");
      SplitJoin(token, "-Q");
      assert ParseInt(parts[0]).Some? && ParseInt(parts[1]).Some?;
      assert token == parts[0] + "-Q" + parts[1];
    } else if |Split(token, "-")| == 2 {
      var parts := Split(token, "-");
      SplitJoin(token, "-");
      assert ParseInt(parts[0]).Some? && ParseInt(parts[1]).Some?;
      assert token == parts[0] + "-" + parts[1];
    } else {
      FromIsoFormatCanonical(token);
      var d := FromIsoFormat(token).value;
      assert ValidDate(d) && token == IsoFormat(d);
    }
  }

  /** A four-character token is a year: January 1 to December 31, the end clipped to
      today; anything but a year in 1..9999 is an invalid format. */
  lemma ResolveYear(token: string, today: Date)
    requires ValidDate(today) && |token| == 4
    ensures var y := ParseInt(token);
      Resolve(token, today) ==
        if y.None? || !(MinYear <= y.value <= MaxYear) then Err(BadRequest(InvalidFormatMessage))
        else if Before(today, Date(y.value, 1, 1)) then Err(BadRequest(FutureMessage))
        else Ok((Date(y.value, 1, 1), Earlier(Date(y.value, 12, 31), today)))
  {
  }

  /** The end `start + relativedelta(months=k, days=-1)` of a range that starts on the
      first of a month is the last day of the k-th month counted from it, unless that
      lies past December 9999. */
  lemma MonthsRangeEnd(year: int, month: int, k: int, today: Date)
    requires ValidDate(today) && 1 <= k <= 12
    requires MinYear <= year <= MaxYear && 1 <= month <= 12 && month + k - 1 <= 12
    ensures MonthsRange(year, month, k, today) ==
      if year == MaxYear && month + k > 12 then ValueError
      else Returned((Date(year, month, 1), Earlier(LastDayOfMonth(year, month + k - 1), today)))
  {
    var start := Date(year, month, 1);
    assert MakeDate(year, month, 1) == Returned(start);
    var end := AddMonthsLessOneDay(start, k);
    if end.Some? {
      MonthIndexDetermines(end.value, year, month + k - 1);
    }
  }

  /** A month index names one year and month. */
  lemma MonthIndexDetermines(d: Date, y: int, m: int)
    requires 1 <= d.month <= 12 && 1 <= m <= 12 && MonthIndex(d) == y * 12 + m - 1
    ensures d.year == y && d.month == m
  {
    assert d.year * 12 <= MonthIndex(d) < d.year * 12 + 12;
  }

  /** Two digit strings joined by a separator that starts with a non-digit character
      not repeated in it split back into the two digit strings. */
  lemma SplitAroundSeparator(a: string, sep: string, b: string)
    requires AllDigits(a) && AllDigits(b) && |sep| > 0 && !IsDigit(sep[0])
    requires forall k :: 0 < k < |sep| ==> sep[k] != sep[0]
    ensures Split(a + sep + b, sep) == [a, b]
  {
    var token := a + sep + b;
    var i := |a|;
    assert OccursAt(token, sep, i) by {
      assert token[i..i + |sep|] == sep;
    }
    forall j | 0 <= j < |token| && j != i ensures token[j] != sep[0] {
      if j < i {
        assert token[j] == a[j];
      } else if j < i + |sep| {
        assert token[j] == sep[j - i];
      } else {
        assert token[j] == b[j - i - |sep|];
      }
    }
    forall j: nat | j != i ensures !OccursAt(token, sep, j) {
      if j + |sep| <= |token| {
        assert token[j..j + |sep|][0] == token[j];
      }
    }
    SplitAtOnlySeparator(token, sep, i);
    assert token[..i] == a && token[i + |sep|..] == b;
  }

  lemma QuarterRangeDigits(yearText: string, quarterText: string, today: Date)
    requires 0 < |yearText| <= IntMaxStrDigits && AllDigits(yearText)
    requires 0 < |quarterText| <= IntMaxStrDigits && AllDigits(quarterText)
    ensures QuarterRange(yearText, quarterText, today) ==
      MonthsRange(DigitsValue(yearText), QuarterStartMonth(DigitsValue(quarterText)), 3, today)
  {
  }

  /** `Y-Qn` (n in 1..4) is the first day of month 3n-2 to the last day of month 3n,
      the end clipped to today. A number too long for `int()` is an invalid format; a
      year or a first month 3n-2 beyond the C int range is a 500; otherwise a quarter
      outside 1..4, a year outside 1..9999, or the fourth quarter of 9999 (whose end
      computation overflows the year) is an invalid format. */
  lemma ResolveQuarter(yearText: string, quarterText: string, today: Date)
    requires ValidDate(today)
    requires |yearText| > 0 && AllDigits(yearText) && |quarterText| > 0 && AllDigits(quarterText)
    requires |yearText| + |quarterText| != 2
    ensures var y, q := DigitsValue(yearText), DigitsValue(quarterText);
      Resolve(yearText + "-Q" + quarterText, today) ==
        if |yearText| > IntMaxStrDigits || |quarterText| > IntMaxStrDigits then Err(BadRequest(InvalidFormatMessage))
        else if !FitsCInt(y) || !FitsCInt(QuarterStartMonth(q)) then Err(InternalServerError)
        else if !(MinYear <= y <= MaxYear && 1 <= q <= 4) || (y == MaxYear && q == 4) then Err(BadRequest(InvalidFormatMessage))
        else if Before(today, Date(y, QuarterStartMonth(q), 1)) then Err(BadRequest(FutureMessage))
        else Ok((Date(y, QuarterStartMonth(q), 1), Earlier(LastDayOfMonth(y, QuarterStartMonth(q) + 2), today)))
  {
    QuarterToken(yearText, quarterText, today);
    QuarterResolution(yearText, quarterText, today);
  }

  lemma QuarterResolution(yearText: string, quarterText: string, today: Date)
    requires ValidDate(today)
    requires |yearText| > 0 && AllDigits(yearText) && |quarterText| > 0 && AllDigits(quarterText)
    ensures var y, q := DigitsValue(yearText), DigitsValue(quarterText);
      Settle(QuarterRange(yearText, quarterText, today), today) ==
        if |yearText| > IntMaxStrDigits || |quarterText| > IntMaxStrDigits then Err(BadRequest(InvalidFormatMessage))
        else if !FitsCInt(y) || !FitsCInt(QuarterStartMonth(q)) then Err(InternalServerError)
        else if !(MinYear <= y <= MaxYear && 1 <= q <= 4) || (y == MaxYear && q == 4) then Err(BadRequest(InvalidFormatMessage))
        else if Before(today, Date(y, QuarterStartMonth(q), 1)) then Err(BadRequest(FutureMessage))
        else Ok((Date(y, QuarterStartMonth(q), 1), Earlier(LastDayOfMonth(y, QuarterStartMonth(q) + 2), today)))
  {
    if |yearText| <= IntMaxStrDigits && |quarterText| <= IntMaxStrDigits {
      QuarterRangeDigits(yearText, quarterText, today);
      QuarterOutcome(DigitsValue(yearText), DigitsValue(quarterText), today);
    } else {
      assert ParseInt(yearText).None? || ParseInt(quarterText).None?;
    }
  }

  lemma QuarterToken(yearText: string, quarterText: string, today: Date)
    requires ValidDate(today)
    requires |yearText| > 0 && AllDigits(yearText) && |quarterText| > 0 && AllDigits(quarterText)
    requires |yearText| + |quarterText| != 2
    ensures ParseToken(yearText + "-Q" + quarterText, today) == QuarterRange(yearText, quarterText, today)
  {
    var token := yearText + "-Q" + quarterText;
    assert token[|yearText| + 1] == 'Q';
    SplitAroundSeparator(yearText, "-Q", quarterText);
  }

  lemma QuarterOutcome(y: nat, q: nat, today: Date)
    requires ValidDate(today)
    ensures Settle(MonthsRange(y, QuarterStartMonth(q), 3, today), today) ==
      if !FitsCInt(y) || !FitsCInt(QuarterStartMonth(q)) then Err(InternalServerError)
      else if !(MinYear <= y <= MaxYear && 1 <= q <= 4) || (y == MaxYear && q == 4) then Err(BadRequest(InvalidFormatMessage))
      else if Before(today, Date(y, QuarterStartMonth(q), 1)) then Err(BadRequest(FutureMessage))
      else Ok((Date(y, QuarterStartMonth(q), 1), Earlier(LastDayOfMonth(y, QuarterStartMonth(q) + 2), today)))
  {
    if MinYear <= y <= MaxYear && 1 <= q <= 4 {
      MonthsRangeEnd(y, QuarterStartMonth(q), 3, today);
    }
  }

  /** `Y-M` is the first to the last day of month M (February 29 in leap years), the
      end clipped to today. A number too long for `int()` is an invalid format; a
      year or month beyond the C int range is a 500; otherwise a month outside 1..12,
      a year outside 1..9999, or December 9999 is an invalid format. */
  lemma ResolveMonth(yearText: string, monthText: string, today: Date)
    requires ValidDate(today)
    requires |yearText| > 0 && AllDigits(yearText) && |monthText| > 0 && AllDigits(monthText)
    requires |yearText| + |monthText| != 3
    ensures var y, m := DigitsValue(yearText), DigitsValue(monthText);
      Resolve(yearText + "-" + monthText, today) ==
        if |yearText| > IntMaxStrDigits || |monthText| > IntMaxStrDigits then Err(BadRequest(InvalidFormatMessage))
        else if !FitsCInt(y) || !FitsCInt(m) then Err(InternalServerError)
        else if !(MinYear <= y <= MaxYear && 1 <= m <= 12) || (y == MaxYear && m == 12) then Err(BadRequest(InvalidFormatMessage))
        else if Before(today, Date(y, m, 1)) then Err(BadRequest(FutureMessage))
        else Ok((Date(y, m, 1), Earlier(LastDayOfMonth(y, m), today)))
  {
    MonthToken(yearText, monthText, today);
    MonthResolution(yearText, monthText, today);
  }

  lemma MonthToken(yearText: string, monthText: string, today: Date)
    requires ValidDate(today)
    requires |yearText| > 0 && AllDigits(yearText) && |monthText| > 0 && AllDigits(monthText)
    requires |yearText| + |monthText| != 3
    ensures ParseToken(yearText + "-" + monthText, today) == MonthRange(yearText, monthText, today)
  {
    var token := yearText + "-" + monthText;
    var i := |yearText|;
    assert 'Q' !in token by {
      forall j | 0 <= j < |token| ensures token[j] != 'Q' {
        if j < i {
          assert token[j] == yearText[j];
        } else if j > i {
          assert token[j] == monthText[j - i - 1];
        }
      }
    }
    SplitAroundSeparator(yearText, "-", monthText);
  }

  lemma MonthResolution(yearText: string, monthText: string, today: Date)
    requires ValidDate(today)
    requires |yearText| > 0 && AllDigits(yearText) && |monthText| > 0 && AllDigits(monthText)
    ensures var y, m := DigitsValue(yearText), DigitsValue(monthText);
      Settle(MonthRange(yearText, monthText, today), today) ==
        if |yearText| > IntMaxStrDigits || |monthText| > IntMaxStrDigits then Err(BadRequest(InvalidFormatMessage))
        else if !FitsCInt(y) || !FitsCInt(m) then Err(InternalServerError)
        else if !(MinYear <= y <= MaxYear && 1 <= m <= 12) || (y == MaxYear && m == 12) then Err(BadRequest(InvalidFormatMessage))
        else if Before(today, Date(y, m, 1)) then Err(BadRequest(FutureMessage))
        else Ok((Date(y, m, 1), Earlier(LastDayOfMonth(y, m), today)))
  {
    if |yearText| <= IntMaxStrDigits && |monthText| <= IntMaxStrDigits {
      assert MonthRange(yearText, monthText, today) == MonthsRange(DigitsValue(yearText), DigitsValue(monthText), 1, today);
      MonthOutcome(DigitsValue(yearText), DigitsValue(monthText), today);
    } else {
      assert ParseInt(yearText).None? || ParseInt(monthText).None?;
    }
  }

  lemma MonthOutcome(y: nat, m: nat, today: Date)
    requires ValidDate(today)
    ensures Settle(MonthsRange(y, m, 1, today), today) ==
      if !FitsCInt(y) || !FitsCInt(m) then Err(InternalServerError)
      else if !(MinYear <= y <= MaxYear && 1 <= m <= 12) || (y == MaxYear && m == 12) then Err(BadRequest(InvalidFormatMessage))
      else if Before(today, Date(y, m, 1)) then Err(BadRequest(FutureMessage))
      else Ok((Date(y, m, 1), Earlier(LastDayOfMonth(y, m), today)))
  {
    if MinYear <= y <= MaxYear && 1 <= m <= 12 {
      MonthsRangeEnd(y, m, 1, today);
    }
  }

  /** The ISO form of a day resolves to that single day, accepted when it is today
      or earlier and "in the future" otherwise. */
  lemma ResolveDay(d: Date, today: Date)
    requires ValidDate(d) && ValidDate(today)
    ensures Resolve(IsoFormat(d), today) ==
      if Before(today, d) then Err(BadRequest(FutureMessage)) else Ok((d, d))
  {
    IsoFormatThreeParts(d);
    IsoFormatRoundTrip(d);
    assert ParseToken(IsoFormat(d), today) == Returned((d, d));
  }

  /** The ISO form of a day has no 'Q' and three '-'-separated parts, so the token
      parser reaches its `date.fromisoformat` branch. */
  lemma IsoFormatThreeParts(d: Date)
    requires ValidDate(d)
    ensures 'Q' !in IsoFormat(d) && |Split(IsoFormat(d), "-")| == 3
  {
    var s := IsoFormat(d);
    assert 'Q' !in s by {
      forall j | 0 <= j < |s| ensures s[j] != 'Q' {
        if j != 4 && j != 7 {
          assert IsDigit(s[j]);
        }
      }
    }
    assert OccursAt(s, "-", 4) by {
      assert s[4..5] == "-";
    }
    forall j: nat | j < 4 ensures !OccursAt(s, "-", j) {
      assert s[j..j + 1][0] == s[j];
    }
    SplitAtFirst(s, "-", 4);
    var rest := s[5..];
    assert OccursAt(rest, "-", 2) by {
      assert rest[2..3] == "-";
    }
    forall j: nat | j < 2 ensures !OccursAt(rest, "-", j) {
      assert rest[j..j + 1][0] == rest[j] == s[j + 5];
    }
    SplitAtFirst(rest, "-", 2);
    var tail := rest[3..];
    forall j: nat ensures !OccursAt(tail, "-", j) {
      if j + 1 <= |tail| {
        assert tail[j..j + 1][0] == tail[j] == s[j + 8];
      }
    }
    SplitWithoutSeparator(tail, "-");
  }
}

/** The tokens the handler's tests use, resolved on any day after 2025. */
module DateTokenExamples {
  import opened Wrappers
  import opened Errors
  import opened Calendar
  import opened Text
  import opened DateTokens

  lemma DigitsOf2025()
    ensures AllDigits("2025") && DigitsValue("2025") == 2025
  {
    assert "2025"[..3] == "202" && "202"[..2] == "20" && "20"[..1] == "2" && "2"[..0] == "";
  }

  /** "2025" is the whole of 2025 once 2025 is over. */
  lemma YearExample(today: Date)
    requires ValidDate(today) && Before(Date(2025, 12, 31), today)
    ensures Resolve("2025", today) == Ok((Date(2025, 1, 1), Date(2025, 12, 31)))
  {
    DigitsOf2025();
    ResolveYear("2025", today);
  }

  /** "2025-Q1" is January 1 to March 31, 2025. */
  lemma QuarterExample(today: Date)
    requires ValidDate(today) && Before(Date(2025, 12, 31), today)
    ensures Resolve("2025-Q1", today) == Ok((Date(2025, 1, 1), Date(2025, 3, 31)))
  {
    FirstQuarter(today);
    assert "2025" + "-Q" + "1" == "2025-Q1";
  }

  lemma FirstQuarter(today: Date)
    requires ValidDate(today) && Before(Date(2025, 12, 31), today)
    ensures Resolve("2025" + "-Q" + "1", today) == Ok((Date(2025, 1, 1), Date(2025, 3, 31)))
  {
    DigitsOf2025();
    assert DigitsValue("1") == 1 by { assert "1"[..0] == ""; }
    ResolveQuarter("2025", "1", today);
    FirstQuarterEnd(today);
  }

  lemma FirstQuarterEnd(today: Date)
    requires ValidDate(today) && Before(Date(2025, 12, 31), today)
    ensures !Before(today, Date(2025, 1, 1))
    ensures Earlier(LastDayOfMonth(2025, 3), today) == Date(2025, 3, 31)
  {
    assert LastDayOfMonth(2025, 3) == Date(2025, 3, 31);
  }

  /** "2025-13" names no month. */
  lemma MonthThirteenExample(today: Date)
    requires ValidDate(today)
    ensures Resolve("2025-13", today) == Err(BadRequest(InvalidFormatMessage))
  {
    DigitsOf2025();
    assert DigitsValue("13") == 13 by { assert "13"[..1] == "1" && "1"[..0] == ""; }
    ResolveMonth("2025", "13", today);
    assert "2025" + "-" + "13" == "2025-13";
  }

  lemma DigitsOf2147483648()
    ensures AllDigits("2147483648") && DigitsValue("2147483648") == 2147483648
  {
    DigitsOf21474();
    assert "214748"[..5] == "21474" && DigitsValue("214748") == 214748;
    assert "2147483"[..6] == "214748" && DigitsValue("2147483") == 2147483;
    assert "21474836"[..7] == "2147483" && DigitsValue("21474836") == 21474836;
    assert "214748364"[..8] == "21474836" && DigitsValue("214748364") == 214748364;
    assert "2147483648"[..9] == "214748364";
  }

  lemma DigitsOf21474()
    ensures AllDigits("21474") && DigitsValue("21474") == 21474
  {
    assert "2"[..0] == "" && DigitsValue("2") == 2;
    assert "21"[..1] == "2" && DigitsValue("21") == 21;
    assert "214"[..2] == "21" && DigitsValue("214") == 214;
    assert "2147"[..3] == "214" && DigitsValue("2147") == 2147;
    assert "21474"[..4] == "2147";
  }

  /** "2147483648-01" asks `date()` for a year beyond the C int range: the
      OverflowError is not caught, and the answer is a 500. */
  lemma MonthOverflowExample(today: Date)
    requires ValidDate(today)
    ensures Resolve("2147483648-01", today) == Err(InternalServerError)
  {
    MonthOverflow(today);
    assert "2147483648" + "-" + "01" == "2147483648-01";
  }

  lemma MonthOverflow(today: Date)
    requires ValidDate(today)
    ensures Resolve("2147483648" + "-" + "01", today) == Err(InternalServerError)
  {
    DigitsOf2147483648();
    assert AllDigits("01") && DigitsValue("01") == 1 by { assert "01"[..1] == "0" && "0"[..0] == ""; }
    ResolveMonth("2147483648", "01", today);
  }

  lemma ThreeDigitMonthSplit()
    ensures |Split("2025-010-22", "-")| == 3
  {
    var s := "2025-010-22";
    assert OccursAt(s, "-", 4) by { assert s[4..5] == "-"; }
    forall j: nat | j < 4 ensures !OccursAt(s, "-", j) {
      assert s[j..j + 1][0] == s[j];
    }
    SplitAtFirst(s, "-", 4);
    assert s[5..] == "010-22";
    MonthDaySplit();
  }

  lemma MonthDaySplit()
    ensures |Split("010-22", "-")| == 2
  {
    SplitAroundSeparator("010", "-", "22");
    assert "010" + "-" + "22" == "010-22";
  }

  /** "2025-010-22" has three parts but is not an ISO date: an invalid format. */
  lemma ThreeDigitMonthExample(today: Date)
    requires ValidDate(today)
    ensures Resolve("2025-010-22", today) == Err(BadRequest(InvalidFormatMessage))
  {
    var s := "2025-010-22";
    assert |s| == 11 && 'Q' !in s;
    ThreeDigitMonthSplit();
    assert FromIsoFormat(s) == None;
    assert ParseToken(s, today) == ValueError;
  }
}
