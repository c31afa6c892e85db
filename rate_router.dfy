/** The handlers of backend/routers/rate.py other than token resolution: the two read
    endpoints, the validation shared by both ingestion endpoints, and the ingestion
    itself, which fetches window by window, accumulates only the new rates, and then
    either reports that nothing is new or commits everything at once.

    The provider call `request("get", url)` is the parameter `fetch` (a window stands for
    its URL). The bodies of get_new_rates / get_new_code_rates are not part of this
    model: they are assumed to decode the response as fetch_rates does, raising its
    error, and then to keep the new rates, which is the parameter `keepNew`. The error
    outcomes of the window loop and of the currency handler rest on that assumption. */
module RateRouter {
  import opened Wrappers
  import opened Errors
  import opened Calendar
  import opened Text
  import opened Sequences
  import opened Queries
  import opened Services
  import opened DateTokens
  import opened DateTokenExamples

  const RequestLimitPeriod := 366
  const TableSplitPeriod := 90

  const NoCurrenciesMessage := "No currencies found. Try to fetch them first."
  const NoRatesMessage := "No rates found for the requested period. Try to download them first."
  const BothOrNoneMessage := "Both or none dates are required."
  const InvertedMessage := "The beginning date cannot be older than the end date."
  const TooLongMessage := "The period cannot be longer than 366 days."
  const AllTablesPresentMessage := "All rates for specified period are already in the database."

  function NoCodeRatesMessage(code: string): string
  {
    "No " + code + " rates found for the requested period. Try to download them first."
  }

  function AllCodeRatesPresentMessage(code: string): string
  {
    "All " + code + " rates for specified period are already in the database."
  }

  function AddedMessage(count: nat): string
  {
    "Added " + NatToDecimal(count) + " rates"
  }

  /** The success message carries the count in decimal. */
  lemma AddedMessageReportsCount(count: nat)
    ensures var m := AddedMessage(count);
      && |m| > 12 && m[..6] == "Added " && m[|m| - 6..] == " rates"
      && AllDigits(m[6..|m| - 6]) && DigitsValue(m[6..|m| - 6]) == count
      && (|m| <= 12 + IntMaxStrDigits ==> ParseInt(m[6..|m| - 6]) == Some(count))
  {
    var m := AddedMessage(count);
    assert m[6..|m| - 6] == NatToDecimal(count);
    NatToDecimalRoundTrip(count);
  }

  // ---------------------------------------------------------------- read endpoints

  /** get_all_currencies: the distinct (currency, code) pairs, or 404 for an empty table. */
  function GetAllCurrencies(table: seq<Rate>): (r: Result<seq<(string, string)>, HttpError>)
    ensures r.Err? <==> table == []
    ensures r.Err? ==> r.error == NotFound(NoCurrenciesMessage)
    ensures r.Ok? ==> r.value == GetCurrencies(table)
  {
    var currencies := GetCurrencies(table);
    CurrenciesEmpty(table);
    if currencies == [] then Err(NotFound(NoCurrenciesMessage)) else Ok(currencies)
  }

  /** The distinct pairs are empty only for an empty table. */
  lemma CurrenciesEmpty(table: seq<Rate>)
    ensures GetCurrencies(table) == [] <==> table == []
  {
    if table != [] {
      var p := (table[0].currency, table[0].code);
      assert table[0] in table;
      assert multiset(GetCurrencies(table))[p] == 1;
    }
  }

  /** `code.upper()` when a code is given. */
  function NormalizeCode(code: Option<string>): Option<string>
  {
    if code.Some? then Some(Upper(code.value)) else None
  }

  /** get_rates: resolve the token, read the rows of the range (narrowed to the
      upper-cased code), and answer 404 with a code-specific or a generic message
      when there are none. What it returns lies in the resolved range, no later than
      today, in date order. */
  function GetRatesHandler(table: seq<Rate>, requestDate: string, code: Option<string>, today: Date): (r: Result<seq<Rate>, HttpError>)
    requires ValidDate(today)
    ensures r.Ok? ==> r.value != [] && SortedBy(r.value, ByDate)
    ensures r.Ok? ==> Resolve(requestDate, today).Ok?
    ensures r.Ok? ==> forall x :: x in r.value ==>
      InPeriod(x.updateDate, Resolve(requestDate, today).value.0, Resolve(requestDate, today).value.1)
      && NotAfter(x.updateDate, today) && CodeMatches(x, NormalizeCode(code)) && x in table
    ensures r.Ok? ==>
      forall x :: multiset(r.value)[x] ==
        (if InPeriod(x.updateDate, Resolve(requestDate, today).value.0, Resolve(requestDate, today).value.1)
            && CodeMatches(x, NormalizeCode(code))
         then multiset(table)[x] else 0)
    ensures Resolve(requestDate, today).Err? ==> r == Err(Resolve(requestDate, today).error)
  {
    match Resolve(requestDate, today)
    case Err(e) => Err(e)
    case Ok((start, end)) =>
      var normalized := NormalizeCode(code);
      var found := GetRatesForPeriod(table, start, end, normalized).0;
      if found == [] then
        if normalized.Some? && normalized.value != [] then Err(NotFound(NoCodeRatesMessage(normalized.value)))
        else Err(NotFound(NoRatesMessage))
      else
        Ok(found)
  }

  /** A malformed token is a 400 "Invalid date format" and a day after today a 400
      "Date cannot be in the future.", whatever is stored and whatever code is asked. */
  lemma GetRatesBadToken(table: seq<Rate>, code: Option<string>, day: Date, today: Date)
    requires ValidDate(day) && ValidDate(today) && Before(today, day)
    ensures GetRatesHandler(table, "2025-010-22", code, today) == Err(BadRequest(InvalidFormatMessage))
    ensures GetRatesHandler(table, IsoFormat(day), code, today) == Err(BadRequest(FutureMessage))
  {
    ThreeDigitMonthExample(today);
    ResolveDay(day, today);
  }

  /** The code is matched case-insensitively: `usd`, `USD` and `UsD` are the same request. */
  lemma GetRatesCaseInsensitive(table: seq<Rate>, requestDate: string, code: string, today: Date)
    requires ValidDate(today)
    ensures GetRatesHandler(table, requestDate, Some(code), today) == GetRatesHandler(table, requestDate, Some(Upper(code)), today)
  {
    UpperIdempotent(code);
  }

  /** A resolved range with no matching row is a 404; the message names the code only
      when a non-empty code was given. */
  lemma GetRatesNotFound(table: seq<Rate>, requestDate: string, code: Option<string>, today: Date)
    requires ValidDate(today) && Resolve(requestDate, today).Ok?
    ensures var (start, end) := Resolve(requestDate, today).value;
      var normalized := NormalizeCode(code);
      GetRatesHandler(table, requestDate, code, today).Err? <==>
        forall x :: x in table ==> !(InPeriod(x.updateDate, start, end) && CodeMatches(x, normalized))
    ensures GetRatesHandler(table, requestDate, code, today).Err? ==>
      GetRatesHandler(table, requestDate, code, today).error ==
        if code.Some? && code.value != [] then NotFound(NoCodeRatesMessage(Upper(code.value))) else NotFound(NoRatesMessage)
  {
    var (start, end) := Resolve(requestDate, today).value;
    var normalized := NormalizeCode(code);
    var found := GetRatesForPeriod(table, start, end, normalized).0;
    assert GetRatesHandler(table, requestDate, code, today).Err? <==> found == [];
    NoneFound(table, start, end, normalized);
  }

  /** The period query comes back empty exactly when no row matches. */
  lemma NoneFound(table: seq<Rate>, start: Date, end: Date, code: Option<string>)
    ensures GetRatesForPeriod(table, start, end, code).0 == [] <==>
      forall x :: x in table ==> !(InPeriod(x.updateDate, start, end) && CodeMatches(x, code))
  {
    var found := GetRatesForPeriod(table, start, end, code).0;
    if found != [] {
      assert multiset(found)[found[0]] > 0;
    } else {
      forall x | x in table ensures !(InPeriod(x.updateDate, start, end) && CodeMatches(x, code)) {
        assert multiset(table)[x] > 0 && multiset(found)[x] == 0;
      }
    }
  }

  // ---------------------------------------------------------------- ingestion

  /** The checks that open both ingestion handlers, in their order: both dates or
      neither (neither means the provider's latest day, given as `latest`), from <= to,
      neither date after today, and (to - from).days <= 366. */
  function ValidateRequest(dateFrom: Option<Date>, dateTo: Option<Date>, latest: Date, today: Date): (r: Result<(Date, Date), HttpError>)
    requires ValidDate(latest) && ValidDate(today)
    requires dateFrom.Some? ==> ValidDate(dateFrom.value)
    requires dateTo.Some? ==> ValidDate(dateTo.value)
    ensures r.Ok? ==> ValidDate(r.value.0) && ValidDate(r.value.1)
    ensures r.Ok? ==> NotAfter(r.value.0, r.value.1) && NotAfter(r.value.1, today)
    ensures r.Ok? ==> 0 <= DayNumber(r.value.1) - DayNumber(r.value.0) <= RequestLimitPeriod
  {
    if dateFrom.Some? != dateTo.Some? then Err(BadRequest(BothOrNoneMessage))
    else
      var (from, to) := if dateFrom.None? then (latest, latest) else (dateFrom.value, dateTo.value);
      DayNumberOrder(from, to);
      if Before(to, from) then Err(BadRequest(InvertedMessage))
      else if Before(today, from) || Before(today, to) then Err(BadRequest(FutureMessage))
      else if DayNumber(to) - DayNumber(from) > RequestLimitPeriod then Err(BadRequest(TooLongMessage))
      else Ok((from, to))
  }

  /** Validation reports the first check that fails, in the handlers' order. */
  lemma ValidationOrder(from: Date, to: Date, today: Date)
    requires ValidDate(from) && ValidDate(to) && ValidDate(today)
    ensures ValidateRequest(Some(from), None, to, today) == Err(BadRequest(BothOrNoneMessage))
    ensures ValidateRequest(None, Some(to), from, today) == Err(BadRequest(BothOrNoneMessage))
    ensures var r := ValidateRequest(Some(from), Some(to), from, today);
      && (r == Err(BadRequest(InvertedMessage)) <==> Before(to, from))
      && (r == Err(BadRequest(FutureMessage)) <==> !Before(to, from) && Before(today, to))
      && (r == Err(BadRequest(TooLongMessage)) <==>
            !Before(to, from) && !Before(today, to) && DayNumber(to) - DayNumber(from) > RequestLimitPeriod)
      && (r == Ok((from, to)) <==>
            !Before(to, from) && !Before(today, to) && DayNumber(to) - DayNumber(from) <= RequestLimitPeriod)
  {
    DayNumberOrder(from, to);
    DayNumberOrder(to, today);
    DayNumberOrder(from, today);
  }

  /** The latest day matters only when no date is given. */
  lemma ValidationIgnoresLatest(dateFrom: Option<Date>, dateTo: Option<Date>, latest: Date, other: Date, today: Date)
    requires ValidDate(latest) && ValidDate(other) && ValidDate(today)
    requires dateFrom.Some? ==> ValidDate(dateFrom.value)
    requires dateTo.Some? ==> ValidDate(dateTo.value)
    requires dateFrom.Some? || dateTo.Some?
    ensures ValidateRequest(dateFrom, dateTo, latest, today) == ValidateRequest(dateFrom, dateTo, other, today)
  {
  }

  /** Without dates the request is the provider's latest day, checked like any other. */
  lemma ValidationDefaultsToLatest(latest: Date, today: Date)
    requires ValidDate(latest) && ValidDate(today)
    ensures ValidateRequest(None, None, latest, today) ==
      if Before(today, latest) then Err(BadRequest(FutureMessage)) else Ok((latest, latest))
  {
  }

  /** The windows the table handler fetches: the whole range when (to - from).days is
      at most 90, the splitter's windows of 90 days otherwise. */
  function FetchWindows(from: Date, to: Date): seq<Window>
    requires ValidDate(from) && ValidDate(to)
  {
    var a, b := DayNumber(from), DayNumber(to);
    if b - a > TableSplitPeriod then Windows(a, b, TableSplitPeriod) else [(a, b)]
  }

  /** A range of at most 90 days after its first day is one window; a longer one is
      ceil(days / 90) windows of 90 days tiling it in ascending order, inside the range,
      missing its last day exactly when the day count is a multiple of 90. */
  lemma FetchWindowsShape(from: Date, to: Date)
    requires ValidDate(from) && ValidDate(to) && NotAfter(from, to)
    ensures var a, b := DayNumber(from), DayNumber(to);
      var ws := FetchWindows(from, to);
      && (b - a <= TableSplitPeriod ==> ws == [(a, b)])
      && (b - a > TableSplitPeriod ==>
            && |ws| == (b - a + TableSplitPeriod - 1) / TableSplitPeriod
            && |ws| >= 2
            && Tiles(ws, a, b, TableSplitPeriod)
            && (Covers(ws, b) <==> (b - a) % TableSplitPeriod != 0))
      && (forall i :: 0 <= i < |ws| ==> a <= ws[i].0 <= ws[i].1 <= b)
  {
    var a, b := DayNumber(from), DayNumber(to);
    DayNumberOrder(to, from);
    if b - a > TableSplitPeriod {
      var ws := Windows(a, b, TableSplitPeriod);
      WindowsTile(a, b, TableSplitPeriod);
      WindowsCount(a, b, TableSplitPeriod);
      WindowsCover(a, b, TableSplitPeriod, b);
      forall i | 0 <= i < |ws| ensures a <= ws[i].0 {
        WindowsCover(a, b, TableSplitPeriod, ws[i].0);
        assert Covers(ws, ws[i].0);
      }
    }
  }

  /** A 180-day request (as in the table handler's test) is two windows that leave out
      its last day. */
  lemma HundredEightyDaysMissLastDay(from: Date, to: Date)
    requires ValidDate(from) && ValidDate(to) && DayNumber(to) - DayNumber(from) == 180
    ensures var ws := FetchWindows(from, to);
      var a := DayNumber(from);
      ws == [(a, a + 89), (a + 90, a + 179)] && !Covers(ws, DayNumber(to))
  {
    var a, b := DayNumber(from), DayNumber(to);
    assert Windows(a + 180, b, TableSplitPeriod) == [];
    assert Windows(a + 90, b, TableSplitPeriod) == [(a + 90, a + 179)];
    assert Windows(a, b, TableSplitPeriod) == [(a, a + 89), (a + 90, a + 179)];
    WindowsCover(a, b, TableSplitPeriod, b);
  }

  /** Exactly the days the table handler asks the provider for: every day of the range,
      except its last day when the range is longer than 90 days and (to - from).days is
      a multiple of 90. */
  lemma FetchWindowsCover(from: Date, to: Date, t: int)
    requires ValidDate(from) && ValidDate(to) && NotAfter(from, to)
    ensures var a, b := DayNumber(from), DayNumber(to);
      Covers(FetchWindows(from, to), t) <==>
        a <= t <= b && !(b - a > TableSplitPeriod && t == b && (b - a) % TableSplitPeriod == 0)
  {
    var a, b := DayNumber(from), DayNumber(to);
    DayNumberOrder(to, from);
    if b - a > TableSplitPeriod {
      WindowsCover(a, b, TableSplitPeriod, t);
    } else if a <= t <= b {
      assert FetchWindows(from, to)[0] == (a, b);
    }
  }

  /** get_new_rates past decoding: the rates of a decoded answer to keep, given the
      stored keys of the request range. */
  type KeepNewRates = (seq<Rate>, set<(Date, string)>) -> seq<Rate>

  /** One window: decode the answer with fetch_rates (its error ends the request), then
      keep the new rates. */
  function NewRatesIn(response: Response, existing: set<(Date, string)>, keepNew: KeepNewRates): Result<seq<Rate>, HttpError>
  {
    match FetchRates(response)
    case Err(e) => Err(e)
    case Ok(candidates) => Ok(keepNew(candidates, existing))
  }

  /** The loop over the windows: new rates appended window after window; the first
      window whose answer does not decode ends it with that window's error. */
  function CollectNew(ws: seq<Window>, existing: set<(Date, string)>, fetch: Window -> Response, keepNew: KeepNewRates): Result<seq<Rate>, HttpError>
    decreases |ws|
  {
    if ws == [] then Ok([])
    else
      match CollectNew(ws[..|ws| - 1], existing, fetch, keepNew)
      case Err(e) => Err(e)
      case Ok(acc) =>
        match NewRatesIn(fetch(ws[|ws| - 1]), existing, keepNew)
        case Err(e) => Err(e)
        case Ok(kept) => Ok(acc + kept)
  }

  /** Once a prefix of the windows has failed, the whole loop fails with that error. */
  lemma {:induction false} CollectErrorPersists(ws: seq<Window>, k: nat, existing: set<(Date, string)>, fetch: Window -> Response, keepNew: KeepNewRates)
    requires k <= |ws| && CollectNew(ws[..k], existing, fetch, keepNew).Err?
    ensures CollectNew(ws, existing, fetch, keepNew) == CollectNew(ws[..k], existing, fetch, keepNew)
    decreases |ws| - k
  {
    if k < |ws| {
      assert ws[..|ws| - 1][..k] == ws[..k];
      CollectErrorPersists(ws[..|ws| - 1], k, existing, fetch, keepNew);
    } else {
      assert ws[..k] == ws;
    }
  }

  /** The loop fails exactly when some window's answer does not decode, and then with
      the error of the first such window. */
  lemma {:induction false} CollectFirstFailure(ws: seq<Window>, existing: set<(Date, string)>, fetch: Window -> Response, keepNew: KeepNewRates)
    ensures CollectNew(ws, existing, fetch, keepNew).Ok? <==> forall i :: 0 <= i < |ws| ==> FetchRates(fetch(ws[i])).Ok?
    ensures CollectNew(ws, existing, fetch, keepNew).Err? ==>
      exists i :: 0 <= i < |ws| && FetchRates(fetch(ws[i])).Err?
        && CollectNew(ws, existing, fetch, keepNew).error == FetchRates(fetch(ws[i])).error && forall j :: 0 <= j < i ==> FetchRates(fetch(ws[j])).Ok?
    decreases |ws|
  {
    if ws != [] {
      var init := ws[..|ws| - 1];
      CollectFirstFailure(init, existing, fetch, keepNew);
      assert forall i :: 0 <= i < |init| ==> init[i] == ws[i];
    }
  }

  /** Records come out window by window: the records of the first windows, then those
      of the rest. */
  lemma {:induction false} CollectConcat(ws1: seq<Window>, ws2: seq<Window>, existing: set<(Date, string)>, fetch: Window -> Response, keepNew: KeepNewRates)
    requires CollectNew(ws1, existing, fetch, keepNew).Ok? && CollectNew(ws2, existing, fetch, keepNew).Ok?
    ensures CollectNew(ws1 + ws2, existing, fetch, keepNew) ==
      Ok(CollectNew(ws1, existing, fetch, keepNew).value + CollectNew(ws2, existing, fetch, keepNew).value)
    decreases |ws2|
  {
    if ws2 != [] {
      var init := ws2[..|ws2| - 1];
      var v1 := CollectNew(ws1, existing, fetch, keepNew).value;
      var vi := CollectNew(init, existing, fetch, keepNew).value;
      var kept := NewRatesIn(fetch(ws2[|ws2| - 1]), existing, keepNew).value;
      assert CollectNew(ws2, existing, fetch, keepNew).value == vi + kept;
      assert (ws1 + ws2)[..|ws1 + ws2| - 1] == ws1 + init;
      assert (ws1 + ws2)[|ws1 + ws2| - 1] == ws2[|ws2| - 1];
      CollectConcat(ws1, init, existing, fetch, keepNew);
      assert (v1 + vi) + kept == v1 + (vi + kept);
    } else {
      assert ws1 + ws2 == ws1;
      var v := CollectNew(ws1, existing, fetch, keepNew).value;
      assert v + [] == v;
    }
  }

  /** download_rates_for_table, as a function of the stored rows: the rates it adds, or
      its error. */
  function TableIngestion(table: seq<Rate>, dateFrom: Option<Date>, dateTo: Option<Date>, latest: Date, today: Date,
                          fetch: Window -> Response, keepNew: KeepNewRates): Result<seq<Rate>, HttpError>
    requires ValidDate(latest) && ValidDate(today)
    requires dateFrom.Some? ==> ValidDate(dateFrom.value)
    requires dateTo.Some? ==> ValidDate(dateTo.value)
  {
    match ValidateRequest(dateFrom, dateTo, latest, today)
    case Err(e) => Err(e)
    case Ok((from, to)) =>
      match CollectNew(FetchWindows(from, to), GetRates(table, from, to), fetch, keepNew)
      case Err(e) => Err(e)
      case Ok(added) => if |added| == 0 then Err(BadRequest(AllTablesPresentMessage)) else Ok(added)
  }

  /** The for-loop of download_rates_for_table over the fetch windows, in ascending
      order: each window's answer is decoded and its new rates appended; the first
      window whose answer does not decode ends the loop with that window's error. */
  method FetchNewRates(windows: seq<Window>, existing: set<(Date, string)>, fetch: Window -> Response, keepNew: KeepNewRates)
    returns (r: Result<seq<Rate>, HttpError>)
    ensures r == CollectNew(windows, existing, fetch, keepNew)
  {
    var newRates: seq<Rate> := [];
    var i := 0;
    while i < |windows|
      invariant 0 <= i <= |windows|
      invariant CollectNew(windows[..i], existing, fetch, keepNew) == Ok(newRates)
    {
      assert windows[..i + 1][..i] == windows[..i];
      var fetched := FetchRates(fetch(windows[i]));
      if fetched.Err? {
        CollectErrorPersists(windows, i + 1, existing, fetch, keepNew);
        return Err(fetched.error);
      }
      newRates := newRates + keepNew(fetched.value, existing);
      i := i + 1;
    }
    assert windows[..i] == windows;
    return Ok(newRates);
  }

  /** download_rates_for_table: validate, read the stored keys of the range, fetch the
      windows in ascending order accumulating the new rates, then fail with "already in
      the database" or add them all in one call and report how many. Nothing is stored
      on any error. */
  method DownloadRatesForTable(store: RateStore, dateFrom: Option<Date>, dateTo: Option<Date>, latest: Date, today: Date,
                               fetch: Window -> Response, keepNew: KeepNewRates)
    returns (result: Result<string, HttpError>)
    requires ValidDate(latest) && ValidDate(today)
    requires dateFrom.Some? ==> ValidDate(dateFrom.value)
    requires dateTo.Some? ==> ValidDate(dateTo.value)
    modifies store
    ensures match TableIngestion(old(store.rows), dateFrom, dateTo, latest, today, fetch, keepNew)
            case Err(e) => result == Err(e) && store.rows == old(store.rows)
            case Ok(added) => result == Ok(AddedMessage(|added|)) && store.rows == old(store.rows) + added
  {
    var validated := ValidateRequest(dateFrom, dateTo, latest, today);
    if validated.Err? {
      return Err(validated.error);
    }
    var (from, to) := validated.value;
    var existing := GetRates(store.rows, from, to);
    var windows: seq<Window>;
    if DayNumber(to) - DayNumber(from) > TableSplitPeriod {
      windows := SplitFetchPeriod(DayNumber(from), DayNumber(to), TableSplitPeriod);
    } else {
      windows := [(DayNumber(from), DayNumber(to))];
    }
    var collected := FetchNewRates(windows, existing, fetch, keepNew);
    if collected.Err? {
      return Err(collected.error);
    }
    var newRates := collected.value;
    if |newRates| == 0 {
      return Err(BadRequest(AllTablesPresentMessage));
    }
    store.AddRates(newRates);
    result := Ok(AddedMessage(|newRates|));
  }

  /** The de-duplication the handler relies on: keep exactly the candidates whose
      (update_date, code) is not among the stored keys. */
  ghost predicate DropsStoredKeys(keepNew: KeepNewRates)
  {
    forall candidates, existing :: keepNew(candidates, existing) ==
      Filter(candidates, (r: Rate) => (r.updateDate, r.code) !in existing)
  }

  /** The provider answers a window only with valid rates dated inside it. */
  ghost predicate AnswersWithinWindow(fetch: Window -> Response)
  {
    forall w: Window :: fetch(w).json.Some? ==>
      forall r :: r in fetch(w).json.value ==> ValidDate(r.updateDate) && w.0 <= DayNumber(r.updateDate) <= w.1
  }

  /** What a successful loop keeps from each window ends up in its result. */
  lemma {:induction false} CollectKeepsNew(ws: seq<Window>, existing: set<(Date, string)>, fetch: Window -> Response, keepNew: KeepNewRates)
    requires CollectNew(ws, existing, fetch, keepNew).Ok?
    ensures forall i :: 0 <= i < |ws| ==> FetchRates(fetch(ws[i])).Ok?
    ensures forall i, r :: 0 <= i < |ws| && fetch(ws[i]).json.Some? && r in keepNew(fetch(ws[i]).json.value, existing) ==>
      r in CollectNew(ws, existing, fetch, keepNew).value
    decreases |ws|
  {
    if ws != [] {
      var init := ws[..|ws| - 1];
      CollectKeepsNew(init, existing, fetch, keepNew);
      assert forall i :: 0 <= i < |init| ==> init[i] == ws[i];
      var acc := CollectNew(init, existing, fetch, keepNew).value;
      var last := ws[|ws| - 1];
      assert FetchRates(fetch(last)).Ok?;
      var kept := keepNew(fetch(last).json.value, existing);
      assert CollectNew(ws, existing, fetch, keepNew).value == acc + kept;
    }
  }

  /** When every candidate of every window is already stored, an exact de-duplication
      keeps nothing. */
  lemma {:induction false} CollectNothingNew(ws: seq<Window>, existing: set<(Date, string)>, fetch: Window -> Response, keepNew: KeepNewRates)
    requires DropsStoredKeys(keepNew)
    requires forall i :: 0 <= i < |ws| ==> fetch(ws[i]).json.Some?
    requires forall i, r :: 0 <= i < |ws| && r in fetch(ws[i]).json.value ==> (r.updateDate, r.code) in existing
    ensures CollectNew(ws, existing, fetch, keepNew) == Ok([])
    decreases |ws|
  {
    if ws != [] {
      var init := ws[..|ws| - 1];
      assert forall i :: 0 <= i < |init| ==> init[i] == ws[i];
      CollectNothingNew(init, existing, fetch, keepNew);
      var last := ws[|ws| - 1];
      var candidates := fetch(last).json.value;
      var kept := keepNew(candidates, existing);
      assert kept == Filter(candidates, (r: Rate) => (r.updateDate, r.code) !in existing);
      forall x ensures multiset(kept)[x] == 0 {
        if x in candidates {
          assert (x.updateDate, x.code) in existing;
        }
      }
      assert multiset(kept) == multiset{};
      assert NewRatesIn(fetch(last), existing, keepNew) == Ok([]);
      var acc: seq<Rate> := [];
      assert acc + kept == [];
    }
  }

  /** With an exact key de-duplication, windows answered only with rates inside the
      range yield nothing new once what the first pass kept has been added. */
  lemma NoTableRatesLeft(ws: seq<Window>, table: seq<Rate>, added: seq<Rate>, from: Date, to: Date,
                         fetch: Window -> Response, keepNew: KeepNewRates)
    requires DropsStoredKeys(keepNew)
    requires CollectNew(ws, GetRates(table, from, to), fetch, keepNew) == Ok(added)
    requires forall i, r :: 0 <= i < |ws| && fetch(ws[i]).json.Some? && r in fetch(ws[i]).json.value ==> InPeriod(r.updateDate, from, to)
    ensures CollectNew(ws, GetRates(table + added, from, to), fetch, keepNew) == Ok([])
  {
    var before := GetRates(table, from, to);
    var after := GetRates(table + added, from, to);
    CollectKeepsNew(ws, before, fetch, keepNew);
    GetRatesGrows(table, added, from, to);
    forall i, r | 0 <= i < |ws| && r in fetch(ws[i]).json.value
      ensures (r.updateDate, r.code) in after
    {
      if (r.updateDate, r.code) !in before {
        var kept := keepNew(fetch(ws[i]).json.value, before);
        assert multiset(kept)[r] > 0;
      }
    }
    CollectNothingNew(ws, after, fetch, keepNew);
  }

  /** Fetching the same range twice: once the first request has added its rates, the
      identical request finds nothing new and fails with "already in the database". */
  lemma TableIngestionIdempotent(table: seq<Rate>, dateFrom: Option<Date>, dateTo: Option<Date>, latest: Date, today: Date,
                                 fetch: Window -> Response, keepNew: KeepNewRates)
    requires ValidDate(latest) && ValidDate(today)
    requires dateFrom.Some? ==> ValidDate(dateFrom.value)
    requires dateTo.Some? ==> ValidDate(dateTo.value)
    requires DropsStoredKeys(keepNew) && AnswersWithinWindow(fetch)
    requires TableIngestion(table, dateFrom, dateTo, latest, today, fetch, keepNew).Ok?
    ensures var added := TableIngestion(table, dateFrom, dateTo, latest, today, fetch, keepNew).value;
      TableIngestion(table + added, dateFrom, dateTo, latest, today, fetch, keepNew) == Err(BadRequest(AllTablesPresentMessage))
  {
    var added := TableIngestion(table, dateFrom, dateTo, latest, today, fetch, keepNew).value;
    var (from, to) := ValidateRequest(dateFrom, dateTo, latest, today).value;
    var ws := FetchWindows(from, to);
    assert CollectNew(ws, GetRates(table, from, to), fetch, keepNew) == Ok(added);
    FetchWindowsShape(from, to);
    forall i, r | 0 <= i < |ws| && fetch(ws[i]).json.Some? && r in fetch(ws[i]).json.value
      ensures InPeriod(r.updateDate, from, to)
    {
      assert ValidDate(r.updateDate) && ws[i].0 <= DayNumber(r.updateDate) <= ws[i].1;
      DayNumberOrder(r.updateDate, from);
      DayNumberOrder(to, r.updateDate);
    }
    NoTableRatesLeft(ws, table, added, from, to, fetch, keepNew);
  }

  // ------------------------------------------------------- single-currency ingestion

  /** get_new_code_rates past decoding: the rates of a decoded answer to keep, given the
      requested code and the stored (update_date, mid) pairs of that code. */
  type KeepNewCodeRates = (seq<Rate>, string, set<(Date, real)>) -> seq<Rate>

  /** download_rates_for_currency, as a function of the stored rows. Without dates the
      latest published day of the code is looked up with the code as given, before it
      is upper-cased: `latestDay` is that lookup. */
  function CurrencyIngestion(table: seq<Rate>, code: string, dateFrom: Option<Date>, dateTo: Option<Date>, latestDay: string -> Date, today: Date,
                             fetch: (string, Window) -> Response, keepNew: KeepNewCodeRates): Result<seq<Rate>, HttpError>
    requires ValidDate(latestDay(code)) && ValidDate(today)
    requires dateFrom.Some? ==> ValidDate(dateFrom.value)
    requires dateTo.Some? ==> ValidDate(dateTo.value)
  {
    match ValidateRequest(dateFrom, dateTo, latestDay(code), today)
    case Err(e) => Err(e)
    case Ok((from, to)) =>
      var upper := Upper(code);
      var existing := GetCodeRates(table, upper, from, to);
      match FetchRates(fetch(upper, (DayNumber(from), DayNumber(to))))
      case Err(e) => Err(e)
      case Ok(candidates) =>
        var added := keepNew(candidates, upper, existing);
        if |added| == 0 then Err(BadRequest(AllCodeRatesPresentMessage(upper))) else Ok(added)
  }

  /** download_rates_for_currency: validate, upper-case the code, read the stored pairs
      of that code, fetch the whole range at once, then fail with "already in the
      database" or add the new rates in one call and report how many. */
  method DownloadRatesForCurrency(store: RateStore, code: string, dateFrom: Option<Date>, dateTo: Option<Date>, latestDay: string -> Date, today: Date,
                                  fetch: (string, Window) -> Response, keepNew: KeepNewCodeRates)
    returns (result: Result<string, HttpError>)
    requires ValidDate(latestDay(code)) && ValidDate(today)
    requires dateFrom.Some? ==> ValidDate(dateFrom.value)
    requires dateTo.Some? ==> ValidDate(dateTo.value)
    modifies store
    ensures match CurrencyIngestion(old(store.rows), code, dateFrom, dateTo, latestDay, today, fetch, keepNew)
            case Err(e) => result == Err(e) && store.rows == old(store.rows)
            case Ok(added) => result == Ok(AddedMessage(|added|)) && store.rows == old(store.rows) + added
  {
    var validated := ValidateRequest(dateFrom, dateTo, latestDay(code), today);
    if validated.Err? {
      return Err(validated.error);
    }
    var (from, to) := validated.value;
    var upper := Upper(code);
    var existing := GetCodeRates(store.rows, upper, from, to);
    var fetched := FetchRates(fetch(upper, (DayNumber(from), DayNumber(to))));
    if fetched.Err? {
      return Err(fetched.error);
    }
    var newRates := keepNew(fetched.value, upper, existing);
    if |newRates| == 0 {
      return Err(BadRequest(AllCodeRatesPresentMessage(upper)));
    }
    store.AddRates(newRates);
    result := Ok(AddedMessage(|newRates|));
  }

  /** The dates among stored (update_date, mid) pairs. */
  function StoredDates(existing: set<(Date, real)>): set<Date>
  {
    set p | p in existing :: p.0
  }

  /** The de-duplication of the single-currency handler: keep exactly the candidates
      whose date is not stored for the code; the price takes no part. */
  ghost predicate DropsStoredDates(keepNew: KeepNewCodeRates)
  {
    forall candidates, code, existing :: keepNew(candidates, code, existing) ==
      Filter(candidates, (r: Rate) => r.updateDate !in StoredDates(existing))
  }

  /** The provider answers a code's window only with valid rates of that code dated
      inside the window. */
  ghost predicate AnswersForCode(fetch: (string, Window) -> Response)
  {
    forall code: string, w: Window :: fetch(code, w).json.Some? ==>
      forall r :: r in fetch(code, w).json.value ==>
        r.code == code && ValidDate(r.updateDate) && w.0 <= DayNumber(r.updateDate) <= w.1
  }

  /** The request depends on the code only through its upper-case form, except for
      the latest-day lookup, which sees the code as given: the two spellings agree
      whenever a date is given or that lookup answers both alike. */
  lemma CurrencyIngestionCaseInsensitive(table: seq<Rate>, code: string, dateFrom: Option<Date>, dateTo: Option<Date>, latestDay: string -> Date, today: Date,
                                         fetch: (string, Window) -> Response, keepNew: KeepNewCodeRates)
    requires ValidDate(latestDay(code)) && ValidDate(latestDay(Upper(code))) && ValidDate(today)
    requires dateFrom.Some? ==> ValidDate(dateFrom.value)
    requires dateTo.Some? ==> ValidDate(dateTo.value)
    ensures dateFrom.Some? || dateTo.Some? || latestDay(code) == latestDay(Upper(code)) ==>
            CurrencyIngestion(table, code, dateFrom, dateTo, latestDay, today, fetch, keepNew) ==
            CurrencyIngestion(table, Upper(code), dateFrom, dateTo, latestDay, today, fetch, keepNew)
  {
    UpperIdempotent(code);
  }

  /** Without dates the two spellings can name different days: the handler is not
      case-insensitive when the latest-day lookup is not. */
  lemma LatestDayLookupSeesRawCode(table: seq<Rate>, code: string, latestDay: string -> Date, today: Date,
                                   fetch: (string, Window) -> Response, keepNew: KeepNewCodeRates)
    requires ValidDate(latestDay(code)) && ValidDate(today)
    ensures CurrencyIngestion(table, code, None, None, latestDay, today, fetch, keepNew) ==
      if Before(today, latestDay(code)) then Err(BadRequest(FutureMessage))
      else var upper := Upper(code);
        var day := latestDay(code);
        match FetchRates(fetch(upper, (DayNumber(day), DayNumber(day))))
        case Err(e) => Err(e)
        case Ok(candidates) =>
          var added := keepNew(candidates, upper, GetCodeRates(table, upper, day, day));
          if |added| == 0 then Err(BadRequest(AllCodeRatesPresentMessage(upper))) else Ok(added)
  {
  }

  /** With an exact date de-duplication, candidates of the code inside the range are all
      dropped once what the first request kept has been added. */
  lemma NoCodeRatesLeft(table: seq<Rate>, added: seq<Rate>, code: string, from: Date, to: Date, candidates: seq<Rate>, keepNew: KeepNewCodeRates)
    requires DropsStoredDates(keepNew)
    requires added == keepNew(candidates, code, GetCodeRates(table, code, from, to))
    requires forall r :: r in candidates ==> r.code == code && InPeriod(r.updateDate, from, to)
    ensures keepNew(candidates, code, GetCodeRates(table + added, code, from, to)) == []
  {
    var before := GetCodeRates(table, code, from, to);
    var after := GetCodeRates(table + added, code, from, to);
    GetCodeRatesGrows(table, added, code, from, to);
    forall r | r in candidates ensures r.updateDate in StoredDates(after) {
      if r.updateDate in StoredDates(before) {
        var p :| p in before && p.0 == r.updateDate;
        assert p in after;
      } else {
        assert multiset(added)[r] > 0;
        assert (r.updateDate, r.mid) in after;
      }
    }
    var kept := keepNew(candidates, code, after);
    forall x ensures multiset(kept)[x] == 0 {
      if x in candidates {
        assert x.updateDate in StoredDates(after);
      }
    }
    assert multiset(kept) == multiset{};
  }

  /** Once `usd` has added its rates, the same range asked for as `USD`, `UsD` or `usd`
      again finds nothing new and fails with "All USD rates ... already in the database". */
  lemma CurrencyIngestionIdempotent(table: seq<Rate>, code: string, again: string, dateFrom: Option<Date>, dateTo: Option<Date>,
                                    latestDay: string -> Date, today: Date, fetch: (string, Window) -> Response, keepNew: KeepNewCodeRates)
    requires ValidDate(latestDay(code)) && ValidDate(latestDay(again)) && ValidDate(today)
    requires dateFrom.Some? ==> ValidDate(dateFrom.value)
    requires dateTo.Some? ==> ValidDate(dateTo.value)
    requires DropsStoredDates(keepNew) && AnswersForCode(fetch)
    requires Upper(again) == Upper(code)
    requires dateFrom.Some? || dateTo.Some? || latestDay(again) == latestDay(code)
    requires CurrencyIngestion(table, code, dateFrom, dateTo, latestDay, today, fetch, keepNew).Ok?
    ensures var added := CurrencyIngestion(table, code, dateFrom, dateTo, latestDay, today, fetch, keepNew).value;
      CurrencyIngestion(table + added, again, dateFrom, dateTo, latestDay, today, fetch, keepNew) ==
        Err(BadRequest(AllCodeRatesPresentMessage(Upper(code))))
  {
    var added := CurrencyIngestion(table, code, dateFrom, dateTo, latestDay, today, fetch, keepNew).value;
    var (from, to) := ValidateRequest(dateFrom, dateTo, latestDay(code), today).value;
    var upper := Upper(code);
    var candidates := fetch(upper, (DayNumber(from), DayNumber(to))).json.value;
    assert added == keepNew(candidates, upper, GetCodeRates(table, upper, from, to));
    SeriesInRange(fetch, upper, from, to);
    NoCodeRatesLeft(table, added, upper, from, to, candidates, keepNew);
    if dateFrom.Some? || dateTo.Some? {
      ValidationIgnoresLatest(dateFrom, dateTo, latestDay(again), latestDay(code), today);
    }
  }

  /** What the series answers for a range is of the code and inside the range. */
  lemma SeriesInRange(fetch: (string, Window) -> Response, code: string, from: Date, to: Date)
    requires ValidDate(from) && ValidDate(to) && AnswersForCode(fetch)
    requires fetch(code, (DayNumber(from), DayNumber(to))).json.Some?
    ensures forall r :: r in fetch(code, (DayNumber(from), DayNumber(to))).json.value ==>
      r.code == code && InPeriod(r.updateDate, from, to)
  {
    forall r | r in fetch(code, (DayNumber(from), DayNumber(to))).json.value
      ensures r.code == code && InPeriod(r.updateDate, from, to)
    {
      DayInRange(r.updateDate, from, to);
    }
  }

  // ------------------------------------------- table ingestion, then one currency

  /** The provider's day tables and its single-currency series agree: for any day of a
      table window whose table decodes, every rate the series of a code gives for that
      day has a rate of the same code in the table. */
  ghost predicate TablesCarrySeries(fetchTable: Window -> Response, fetchCode: (string, Window) -> Response)
  {
    forall code: string, w: Window, v: Window, r: Rate ::
      fetchCode(code, w).json.Some? && r in fetchCode(code, w).json.value && fetchTable(v).json.Some?
      && ValidDate(r.updateDate) && v.0 <= DayNumber(r.updateDate) <= v.1 ==>
        exists t: Rate :: t in fetchTable(v).json.value && t.updateDate == r.updateDate && t.code == r.code
  }

  /** Every table window decoded, and what was kept from it is among `added`: what a
      successful table loop leaves behind. */
  ghost predicate WindowsAdded(ws: seq<Window>, existing: set<(Date, string)>, fetchTable: Window -> Response, keepTable: KeepNewRates, added: seq<Rate>)
  {
    forall i :: 0 <= i < |ws| ==>
      fetchTable(ws[i]).json.Some? && forall t :: t in keepTable(fetchTable(ws[i]).json.value, existing) ==> t in added
  }

  /** After a successful table ingestion, a day of the range that one of its windows
      covered is stored for every code the series answers on that day. */
  lemma TableDayStored(table: seq<Rate>, added: seq<Rate>, from: Date, to: Date, fetchTable: Window -> Response, keepTable: KeepNewRates,
                        fetchCode: (string, Window) -> Response, code: string, w: Window, r: Rate)
    requires ValidDate(from) && ValidDate(to)
    requires DropsStoredKeys(keepTable) && TablesCarrySeries(fetchTable, fetchCode)
    requires WindowsAdded(FetchWindows(from, to), GetRates(table, from, to), fetchTable, keepTable, added)
    requires fetchCode(code, w).json.Some? && r in fetchCode(code, w).json.value
    requires ValidDate(r.updateDate) && InPeriod(r.updateDate, from, to) && Covers(FetchWindows(from, to), DayNumber(r.updateDate))
    ensures r.updateDate in StoredDates(GetCodeRates(table + added, r.code, from, to))
  {
    var ws := FetchWindows(from, to);
    var existing := GetRates(table, from, to);
    var i :| 0 <= i < |ws| && ws[i].0 <= DayNumber(r.updateDate) <= ws[i].1;
    var listed := fetchTable(ws[i]).json.value;
    var t: Rate :| t in listed && t.updateDate == r.updateDate && t.code == r.code;
    if (t.updateDate, t.code) !in existing {
      var kept := keepTable(listed, existing);
      assert multiset(kept)[t] > 0;
    }
    KeyStored(table, added, from, to, t);
  }

  /** A rate whose key was stored, or that was added, leaves its day stored for its code. */
  lemma KeyStored(table: seq<Rate>, added: seq<Rate>, from: Date, to: Date, t: Rate)
    requires InPeriod(t.updateDate, from, to)
    requires (t.updateDate, t.code) in GetRates(table, from, to) || t in added
    ensures t.updateDate in StoredDates(GetCodeRates(table + added, t.code, from, to))
  {
    var after := GetCodeRates(table + added, t.code, from, to);
    GetCodeRatesGrows(table, added, t.code, from, to);
    if t in added {
      assert (t.updateDate, t.mid) in after;
    } else {
      var s: Rate :| s in table && (t.updateDate, t.code) == (s.updateDate, s.code);
      assert (s.updateDate, s.mid) in after;
    }
  }

  /** What the series of a code still adds after the tables of the same range: at most
      rates of the range's last day, and only when the table windows missed that day. */
  lemma SeriesAfterTables(table: seq<Rate>, added: seq<Rate>, from: Date, to: Date, fetchTable: Window -> Response, keepTable: KeepNewRates,
                          upper: string, fetchCode: (string, Window) -> Response, keepCode: KeepNewCodeRates)
    requires ValidDate(from) && ValidDate(to) && NotAfter(from, to)
    requires DropsStoredKeys(keepTable) && DropsStoredDates(keepCode)
    requires AnswersForCode(fetchCode) && TablesCarrySeries(fetchTable, fetchCode)
    requires WindowsAdded(FetchWindows(from, to), GetRates(table, from, to), fetchTable, keepTable, added)
    requires fetchCode(upper, (DayNumber(from), DayNumber(to))).json.Some?
    ensures var a, b := DayNumber(from), DayNumber(to);
      var kept := keepCode(fetchCode(upper, (a, b)).json.value, upper, GetCodeRates(table + added, upper, from, to));
      && (forall x :: x in kept ==> x.updateDate == to && b - a > TableSplitPeriod && (b - a) % TableSplitPeriod == 0)
      && (b - a <= TableSplitPeriod || (b - a) % TableSplitPeriod != 0 ==> kept == [])
  {
    SeriesDaysStored(table, added, from, to, fetchTable, keepTable, upper, fetchCode);
  }

  lemma SeriesDaysStored(table: seq<Rate>, added: seq<Rate>, from: Date, to: Date, fetchTable: Window -> Response, keepTable: KeepNewRates,
                         upper: string, fetchCode: (string, Window) -> Response)
    requires ValidDate(from) && ValidDate(to) && NotAfter(from, to)
    requires DropsStoredKeys(keepTable) && AnswersForCode(fetchCode) && TablesCarrySeries(fetchTable, fetchCode)
    requires WindowsAdded(FetchWindows(from, to), GetRates(table, from, to), fetchTable, keepTable, added)
    requires fetchCode(upper, (DayNumber(from), DayNumber(to))).json.Some?
    ensures var a, b := DayNumber(from), DayNumber(to);
      forall r :: r in fetchCode(upper, (a, b)).json.value && (r.updateDate != to || b - a <= TableSplitPeriod || (b - a) % TableSplitPeriod != 0) ==>
        r.updateDate in StoredDates(GetCodeRates(table + added, upper, from, to))
  {
    var a, b := DayNumber(from), DayNumber(to);
    var w := (a, b);
    forall r | r in fetchCode(upper, w).json.value && (r.updateDate != to || b - a <= TableSplitPeriod || (b - a) % TableSplitPeriod != 0)
      ensures r.updateDate in StoredDates(GetCodeRates(table + added, upper, from, to))
    {
      SeriesDayStored(table, added, from, to, fetchTable, keepTable, upper, fetchCode, r);
    }
  }

  lemma SeriesDayStored(table: seq<Rate>, added: seq<Rate>, from: Date, to: Date, fetchTable: Window -> Response, keepTable: KeepNewRates,
                        upper: string, fetchCode: (string, Window) -> Response, r: Rate)
    requires ValidDate(from) && ValidDate(to) && NotAfter(from, to)
    requires DropsStoredKeys(keepTable) && AnswersForCode(fetchCode) && TablesCarrySeries(fetchTable, fetchCode)
    requires WindowsAdded(FetchWindows(from, to), GetRates(table, from, to), fetchTable, keepTable, added)
    requires var a, b := DayNumber(from), DayNumber(to);
      && fetchCode(upper, (a, b)).json.Some? && r in fetchCode(upper, (a, b)).json.value
      && (r.updateDate != to || b - a <= TableSplitPeriod || (b - a) % TableSplitPeriod != 0)
    ensures r.updateDate in StoredDates(GetCodeRates(table + added, upper, from, to))
  {
    var w := (DayNumber(from), DayNumber(to));
    assert r.code == upper && ValidDate(r.updateDate);
    DayInRange(r.updateDate, from, to);
    FetchWindowsCover(from, to, DayNumber(r.updateDate));
    TableDayStored(table, added, from, to, fetchTable, keepTable, fetchCode, upper, w, r);
  }

  /** A day numbered between two days lies between them, and before the second unless
      it is that day. */
  lemma DayInRange(d: Date, from: Date, to: Date)
    requires ValidDate(d) && ValidDate(from) && ValidDate(to)
    requires DayNumber(from) <= DayNumber(d) <= DayNumber(to)
    ensures InPeriod(d, from, to)
    ensures d != to ==> DayNumber(d) < DayNumber(to)
  {
    DayNumberOrder(d, from);
    DayNumberOrder(to, d);
  }

  /** Tables first, then one currency over the same dates (the sequence of the handlers'
      test): with exact de-duplications and a provider whose tables carry its series,
      the currency request finds nothing new and answers "already in the database",
      unless the range is longer than 90 days and (to - from).days is a multiple of 90;
      then the table windows miss the last day, and that day is all it can add. */
  lemma TableThenCurrency(table: seq<Rate>, from: Date, to: Date, latest: Date, today: Date, fetchTable: Window -> Response, keepTable: KeepNewRates,
                          code: string, latestDay: string -> Date, fetchCode: (string, Window) -> Response, keepCode: KeepNewCodeRates)
    requires ValidDate(from) && ValidDate(to) && ValidDate(latest) && ValidDate(latestDay(code)) && ValidDate(today)
    requires DropsStoredKeys(keepTable) && DropsStoredDates(keepCode)
    requires AnswersForCode(fetchCode) && TablesCarrySeries(fetchTable, fetchCode)
    requires TableIngestion(table, Some(from), Some(to), latest, today, fetchTable, keepTable).Ok?
    ensures var added := TableIngestion(table, Some(from), Some(to), latest, today, fetchTable, keepTable).value;
      var a, b := DayNumber(from), DayNumber(to);
      var second := CurrencyIngestion(table + added, code, Some(from), Some(to), latestDay, today, fetchCode, keepCode);
      && (second.Ok? ==> b - a > TableSplitPeriod && (b - a) % TableSplitPeriod == 0 && forall r :: r in second.value ==> r.updateDate == to)
      && (FetchRates(fetchCode(Upper(code), (a, b))).Ok? && (b - a <= TableSplitPeriod || (b - a) % TableSplitPeriod != 0) ==>
            second == Err(BadRequest(AllCodeRatesPresentMessage(Upper(code)))))
  {
    var added := TableIngestion(table, Some(from), Some(to), latest, today, fetchTable, keepTable).value;
    assert ValidateRequest(Some(from), Some(to), latest, today) == Ok((from, to));
    assert ValidateRequest(Some(from), Some(to), latestDay(code), today) == Ok((from, to));
    var ws, existing := FetchWindows(from, to), GetRates(table, from, to);
    assert CollectNew(ws, existing, fetchTable, keepTable) == Ok(added);
    CollectKeepsNew(ws, existing, fetchTable, keepTable);
    assert WindowsAdded(ws, existing, fetchTable, keepTable, added);
    if fetchCode(Upper(code), (DayNumber(from), DayNumber(to))).json.Some? {
      SeriesAfterTables(table, added, from, to, fetchTable, keepTable, Upper(code), fetchCode, keepCode);
    }
  }
}
