/** helpers/services.py: the loop that cuts a long date range into provider-sized
    windows, and the check that turns an unparseable provider response into an HTTP
    error. Dates are day numbers here (see Calendar.DayNumber), so a window is a
    pair of integers. */
module Services {
  import opened Wrappers
  import opened Errors
  import opened Queries

  /** A fetch window: its first and last day number, both included. */
  type Window = (int, int)

  function Min(a: int, b: int): int
  {
    if a < b then a else b
  }

  /** The windows split_fetch_period returns: from `start`, windows of `period` days,
      the last one cut at `end`, for as long as the next window starts strictly before
      `end`. */
  function Windows(start: int, end: int, period: int): seq<Window>
    requires period >= 1
    decreases end - start
  {
    if start < end then
      var last := Min(start + period - 1, end);
      [(start, last)] + Windows(last + 1, end, period)
    else []
  }

  /** Some window of `ws` holds day `t`. */
  predicate Covers(ws: seq<Window>, t: int)
  {
    exists i :: 0 <= i < |ws| && ws[i].0 <= t <= ws[i].1
  }

  /** `ws` tiles its days: the first window starts at `start`, each later one starts the
      day after the previous one ends, none ends after `end`, none is empty or longer
      than `period` days, and all but the last are exactly `period` days long. */
  predicate Tiles(ws: seq<Window>, start: int, end: int, period: int)
  {
    && (|ws| > 0 ==> ws[0].0 == start)
    && (forall i :: 0 <= i < |ws| ==> ws[i].0 <= ws[i].1 <= end && ws[i].1 - ws[i].0 + 1 <= period)
    && (forall i :: 0 <= i < |ws| - 1 ==> ws[i].1 - ws[i].0 + 1 == period && ws[i + 1].0 == ws[i].1 + 1)
  }

  /** split_fetch_period */
  method SplitFetchPeriod(startDate: int, endDate: int, splitPeriod: int) returns (datePeriods: seq<Window>)
    requires splitPeriod >= 1
    ensures datePeriods == Windows(startDate, endDate, splitPeriod)
    ensures Tiles(datePeriods, startDate, endDate, splitPeriod)
    ensures |datePeriods| == if startDate < endDate then (endDate - startDate + splitPeriod - 1) / splitPeriod else 0
  {
    datePeriods := [];
    var currentStart := startDate;
    while currentStart < endDate
      invariant datePeriods + Windows(currentStart, endDate, splitPeriod) == Windows(startDate, endDate, splitPeriod)
      decreases endDate - currentStart
    {
      var currentEnd := Min(currentStart + splitPeriod - 1, endDate);
      datePeriods := datePeriods + [(currentStart, currentEnd)];
      currentStart := currentEnd + 1;
    }
    WindowsTile(startDate, endDate, splitPeriod);
    WindowsCount(startDate, endDate, splitPeriod);
  }

  lemma {:induction false} WindowsTile(start: int, end: int, period: int)
    requires period >= 1
    ensures Tiles(Windows(start, end, period), start, end, period)
    decreases end - start
  {
    if start < end {
      var last := Min(start + period - 1, end);
      var rest := Windows(last + 1, end, period);
      WindowsTile(last + 1, end, period);
      var ws := Windows(start, end, period);
      assert ws == [(start, last)] + rest;
      forall i | 0 <= i < |ws| - 1
        ensures ws[i].1 - ws[i].0 + 1 == period && ws[i + 1].0 == ws[i].1 + 1
      {
        if i > 0 {
          assert ws[i] == rest[i - 1] && ws[i + 1] == rest[i];
        }
      }
    }
  }

  lemma MulMono(a: int, b: int, p: int)
    requires a <= b && p >= 0
    ensures a * p <= b * p
  {
  }

  /** `n` is the ceiling of d / p exactly when (n - 1) * p < d <= n * p. */
  lemma CeilDiv(n: int, d: int, p: int)
    requires p >= 1 && (n - 1) * p < d <= n * p
    ensures n == (d + p - 1) / p
  {
    var q := (d + p - 1) / p;
    if q < n {
      MulMono(q, n - 1, p);
    } else if q > n {
      MulMono(n + 1, q, p);
    }
  }

  /** ceil((end - start) / period) windows, and none for a range of a single day or an
      inverted one. */
  lemma {:induction false} WindowsCount(start: int, end: int, period: int)
    requires period >= 1
    ensures start >= end ==> Windows(start, end, period) == []
    ensures start < end ==> (|Windows(start, end, period)| - 1) * period < end - start <= |Windows(start, end, period)| * period
    ensures |Windows(start, end, period)| == if start < end then (end - start + period - 1) / period else 0
    decreases end - start
  {
    if start < end {
      var n := |Windows(start, end, period)|;
      var last := Min(start + period - 1, end);
      WindowsCount(last + 1, end, period);
      if last + 1 < end {
        var m := |Windows(last + 1, end, period)|;
        assert n == m + 1;
        assert (n - 1) * period == m * period;
        assert n * period == m * period + period;
      }
      CeilDiv(n, end - start, period);
    }
  }

  lemma DivModUnique(n: int, p: int, q: int, r: int)
    requires p >= 1 && 0 <= r < p && n == q * p + r
    ensures n / p == q && n % p == r
  {
    var q', r' := n / p, n % p;
    if q < q' {
      MulMono(q + 1, q', p);
    } else if q' < q {
      MulMono(q' + 1, q, p);
    }
  }

  lemma ModStep(d: int, p: int)
    requires p >= 1 && d >= 0
    ensures (d + p) % p == d % p
  {
    DivModUnique(d, p, d / p, d % p);
    DivModUnique(d + p, p, d / p + 1, d % p);
  }

  lemma ModSmall(d: int, p: int)
    requires p >= 1 && 0 <= d <= p
    ensures d % p == 0 <==> d == 0 || d == p
  {
  }

  /** The strict `<` of the loop: the last window ends at `end` unless end - start is a
      positive multiple of `period`; then it ends the day before and `end` itself is in
      no window. */
  lemma {:induction false} WindowsLastEnd(start: int, end: int, period: int)
    requires period >= 1 && start < end
    ensures var ws := Windows(start, end, period);
      |ws| > 0 && (ws[|ws| - 1].1 == end <==> (end - start) % period != 0)
    ensures var ws := Windows(start, end, period);
      |ws| > 0 && ((end - start) % period == 0 ==> ws[|ws| - 1].1 == end - 1)
    decreases end - start
  {
    var last := Min(start + period - 1, end);
    var ws := Windows(start, end, period);
    if last + 1 < end {
      WindowsLastEnd(last + 1, end, period);
      ModStep(end - last - 1, period);
      assert ws[|ws| - 1] == Windows(last + 1, end, period)[|Windows(last + 1, end, period)| - 1];
    } else {
      ModSmall(end - start, period);
    }
  }

  /** Exactly which days the windows cover: every day from `start` up to but not
      including `end`, and `end` itself only when end - start is not a multiple of
      `period`. */
  lemma {:induction false} WindowsCover(start: int, end: int, period: int, t: int)
    requires period >= 1
    ensures Covers(Windows(start, end, period), t) <==>
            start <= t < end || (start < end && t == end && (end - start) % period != 0)
    decreases end - start
  {
    var ws := Windows(start, end, period);
    if start < end {
      var last := Min(start + period - 1, end);
      var rest := Windows(last + 1, end, period);
      assert ws == [(start, last)] + rest;
      WindowsCover(last + 1, end, period, t);
      if Covers(rest, t) {
        var i :| 0 <= i < |rest| && rest[i].0 <= t <= rest[i].1;
        assert ws[i + 1] == rest[i];
      }
      if Covers(ws, t) && !(start <= t <= last) {
        var i :| 0 <= i < |ws| && ws[i].0 <= t <= ws[i].1;
        assert i > 0 && ws[i] == rest[i - 1];
      }
      if start <= t <= last {
        assert ws[0] == (start, last);
      }
      if last + 1 < end {
        ModStep(end - last - 1, period);
      } else {
        ModSmall(end - start, period);
      }
    }
  }

  /** What `requests` hands back: the status, the body text and the decoded JSON
      payload, or `None` when the body is not JSON. The payload is given already
      converted to rate rows. */
  datatype Response = Response(statusCode: int, text: string, json: Option<seq<Rate>>)

  /** fetch_rates: the decoded payload, or an error that keeps the upstream status code
      and carries the body text, with "Try other dates." appended only for a 404. */
  function FetchRates(response: Response): (r: Result<seq<Rate>, HttpError>)
    ensures r.Ok? <==> response.json.Some?
    ensures r.Ok? ==> r.value == response.json.value
    ensures r.Err? ==> r.error.status == response.statusCode
    ensures r.Err? ==> |r.error.detail| >= |response.text| + 2 && r.error.detail[..|response.text| + 2] == response.text + ". "
    ensures r.Err? ==> |r.error.detail| >= |response.text| + 2 && (r.error.detail[|response.text| + 2..] == "Try other dates." <==> response.statusCode == 404)
    ensures r.Err? && response.statusCode != 404 ==> r.error.detail == response.text + ". "
  {
    match response.json
    case Some(data) => Ok(data)
    case None =>
      var suffix := if response.statusCode == 404 then "Try other dates." else "";
      var detail := response.text + ". " + suffix;
      assert detail[..|response.text| + 2] == response.text + ". ";
      assert detail[|response.text| + 2..] == suffix;
      Err(HttpError(response.statusCode, detail))
  }
}
