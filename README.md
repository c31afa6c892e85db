# Exchange-rate backend: date tokens and rate ingestion

This project models the core of a small FastAPI service that stores the National Bank
of Poland's "table A" mid exchange rates in a database and serves them back.

**Read side.**
- `GET /currencies/` lists the distinct (currency, code) pairs, ordered by currency name.
- `GET /currencies/{request_date}` takes a date token and returns the stored rates of
  the date range it names, in date order.
  - Accepted tokens: four digits (a year), digits `-Q` digits (a quarter), digits `-`
    digits (a month), or the `YYYY-MM-DD` form of an existing day. Digit runs of any
    length are read, so `5-3` is March of year 5 and `2025-Q01` the first quarter of
    2025. Every other token is an invalid format.
  - An optional currency code narrows the result; the code is matched after
    upper-casing.
  - The end of a year, quarter or month range is clipped to today.

**Write side.** `POST /currencies/fetch/tables` and `POST /currencies/fetch/rates`
share a validation chain:
1. both dates or neither;
2. neither means the provider's latest day;
3. from <= to;
4. not in the future;
5. at most 366 days apart.

Then they:
- read the keys already stored for the range;
- fetch the range from the provider, the table endpoint in windows of 90 days;
- keep only the rates not already stored;
- either answer "already in the database" or add everything in one commit and
  report the count.

The model is in Dafny.

| File | What it holds |
|---|---|
| `calendar.dfy` | Proleptic Gregorian dates, day numbers and the `relativedelta(months=k, days=-1)` month end. |
| `text.dfy` | Decimal digits, `str.split`, ASCII upper-casing and string order. |
| `sequences.dfy` | Filtering, de-duplication and a stable sort. |
| `queries.dfy` | The database readers as functions of a table of rows, and `add_rates_to_db` as a class whose `rows` field the method extends. |
| `services.dfy` | `split_fetch_period` as a loop proved against a recursive specification, and `fetch_rates`. |
| `date_tokens.dfy` | The date-token resolver. |
| `rate_router.dfy` | The read handlers, the validation, and both ingestion handlers, each a method on the store proved against a specification function. |

`split_fetch_period` loops `while current_start < end_date`. When the number of days
from start to end is a multiple of the period, the last window ends the day before
`end_date`, and `end_date` is never fetched. For example, a 180-day table request
fetches days 0-89 and 90-179 and leaves out day 180. The model keeps this behaviour
as written:
- `Services.WindowsLastEnd` and `Services.WindowsCover` state exactly when it happens;
- `RateRouter.HundredEightyDaysMissLastDay` shows the 180-day case.

## Model

| member | source | states |
|---|---|---|
| Calendar.Earlier | backend/routers/rate.py:43-44 | `if end_date > today: end_date = today`: the result is the earlier of the two dates and one of them |
| Calendar.DayNumberOrder | backend/routers/rate.py:99-105 | Comparing dates and taking `(date_to - date_from).days` agree: a is before b iff its day number is smaller, and equal iff the day numbers are equal |
| Calendar.PreviousDay | backend/routers/rate.py:50 | `days=-1` gives a valid date exactly one day number earlier |
| Calendar.AddMonthsLessOneDay | backend/routers/rate.py:50 | `d + relativedelta(months=k, days=-1)` is defined iff the month k later is not past December 9999 (Python's `replace` raises ValueError there); the result is valid; from a first of the month it is the last day of month index+k-1 |
| Text.DigitsValue | backend/routers/rate.py:40 | The value of a digit string is below 10^length |
| Text.ParseInt | backend/routers/rate.py:40 | `int(s)` succeeds iff s is a non-empty run of ASCII digits no longer than Python's 4300-digit conversion limit, with a value below 10^length |
| Text.PadDigits | backend/routers/rate.py:62 | A zero-padded field of the given width holds only digits |
| Text.PadDigitsRoundTrip | backend/routers/rate.py:62 | Reading a zero-padded field gives back the number |
| Text.PadDigitsOfValue | backend/routers/rate.py:62 | A digit field is the padding of its own value |
| Text.NatToDecimal | backend/routers/rate.py:126 | The count in "Added {n} rates" is a non-empty digit string without a leading zero |
| Text.NatToDecimalRoundTrip | backend/routers/rate.py:126 | `int(str(n)) == n` |
| Text.IndexOf | backend/routers/rate.py:45 | `'Q' in request_date` / the first occurrence of a separator: the index found is an occurrence and no earlier one exists; None means no occurrence anywhere |
| Text.Split | backend/routers/rate.py:47 | `str.split(sep)` yields at least one piece |
| Text.SplitJoin | backend/routers/rate.py:54 | Joining the pieces of `split(sep)` with sep gives back the string |
| Text.SplitPiecesAvoidSeparator | backend/routers/rate.py:54 | No piece of a split contains the separator |
| Text.SplitWithoutSeparator | backend/routers/rate.py:54 | A string without the separator splits into itself |
| Text.SplitAtFirst | backend/routers/rate.py:47 | Splitting cuts at the first occurrence and splits the rest |
| Text.SplitAtOnlySeparator | backend/routers/rate.py:47 | With exactly one occurrence the split is the two sides, as `year, quarter = ...split('-Q')` needs |
| Text.Upper | backend/routers/rate.py:74 | `code.upper()` keeps the length, maps each lower-case letter to its upper-case letter and changes nothing else |
| Text.UpperIdempotent | backend/routers/rate.py:153 | Upper-casing twice is upper-casing once |
| Text.StrLeTotal | backend/helpers/queries.py:10 | The string order used by `order_by(Rate.currency)` relates any two strings |
| Text.StrLeTransitive | backend/helpers/queries.py:10 | That order is transitive |
| Sequences.Filter | backend/helpers/queries.py:16 | A filter keeps every element that passes with its multiplicity, drops the others, and everything kept passes |
| Sequences.Distinct | backend/helpers/queries.py:10 | `.distinct()` keeps each value present exactly once and adds none |
| Sequences.SortBy | backend/helpers/queries.py:44 | `order_by` returns a permutation of its input that is sorted by the key |
| Queries.ByDateIsTotalPreorder | backend/helpers/queries.py:44 | Ordering rows by update date is a total preorder |
| Queries.ByCurrencyIsTotalPreorder | backend/helpers/queries.py:10 | Ordering pairs by currency name is a total preorder |
| Queries.GetCurrencies | backend/helpers/queries.py:8-11 | Each (currency, code) pair of some row appears exactly once, no other pair appears, and the list is ordered by currency |
| Queries.GetRates | backend/helpers/queries.py:14-17 | The set is exactly the (update_date, code) keys of the rows dated within [from, to] inclusive |
| Queries.GetCodeRates | backend/helpers/queries.py:20-28 | The set is exactly the (update_date, mid) pairs of the rows of that exact code dated within [from, to] |
| Queries.GetRatesForPeriod | backend/helpers/queries.py:31-46 | The rows returned are, with multiplicity, those dated within [start, end] and matching a non-empty code; they are in date order; start and end are echoed |
| Queries.GetRatesForDate | helpers/queries.py:25-28 | The rows returned are, with multiplicity, those dated on the day and matching a non-empty code |
| Queries.RateStore.AddRates | backend/helpers/queries.py:49-52 | The table becomes the old rows followed by the new ones, all in one step |
| Queries.GetRatesAfterAdd | backend/helpers/queries.py:49-52 | After an add, the stored keys of a range are the old keys plus the keys of the added rows |
| Queries.GetRatesGrows | backend/helpers/queries.py:49-52 | Adding rows loses no key, and every added row dated in the range contributes its key |
| Queries.GetCodeRatesGrows | backend/helpers/queries.py:49-52 | The same for a code's (date, mid) pairs |
| Queries.DuplicateKeyStillAdded | backend/helpers/queries.py:49-52 | No uniqueness is enforced: adding a row whose key is already stored still adds a row to that day's readout |
| Queries.DayReaderMatchesPeriodReader | helpers/queries.py:25-45 | The older one-day reader returns the same rows as the period reader on [day, day] |
| Services.SplitFetchPeriod | helpers/services.py:8-16 | The loop's windows are the recursive specification's windows; they tile [start, end] from start in windows of `split_period` days; there are ceil((end-start)/period) of them, and none when start >= end |
| Services.WindowsTile | helpers/services.py:11-14 | Consecutive windows are contiguous, all but the last are full, and none passes end |
| Services.WindowsCount | helpers/services.py:11-14 | The number of windows n satisfies (n-1)*p < end-start <= n*p |
| Services.WindowsLastEnd | helpers/services.py:11-12 | The last window ends at end iff (end-start) is not a multiple of the period, and at end-1 otherwise |
| Services.WindowsCover | helpers/services.py:11 | A day is fetched iff start <= day < end, or it is end and (end-start) is not a multiple of the period |
| Services.FetchRates | helpers/services.py:19-28 | A decodable answer is returned unchanged; otherwise the error keeps the status code and its detail is the response text and ". ", followed by "Try other dates." exactly when the status is 404 and by nothing otherwise |
| DateTokens.IsoFormat | backend/routers/rate.py:62 | A date prints as ten characters `YYYY-MM-DD` with digits outside the two dashes |
| DateTokens.FromIsoFormat | backend/routers/rate.py:62 | `date.fromisoformat` only produces existing dates |
| DateTokens.IsoFormatRoundTrip | backend/routers/rate.py:62 | Parsing a printed date gives the date back |
| DateTokens.FromIsoFormatCanonical | backend/routers/rate.py:62 | A string that parses is the printed form of its date |
| DateTokens.ParseToken | backend/routers/rate.py:38-64 | The four token shapes give valid dates; when the start is not after today, start <= end <= today |
| DateTokens.Resolve | backend/routers/rate.py:35-71 | A resolved range is valid, ordered and ends by today; the invalid-format error occurs iff parsing raises ValueError; a 500 occurs iff parsing raises OverflowError, which the `except ValueError` clause does not catch; the future error occurs iff the token parses and its start is after today (a parsed end is clipped to today, or equals the start) |
| DateTokens.ResolveOnlyShapes | backend/routers/rate.py:38-68 | A token that is not an invalid format is four digits, two non-empty digit runs around `-Q` or around `-`, or the ISO form of an existing day; every other token is "Invalid date format" |
| DateTokens.ResolveYear | backend/routers/rate.py:39-44 | A four-character token is Jan 1 to Dec 31 of its year, the end clipped to today; non-digits or year 0 are an invalid format, a future year is the future error |
| DateTokens.MonthsRangeEnd | backend/routers/rate.py:50-59 | For a valid first of month the range ends on the last day of the k-th month, clipped to today |
| DateTokens.ResolveQuarter | backend/routers/rate.py:45-52 | `Y-Qn` is the first day of month 3n-2 to the last day of month 3n, clipped to today; a part over 4300 digits is an invalid format; a year or 3n-2 outside the C int range is a 500; n outside 1..4, a year outside 1..9999 or 9999-Q4 is an invalid format; a future start is the future error |
| DateTokens.ResolveMonth | backend/routers/rate.py:54-59 | `Y-M` is the first to the last day of month M, clipped to today; a part over 4300 digits is an invalid format; a year or month outside the C int range is a 500; a month outside 1..12, a year outside 1..9999 or 9999-12 is an invalid format |
| DateTokens.ResolveDay | backend/routers/rate.py:61-71 | A `YYYY-MM-DD` token is that single day, or the future error when it is after today |
| DateTokenExamples.YearExample | backend/tests/test_rates.py:107 | "2025" resolves to 2025-01-01 .. 2025-12-31 once 2025 is over |
| DateTokenExamples.QuarterExample | backend/tests/test_rates.py:107 | "2025-Q1" resolves to 2025-01-01 .. 2025-03-31 |
| DateTokenExamples.MonthThirteenExample | backend/routers/rate.py:56 | "2025-13" is an invalid format |
| DateTokenExamples.ThreeDigitMonthExample | backend/tests/test_rates.py:159-163 | The `invalid_date` fixture "2025-010-22" (test_rates.py:17-18) has three dash-separated parts, is not an ISO date, and is an invalid format |
| DateTokenExamples.MonthOverflowExample | backend/routers/rate.py:54-64 | "2147483648-01" makes `date(year, month, 1)` raise OverflowError, which escapes the `except ValueError` clause: the answer is a 500 |
| RateRouter.AddedMessageReportsCount | backend/routers/rate.py:126 | The success message is "Added ", the count in decimal, then " rates" |
| RateRouter.GetAllCurrencies | backend/routers/rate.py:21-26 | 404 "No currencies found. Try to fetch them first." iff the table is empty, the distinct pairs otherwise |
| RateRouter.GetRatesHandler | backend/routers/rate.py:73-82 | A success is non-empty, in date order, no later than today, and holds with its multiplicity every row of the table inside the resolved range that matches the upper-cased code, and no other row; a token that does not resolve passes the resolver's 400 or 500 through unchanged |
| RateRouter.GetRatesBadToken | backend/tests/test_rates.py:159-167 | "2025-010-22" answers 400 "Invalid date format" and any day after today 400 "Date cannot be in the future.", whatever is stored and whatever code is asked |
| RateRouter.GetRatesCaseInsensitive | backend/routers/rate.py:73-74 | Asking with a code or with its upper-case form gives the same answer |
| RateRouter.GetRatesNotFound | backend/routers/rate.py:76-80 | For a resolved token, the answer is 404 iff no row of the range matches the code; the message names the upper-cased code iff a non-empty code was given |
| RateRouter.ValidateRequest | backend/routers/rate.py:91-106 | A request that passes has valid dates, from <= to <= today and at most 366 days between them |
| RateRouter.ValidationOrder | backend/routers/rate.py:91-106 | Only one date is "Both or none dates are required."; then from > to is the "older" error; then a future end is the future error; then more than 366 days is the length error; otherwise the range is accepted |
| RateRouter.ValidationDefaultsToLatest | backend/routers/rate.py:94-97 | Without dates the request is the latest published day, rejected only if that day is in the future |
| RateRouter.ValidationIgnoresLatest | backend/routers/rate.py:93-96 | When a date is given the provider's latest day plays no part in the validation |
| RateRouter.FetchWindowsShape | backend/routers/rate.py:112-118 | Up to 90 days past the start is one window; more is at least two windows of 90 days tiling the range, ceil(days/90) of them, missing the last day iff the day count is a multiple of 90; every window lies inside the range |
| RateRouter.HundredEightyDaysMissLastDay | backend/routers/rate.py:113-116 | A 180-day request fetches days 0-89 and 90-179 and not day 180 |
| RateRouter.FetchWindowsCover | backend/routers/rate.py:112-118 | A table request fetches day t iff t is in [from, to], except the last day when the range is longer than 90 days and a multiple of 90 |
| RateRouter.CollectErrorPersists | backend/routers/rate.py:120-121 | A provider error in one window ends the whole request with that error |
| RateRouter.CollectFirstFailure | backend/routers/rate.py:120-121 | The loop succeeds iff every window's answer decodes; otherwise it fails with the error of the first window that does not |
| RateRouter.CollectConcat | backend/routers/rate.py:120-121 | New rates accumulate window after window, earlier windows first |
| RateRouter.FetchNewRates | backend/routers/rate.py:119-120 | The loop over the fetch windows returns the windows' new rates in order, or the error of the first window whose answer does not decode |
| RateRouter.DownloadRatesForTable | backend/routers/rate.py:85-126 | The method returns the handler's specification: on every error nothing is stored; on success the new rates are appended in one step and the message carries their count |
| RateRouter.TableIngestionIdempotent | backend/routers/rate.py:108-126 | With exact (date, code) de-duplication and answers inside their windows, repeating a successful table request fails with "All rates for specified period are already in the database." |
| RateRouter.DownloadRatesForCurrency | backend/routers/rate.py:129-161 | The same for the single-currency handler: the latest day is looked up with the code as given, then one request for the whole range with the upper-cased code, nothing stored on error, one append on success |
| RateRouter.CurrencyIngestionCaseInsensitive | backend/routers/rate.py:138-156 | When dates are given, or the latest-day lookup answers the same for the code as given and its upper-case form, the handler depends on the code only through its upper-case form |
| RateRouter.LatestDayLookupSeesRawCode | backend/routers/rate.py:138-142 | Without dates the range is the latest day the provider reports for the code as given, before upper-casing; the rest of the handler uses the upper-cased code |
| RateRouter.CurrencyIngestionIdempotent | backend/routers/rate.py:153-161 | With date de-duplication and answers of the asked code inside the range, once `usd` has added its rates, the same range as `USD`, `UsD` or `usd` fails with "All USD rates for specified period are already in the database." (without dates, provided the latest-day lookup answers the same for both spellings) |
| RateRouter.TableThenCurrency | backend/tests/test_rates.py:251-265 | After a successful table request, a currency request for the same range fails with "All {CODE} rates for specified period are already in the database." whenever the provider answers it, unless the range is longer than 90 days and a multiple of 90; even then it can add only rates of the last day, the one the table windows skipped |

## Left out

- The HTTP call to the provider is a function parameter (`fetch`). The latest
  published day, read from the provider when no dates are given, is the input
  `latest` for the table handler and the function `latestDay` of the code as given
  for the currency handler; today's date is the input `today`. The lookup's own
  failures (an answer that is not JSON, an empty list) are not modelled. URL
  construction is not modelled: a window stands for its URL.
- The bodies of `get_new_rates` and `get_new_code_rates` are not part of this model.
  The model assumes that each of them first decodes the response with `fetch_rates`,
  raising its error, and then keeps the new rates; the keeping is the parameter
  `keepNew`. The error outcomes of `RateRouter.CollectFirstFailure`,
  `RateRouter.FetchNewRates` and `RateRouter.CurrencyIngestion` rest on that
  assumption. The idempotence lemmas state the de-duplication as a hypothesis.
- The conversion of the provider's JSON into rows is left out. The provider's answer
  is already a list of rates or nothing.
- FastAPI's own 422 answer for a query date that does not parse happens before the
  handler and is not modelled. Both ingestion handlers receive valid dates.
- Python's `int()` also accepts signs, surrounding spaces, underscores and non-ASCII
  digits, and `date.fromisoformat` accepts further ISO 8601 forms in newer Python
  versions. The model accepts ASCII digits and the strict `YYYY-MM-DD` form only.
- RateRouter.TableThenCurrency: assumes, as `TablesCarrySeries`, that every rate the
  per-currency endpoint reports for a day inside a table window also appears in that
  window's table answer; the provider is not part of this model.
- `str.upper()` is modelled on ASCII letters only.
- The order of rows with equal sort keys is whatever the database returns. The model
  sorts stably, and only sortedness and the multiset of rows are stated.
- The database session, transactions and concurrent requests are left out. The
  single `add_rates_to_db` call is one atomic append.
- The frontend and the older root-level `routers/rate.py` are not part of this model.
- Rates' `mid` values are kept as reals and never computed on.
