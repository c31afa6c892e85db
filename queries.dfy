/** The rate table and the queries over it (backend/helpers/queries.py and its older
    copy helpers/queries.py). The table is a sequence of rows in insertion order; the
    readers are filters, `DISTINCT` and `ORDER BY` over a snapshot of it, and the one
    writer appends. */
module Queries {
  import opened Wrappers
  import opened Calendar
  import opened Text
  import opened Sequences

  /** One row of the `rates` table. `mid` is carried and compared, never computed on. */
  datatype Rate = Rate(updateDate: Date, currency: string, code: string, mid: real)

  /** SQL `update_date BETWEEN from AND to`: inclusive at both ends. */
  predicate InPeriod(d: Date, from: Date, to: Date)
  {
    NotAfter(from, d) && NotAfter(d, to)
  }

  /** Python's `if code:`: a filter applies only for a present, non-empty code. */
  predicate CodeMatches(r: Rate, code: Option<string>)
  {
    code.None? || code.value == [] || r.code == code.value
  }

  /** `ORDER BY update_date`. */
  predicate ByDate(a: Rate, b: Rate)
  {
    NotAfter(a.updateDate, b.updateDate)
  }

  /** `ORDER BY currency`. */
  predicate ByCurrency(a: (string, string), b: (string, string))
  {
    StrLe(a.0, b.0)
  }

  lemma ByDateIsTotalPreorder()
    ensures IsTotalPreorder(ByDate)
  {
  }

  lemma ByCurrencyIsTotalPreorder()
    ensures IsTotalPreorder(ByCurrency)
  {
    forall a: (string, string), b: (string, string) ensures ByCurrency(a, b) || ByCurrency(b, a) {
      StrLeTotal(a.0, b.0);
    }
    forall a: (string, string), b: (string, string), c: (string, string) | ByCurrency(a, b) && ByCurrency(b, c)
      ensures ByCurrency(a, c)
    {
      StrLeTransitive(a.0, b.0, c.0);
    }
  }

  function CurrencyPairs(table: seq<Rate>): (pairs: seq<(string, string)>)
    ensures |pairs| == |table|
    ensures forall i :: 0 <= i < |table| ==> pairs[i] == (table[i].currency, table[i].code)
  {
    seq(|table|, i requires 0 <= i < |table| => (table[i].currency, table[i].code))
  }

  /** get_currencies: every (currency, code) pair that occurs in the table, exactly
      once, ordered by currency name. */
  function GetCurrencies(table: seq<Rate>): (pairs: seq<(string, string)>)
    ensures forall p :: multiset(pairs)[p] == if exists r :: r in table && p == (r.currency, r.code) then 1 else 0
    ensures SortedBy(pairs, ByCurrency)
  {
    ByCurrencyIsTotalPreorder();
    var all := CurrencyPairs(table);
    forall p ensures p in all <==> exists r :: r in table && p == (r.currency, r.code) {
      if p in all {
        var i :| 0 <= i < |all| && all[i] == p;
        assert table[i] in table;
      }
    }
    SortBy(Distinct(all), ByCurrency)
  }

  /** get_rates: the (update_date, code) keys of the rows dated within [from, to]. */
  function GetRates(table: seq<Rate>, from: Date, to: Date): (keys: set<(Date, string)>)
    ensures forall r :: r in table && InPeriod(r.updateDate, from, to) ==> (r.updateDate, r.code) in keys
    ensures forall k :: k in keys ==> InPeriod(k.0, from, to) && exists r :: r in table && k == (r.updateDate, r.code)
  {
    set r | r in table && InPeriod(r.updateDate, from, to) :: (r.updateDate, r.code)
  }

  /** get_code_rates: the (update_date, mid) pairs of the rows dated within
      [from, to] whose code is exactly `code` (case-sensitive). */
  function GetCodeRates(table: seq<Rate>, code: string, from: Date, to: Date): (pairs: set<(Date, real)>)
    ensures forall r :: r in table && InPeriod(r.updateDate, from, to) && r.code == code ==> (r.updateDate, r.mid) in pairs
    ensures forall p :: p in pairs ==>
      InPeriod(p.0, from, to) && exists r :: r in table && r.code == code && p == (r.updateDate, r.mid)
  {
    set r | r in table && InPeriod(r.updateDate, from, to) && r.code == code :: (r.updateDate, r.mid)
  }

  /** get_rates_for_period: the rows dated within [start, end] (an equality filter
      when start == end), narrowed to `code` when one is given, ordered by date;
      start and end come back unchanged. */
  function GetRatesForPeriod(table: seq<Rate>, start: Date, end: Date, code: Option<string>): (res: (seq<Rate>, Date, Date))
    ensures forall r :: multiset(res.0)[r] ==
                        if InPeriod(r.updateDate, start, end) && CodeMatches(r, code) then multiset(table)[r] else 0
    ensures SortedBy(res.0, ByDate)
    ensures res.1 == start && res.2 == end
  {
    ByDateIsTotalPreorder();
    var dated := if start == end then Filter(table, (r: Rate) => r.updateDate == start)
                 else Filter(table, (r: Rate) => InPeriod(r.updateDate, start, end));
    var selected := if code.Some? && code.value != [] then Filter(dated, (r: Rate) => r.code == code.value)
                    else dated;
    (SortBy(selected, ByDate), start, end)
  }

  /** get_rates_for_date (older revision): the rows dated exactly `day`, narrowed to
      `code` when one is given, in table order. */
  function GetRatesForDate(table: seq<Rate>, day: Date, code: Option<string>): (rows: seq<Rate>)
    ensures forall r :: multiset(rows)[r] ==
                        if r.updateDate == day && CodeMatches(r, code) then multiset(table)[r] else 0
  {
    if code.Some? && code.value != [] then Filter(table, (r: Rate) => r.updateDate == day && r.code == code.value)
    else Filter(table, (r: Rate) => r.updateDate == day)
  }

  /** The table behind the session: rows in insertion order. No uniqueness constraint
      is declared, so nothing stops two rows with the same (update_date, code). */
  class RateStore {
    var rows: seq<Rate>

    constructor ()
      ensures rows == []
    {
      rows := [];
    }

    /** add_rates_to_db: every given rate is added, after the existing rows, in one commit. */
    method AddRates(rates: seq<Rate>)
      modifies this
      ensures rows == old(rows) + rates
    {
      rows := rows + rates;
    }
  }

  /** The keys visible after an add are the old keys plus the keys of the added rows. */
  lemma GetRatesAfterAdd(table: seq<Rate>, rates: seq<Rate>, from: Date, to: Date)
    ensures GetRates(table + rates, from, to) == GetRates(table, from, to) + GetRates(rates, from, to)
  {
  }

  /** Adding rows never hides a key: the key set over any range only grows. */
  lemma GetRatesGrows(table: seq<Rate>, rates: seq<Rate>, from: Date, to: Date)
    ensures GetRates(table, from, to) <= GetRates(table + rates, from, to)
    ensures forall r :: r in rates && InPeriod(r.updateDate, from, to) ==> (r.updateDate, r.code) in GetRates(table + rates, from, to)
  {
    GetRatesAfterAdd(table, rates, from, to);
  }

  /** The same for the (date, mid) pairs of one code. */
  lemma GetCodeRatesGrows(table: seq<Rate>, rates: seq<Rate>, code: string, from: Date, to: Date)
    ensures GetCodeRates(table, code, from, to) <= GetCodeRates(table + rates, code, from, to)
    ensures forall r :: r in rates && InPeriod(r.updateDate, from, to) && r.code == code ==>
      (r.updateDate, r.mid) in GetCodeRates(table + rates, code, from, to)
  {
  }

  /** No uniqueness: a row whose (update_date, code) is already stored is still added,
      and the day's readout then holds one more row. */
  lemma DuplicateKeyStillAdded(table: seq<Rate>, r: Rate)
    requires ValidDate(r.updateDate)
    requires (r.updateDate, r.code) in GetRates(table, r.updateDate, r.updateDate)
    ensures |GetRatesForDate(table + [r], r.updateDate, Some(r.code))| == |GetRatesForDate(table, r.updateDate, Some(r.code))| + 1
  {
    var before := GetRatesForDate(table, r.updateDate, Some(r.code));
    var after := GetRatesForDate(table + [r], r.updateDate, Some(r.code));
    assert multiset(table + [r]) == multiset(table) + multiset{r};
    assert multiset(after) == multiset(before) + multiset{r};
  }

  /** In the older revision, the single-day reader and the period reader with
      start == end select the same rows (in possibly different order). */
  lemma DayReaderMatchesPeriodReader(table: seq<Rate>, day: Date, code: Option<string>)
    ensures multiset(GetRatesForDate(table, day, code)) == multiset(GetRatesForPeriod(table, day, day, code).0)
  {
    var a := GetRatesForDate(table, day, code);
    var b := GetRatesForPeriod(table, day, day, code).0;
    forall r: Rate ensures multiset(a)[r] == multiset(b)[r] {
      assert InPeriod(r.updateDate, day, day) <==> r.updateDate == day;
    }
  }
}
