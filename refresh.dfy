/**
 * The refresh merge: how one directory entry becomes the data written to the table,
 * how one upsert by exact name changes the table, what a whole run of upserts does,
 * and how a failed refresh is reported.
 */
module Refresh {
  import opened Wrappers
  import opened Countries
  import opened Store

  // Split at the provider name only so that the verifier sees the substring `restcountries`.
  const COUNTRIES_URL := "https://" + "restcountries" + ".com/v2/all?fields=name,capital,region,population,flag,currencies"
  const RATES_URL := "https://open.er-api.com/v6/latest/USD"
  const REFRESHED_MESSAGE := "Countries refreshed successfully"

  /**
   * The `rates` member of the exchange-rate response: a table from currency code to
   * units per US dollar, or None when the response has no `rates` member.
   */
  type RateTable = Option<map<string, real>>

  /** JavaScript truthiness of a string property. */
  predicate Truthy(f: Field<string>) {
    f.Defined? && f.value != ""
  }

  /** `currencies[0].code` when the list is there and non-empty, otherwise null. */
  function CurrencyCode(e: Entry): (code: Field<string>)
    ensures e.currencies.Defined? && |e.currencies.value| > 0 ==> code == e.currencies.value[0].code
    ensures !(e.currencies.Defined? && |e.currencies.value| > 0) ==> code == Null
  {
    if e.currencies.Defined? && |e.currencies.value| > 0 then e.currencies.value[0].code else Null
  }

  /** `currencyCode && exchangeRates[currencyCode]`, when `exchangeRates` is an object. */
  predicate HasRate(code: Field<string>, table: RateTable): (b: bool)
    ensures b ==> Truthy(code) && table.Some? && code.value in table.value
    ensures b ==> table.value[code.value] != 0.0
    ensures !Truthy(code) || table.None? ==> !b
  {
    Truthy(code) && table.Some? && code.value in table.value && table.value[code.value] != 0.0
  }

  /** Reading `exchangeRates[currencyCode]` when `exchangeRates` is undefined throws a TypeError. */
  predicate Throws(e: Entry, table: RateTable): (b: bool)
    ensures table.Some? ==> !b
    ensures !Truthy(CurrencyCode(e)) ==> !b
    ensures b ==> !HasRate(CurrencyCode(e), table)
  {
    Truthy(CurrencyCode(e)) && table.None?
  }

  /**
   * The CreateCountryDto built for entry `e`; `multiplier` is the value drawn by
   * `Math.random() * 1000 + 1000` for this entry.
   */
  function Prepare(e: Entry, table: RateTable, multiplier: real): (d: CountryData)
    ensures d.name == e.name && d.capital == e.capital && d.region == e.region
    ensures d.population == e.population && d.flag_url == e.flag
    ensures d.currency_code ==
              if e.currencies.Defined? && |e.currencies.value| > 0 then e.currencies.value[0].code else Null
    ensures d.exchange_rate.Defined? <==> d.estimated_gdp.Defined?
    ensures d.exchange_rate.Defined? <==>
              (&& d.currency_code.Defined? && d.currency_code.value != ""
               && table.Some? && d.currency_code.value in table.value
               && table.value[d.currency_code.value] != 0.0)
    ensures d.exchange_rate.Defined? ==> d.exchange_rate.value == table.value[d.currency_code.value]
    ensures !d.exchange_rate.Defined? ==> d.exchange_rate == Undefined && d.estimated_gdp == Undefined
  {
    var code := CurrencyCode(e);
    if HasRate(code, table) then
      var rate := table.value[code.value];
      var gdp := e.population as real * multiplier / rate;
      CountryData(e.name, e.capital, e.region, e.population, code, Defined(rate), Defined(gdp), e.flag)
    else
      CountryData(e.name, e.capital, e.region, e.population, code, Undefined, Undefined, e.flag)
  }

  /** The data written for each entry, entry `j` using the `j`-th multiplier. */
  function PrepareAll(entries: seq<Entry>, table: RateTable, multiplier: nat -> real): (ds: seq<CountryData>)
    ensures |ds| == |entries|
    ensures forall j | 0 <= j < |entries| :: ds[j] == Prepare(entries[j], table, multiplier(j))
    ensures forall j | 0 <= j < |entries| :: ds[j].name == entries[j].name && ds[j].population == entries[j].population
  {
    var ds := seq(|entries|, j requires 0 <= j < |entries| => Prepare(entries[j], table, multiplier(j)));
    assert forall j | 0 <= j < |entries| :: ds[j] == Prepare(entries[j], table, multiplier(j));
    ds
  }

  /** Position of the first entry that throws, or the number of entries when none does. */
  function FirstThrow(entries: seq<Entry>, table: RateTable): (k: nat)
    ensures k <= |entries|
    ensures forall j | 0 <= j < k :: !Throws(entries[j], table)
    ensures k < |entries| ==> Throws(entries[k], table)
  {
    if entries == [] then 0
    else if Throws(entries[0], table) then 0
    else 1 + FirstThrow(entries[1..], table)
  }

  /** An entry before the first throwing one that does not throw lies before it too. */
  lemma FirstThrowStep(entries: seq<Entry>, table: RateTable, i: nat)
    requires i < |entries| && i <= FirstThrow(entries, table)
    ensures !Throws(entries[i], table) ==> i + 1 <= FirstThrow(entries, table)
    ensures Throws(entries[i], table) ==> i == FirstThrow(entries, table)
  {
  }

  /** Upsert by exact name: update the first row with that name, or create a row. */
  function Upsert(t: Table, d: CountryData, now: int): (r: Table)
    ensures d.name in Names(r.rows)
    ensures |r.rows| == if d.name in Names(t.rows) then |t.rows| else |t.rows| + 1
    ensures r.nextId == t.nextId + (|r.rows| - |t.rows|)
  {
    match FirstByName(t.rows, d.name)
    case Some(k) =>
      var r := Table(t.rows[k := Updated(t.rows[k], d, now)], t.nextId);
      assert r.rows[k] in r.rows;
      r
    case None =>
      var r := Table(t.rows + [Created(t.nextId, d, now)], t.nextId + 1);
      assert r.rows[|t.rows|] in r.rows;
      r
  }

  /** The upserts of `ds`, in order. */
  function Merge(t: Table, ds: seq<CountryData>, now: int): (r: Table)
    ensures |t.rows| <= |r.rows| <= |t.rows| + |ds|
    ensures r.nextId == t.nextId + (|r.rows| - |t.rows|)
    decreases |ds|
  {
    if ds == [] then t else Upsert(Merge(t, ds[..|ds| - 1], now), ds[|ds| - 1], now)
  }

  /** The names of the written data. */
  function DataNames(ds: seq<CountryData>): set<string> {
    set d | d in ds :: d.name
  }

  lemma DataNamesSnoc(ds: seq<CountryData>)
    requires ds != []
    ensures DataNames(ds) == DataNames(ds[..|ds| - 1]) + {ds[|ds| - 1].name}
  {
    assert ds == ds[..|ds| - 1] + [ds[|ds| - 1]];
  }

  /** An update touches only the first exact-name match and keeps its id and name. */
  lemma UpsertTouchesFirstMatch(t: Table, d: CountryData, now: int, k: nat)
    requires FirstByName(t.rows, d.name) == Some(k)
    ensures Upsert(t, d, now).nextId == t.nextId && |Upsert(t, d, now).rows| == |t.rows|
    ensures Upsert(t, d, now).rows[k] == Updated(t.rows[k], d, now)
    ensures Upsert(t, d, now).rows[k].id == t.rows[k].id && Upsert(t, d, now).rows[k].name == t.rows[k].name
    ensures forall i | 0 <= i < |t.rows| && i != k :: Upsert(t, d, now).rows[i] == t.rows[i]
  {
  }

  /** A create happens only when no row has the name, and appends a row under a fresh id. */
  lemma UpsertCreatesOnlyNew(t: Table, d: CountryData, now: int)
    requires d.name !in Names(t.rows)
    ensures Upsert(t, d, now).rows == t.rows + [Created(t.nextId, d, now)]
    ensures Upsert(t, d, now).nextId == t.nextId + 1
  {
  }

  lemma UpsertNames(t: Table, d: CountryData, now: int)
    ensures Names(Upsert(t, d, now).rows) == Names(t.rows) + {d.name}
  {
    var r := Upsert(t, d, now);
    match FirstByName(t.rows, d.name)
    case Some(k) =>
      forall x | x in Names(r.rows) ensures x in Names(t.rows) + {d.name} {
        var c :| c in r.rows && c.name == x;
        var i :| 0 <= i < |r.rows| && r.rows[i] == c;
        if i != k { assert t.rows[i] in t.rows; }
      }
      forall x | x in Names(t.rows) ensures x in Names(r.rows) {
        var c :| c in t.rows && c.name == x;
        var i :| 0 <= i < |t.rows| && t.rows[i] == c;
        assert r.rows[i] in r.rows;
      }
    case None =>
      assert r.rows == t.rows + [Created(t.nextId, d, now)];
  }

  lemma UpsertIdsFresh(t: Table, d: CountryData, now: int)
    requires IdsFresh(t)
    ensures IdsFresh(Upsert(t, d, now))
  {
  }

  lemma UpsertDistinctNames(t: Table, d: CountryData, now: int)
    requires DistinctNames(t.rows)
    ensures DistinctNames(Upsert(t, d, now).rows)
  {
    match FirstByName(t.rows, d.name)
    case Some(k) =>
    case None =>
      var r := Upsert(t, d, now).rows;
      forall i, j | 0 <= i < j < |r| ensures r[i].name != r[j].name {
        if j == |t.rows| {
          assert t.rows[i] in t.rows;
        }
      }
  }

  /** Names after a run of upserts: the old names plus the directory's, nothing lost. */
  lemma {:induction false} MergeNames(t: Table, ds: seq<CountryData>, now: int)
    ensures Names(Merge(t, ds, now).rows) == Names(t.rows) + DataNames(ds)
    decreases |ds|
  {
    if ds != [] {
      var front := ds[..|ds| - 1];
      MergeNames(t, front, now);
      UpsertNames(Merge(t, front, now), ds[|ds| - 1], now);
      DataNamesSnoc(ds);
    }
  }

  /** Every refresh keeps the ids below the counter and pairwise distinct. */
  lemma {:induction false} MergeIdsFresh(t: Table, ds: seq<CountryData>, now: int)
    requires IdsFresh(t)
    ensures IdsFresh(Merge(t, ds, now))
    decreases |ds|
  {
    if ds != [] {
      MergeIdsFresh(t, ds[..|ds| - 1], now);
      UpsertIdsFresh(Merge(t, ds[..|ds| - 1], now), ds[|ds| - 1], now);
    }
  }

  /** Names that are distinct before a refresh stay distinct after it. */
  lemma {:induction false} MergeDistinctNames(t: Table, ds: seq<CountryData>, now: int)
    requires DistinctNames(t.rows)
    ensures DistinctNames(Merge(t, ds, now).rows)
    decreases |ds|
  {
    if ds != [] {
      MergeDistinctNames(t, ds[..|ds| - 1], now);
      UpsertDistinctNames(Merge(t, ds[..|ds| - 1], now), ds[|ds| - 1], now);
    }
  }

  /**
   * A refresh never deletes: the old rows keep their positions, ids and names, and a
   * row whose name is not in the directory is left exactly as it was.
   */
  lemma {:induction false} MergeKeepsOldRows(t: Table, ds: seq<CountryData>, now: int)
    ensures |t.rows| <= |Merge(t, ds, now).rows|
    ensures forall i | 0 <= i < |t.rows| ::
              Merge(t, ds, now).rows[i].id == t.rows[i].id && Merge(t, ds, now).rows[i].name == t.rows[i].name
    ensures forall i | 0 <= i < |t.rows| && t.rows[i].name !in DataNames(ds) :: Merge(t, ds, now).rows[i] == t.rows[i]
    decreases |ds|
  {
    if ds != [] {
      var front := ds[..|ds| - 1];
      var last := ds[|ds| - 1];
      MergeKeepsOldRows(t, front, now);
      DataNamesSnoc(ds);
      var m := Merge(t, front, now);
      match FirstByName(m.rows, last.name)
      case Some(k) =>
        UpsertTouchesFirstMatch(m, last, now, k);
      case None =>
        UpsertCreatesOnlyNew(m, last, now);
    }
  }

  /**
   * On a table with distinct names, every row named in the directory carries the
   * refresh's timestamp afterwards.
   */
  lemma {:induction false} MergeStamps(t: Table, ds: seq<CountryData>, now: int)
    requires DistinctNames(t.rows)
    ensures forall i | 0 <= i < |Merge(t, ds, now).rows| && Merge(t, ds, now).rows[i].name in DataNames(ds) ::
              Merge(t, ds, now).rows[i].last_refreshed_at == now
    decreases |ds|
  {
    if ds != [] {
      var front := ds[..|ds| - 1];
      var last := ds[|ds| - 1];
      MergeStamps(t, front, now);
      MergeDistinctNames(t, front, now);
      DataNamesSnoc(ds);
      var m := Merge(t, front, now);
      match FirstByName(m.rows, last.name)
      case Some(k) =>
        UpsertTouchesFirstMatch(m, last, now, k);
      case None =>
        UpsertCreatesOnlyNew(m, last, now);
    }
  }

  /** Every row keeps its exchange rate and GDP paired when the written data pair them. */
  predicate AllRateWithGdp(rows: seq<Country>) {
    forall i | 0 <= i < |rows| :: RateWithGdp(rows[i])
  }

  lemma {:induction false} MergeRateWithGdp(t: Table, ds: seq<CountryData>, now: int)
    requires AllRateWithGdp(t.rows)
    requires forall j | 0 <= j < |ds| :: DataRateWithGdp(ds[j])
    ensures AllRateWithGdp(Merge(t, ds, now).rows)
    decreases |ds|
  {
    if ds != [] {
      var front := ds[..|ds| - 1];
      var last := ds[|ds| - 1];
      MergeRateWithGdp(t, front, now);
      var m := Merge(t, front, now);
      match FirstByName(m.rows, last.name)
      case Some(k) =>
        WriteKeepsRateWithGdp(m.rows[k], last, m.nextId, now);
      case None =>
        WriteKeepsRateWithGdp(Created(m.nextId, last, now), last, m.nextId, now);
    }
  }

  /** The data a refresh writes always pairs rate and GDP. */
  lemma PreparedRateWithGdp(entries: seq<Entry>, table: RateTable, multiplier: nat -> real)
    ensures forall j | 0 <= j < |entries| :: DataRateWithGdp(PrepareAll(entries, table, multiplier)[j])
  {
    forall j | 0 <= j < |entries| ensures DataRateWithGdp(PrepareAll(entries, table, multiplier)[j]) {
      var d := Prepare(entries[j], table, multiplier(j));
      assert PrepareAll(entries, table, multiplier)[j] == d;
    }
  }

  /** With distinct names, the number of rows is the number of names. */
  lemma {:induction false} DistinctNamesCount(rows: seq<Country>)
    requires DistinctNames(rows)
    ensures |Names(rows)| == |rows|
  {
    if rows != [] {
      var tail := rows[1..];
      assert rows == [rows[0]] + tail;
      assert Names(rows) == {rows[0].name} + Names(tail);
      forall c | c in tail ensures c.name != rows[0].name {
        var i :| 0 <= i < |tail| && tail[i] == c;
        assert rows[i + 1] == c;
      }
      DistinctNamesCount(tail);
    }
  }

  /**
   * On a table with distinct names, a refresh leaves one row per distinct name among the
   * old rows and the directory: duplicates in the directory never produce duplicate rows.
   */
  lemma MergeSize(t: Table, ds: seq<CountryData>, now: int)
    requires DistinctNames(t.rows)
    ensures |Merge(t, ds, now).rows| == |Names(t.rows) + DataNames(ds)|
  {
    MergeNames(t, ds, now);
    MergeDistinctNames(t, ds, now);
    DistinctNamesCount(Merge(t, ds, now).rows);
  }

  /** A run of upserts whose names are all in the table already creates no row. */
  lemma {:induction false} MergeKnownNamesKeepsSize(t: Table, ds: seq<CountryData>, now: int)
    requires DataNames(ds) <= Names(t.rows)
    ensures |Merge(t, ds, now).rows| == |t.rows|
    decreases |ds|
  {
    if ds != [] {
      var front := ds[..|ds| - 1];
      DataNamesSnoc(ds);
      MergeKnownNamesKeepsSize(t, front, now);
      MergeNames(t, front, now);
    }
  }

  /** Re-running a refresh with the same directory names adds no rows. */
  lemma RerunKeepsCount(t: Table, ds: seq<CountryData>, again: seq<CountryData>, now: int, later: int)
    requires DataNames(again) == DataNames(ds)
    ensures |Merge(Merge(t, ds, now), again, later).rows| == |Merge(t, ds, now).rows|
  {
    MergeNames(t, ds, now);
    MergeKnownNamesKeepsSize(Merge(t, ds, now), again, later);
  }

  /** The row an upsert writes carries the upsert's timestamp. */
  lemma UpsertStamps(t: Table, d: CountryData, now: int)
    ensures exists i | 0 <= i < |Upsert(t, d, now).rows| ::
              && Upsert(t, d, now).rows[i].name == d.name
              && Upsert(t, d, now).rows[i].last_refreshed_at == now
  {
    var r := Upsert(t, d, now);
    match FirstByName(t.rows, d.name)
    case Some(k) =>
      assert r.rows[k].name == d.name && r.rows[k].last_refreshed_at == now;
    case None =>
      assert r.rows[|t.rows|].name == d.name && r.rows[|t.rows|].last_refreshed_at == now;
  }

  /**
   * An entry whose currency list is missing or empty clears the stored currency code on
   * update, but leaves the stored rate and GDP as they were.
   */
  lemma UpdateWithoutCurrency(c: Country, e: Entry, table: RateTable, multiplier: real, now: int)
    requires !(e.currencies.Defined? && |e.currencies.value| > 0)
    ensures Updated(c, Prepare(e, table, multiplier), now).currency_code == None
    ensures Updated(c, Prepare(e, table, multiplier), now).exchange_rate == c.exchange_rate
    ensures Updated(c, Prepare(e, table, multiplier), now).estimated_gdp == c.estimated_gdp
  {
  }

  /** An entry with a rate in the table has its stored rate replaced by the table's. */
  lemma UpdateWithRate(c: Country, e: Entry, table: RateTable, multiplier: real, now: int)
    requires HasRate(CurrencyCode(e), table)
    ensures Updated(c, Prepare(e, table, multiplier), now).currency_code == Some(CurrencyCode(e).value)
    ensures Updated(c, Prepare(e, table, multiplier), now).exchange_rate == Some(table.value[CurrencyCode(e).value])
    ensures Updated(c, Prepare(e, table, multiplier), now).estimated_gdp.Some?
  {
  }

  /** The PrepareAll of a prefix extends by one prepared entry. */
  lemma PrepareAllSnoc(entries: seq<Entry>, table: RateTable, multiplier: nat -> real, i: nat)
    requires i < |entries|
    ensures PrepareAll(entries[..i + 1], table, multiplier)
         == PrepareAll(entries[..i], table, multiplier) + [Prepare(entries[i], table, multiplier(i))]
  {
  }

  /** One more entry handled: the run over the longer prefix is one more upsert. */
  lemma MergePrepareStep(t: Table, entries: seq<Entry>, table: RateTable, multiplier: nat -> real, i: nat, now: int)
    requires i < |entries|
    ensures Merge(t, PrepareAll(entries[..i + 1], table, multiplier), now)
         == Upsert(Merge(t, PrepareAll(entries[..i], table, multiplier), now), Prepare(entries[i], table, multiplier(i)), now)
  {
    var ds := PrepareAll(entries[..i + 1], table, multiplier);
    PrepareAllSnoc(entries, table, multiplier, i);
    assert ds[..|ds| - 1] == PrepareAll(entries[..i], table, multiplier);
  }

  // ---- error classification -------------------------------------------------

  /** The error caught by the refresh's `catch`: an axios error with its request URL, or anything else. */
  datatype CaughtError = AxiosError(url: Field<string>) | OtherError

  /** `sub` occurs in `s` starting at position `i`. */
  predicate OccursAt(s: string, sub: string, i: int) {
    0 <= i && i + |sub| <= |s| && s[i..i + |sub|] == sub
  }

  /** `s.includes(sub)`. */
  predicate Includes(s: string, sub: string): (b: bool)
    ensures b <==> exists i :: OccursAt(s, sub, i)
    decreases |s|
  {
    if |sub| <= |s| && s[..|sub|] == sub then
      assert OccursAt(s, sub, 0);
      true
    else if |s| > 0 then
      var rest := Includes(s[1..], sub);
      assert forall i :: OccursAt(s, sub, i) ==> i > 0 && OccursAt(s[1..], sub, i - 1);
      assert forall i :: OccursAt(s[1..], sub, i) ==> OccursAt(s, sub, i + 1);
      rest
    else false
  }

  /** The catch block: axios errors become 503 naming the provider, everything else 500. */
  function Classify(e: CaughtError): (h: HttpError)
    ensures h.status == 503 <==> e.AxiosError?
    ensures h.status == 500 <==> e.OtherError?
    ensures e.OtherError? ==> h == InternalError
  {
    match e
    case AxiosError(url) =>
      var provider := if url.Defined? && Includes(url.value, "restcountries") then "restcountries.com" else "open.er-api.com";
      HttpError(503, "External data source unavailable", Some("Could not fetch data from " + provider))
    case OtherError => InternalError
  }

  /** `(a + b + c).includes(b)`. */
  lemma {:induction false} IncludesMiddle(a: string, b: string, c: string)
    ensures Includes(a + b + c, b)
    decreases |a|
  {
    if a == [] {
      assert (a + b + c)[..|b|] == b;
    } else {
      assert (a + b + c)[1..] == a[1..] + b + c;
      IncludesMiddle(a[1..], b, c);
    }
  }

  /** A string missing one of the characters of `sub` does not include `sub`. */
  lemma {:induction false} MissingCharExcludes(s: string, sub: string, i: nat)
    requires i < |sub| && sub[i] !in s
    ensures !Includes(s, sub)
    decreases |s|
  {
    if |s| > 0 {
      assert s == [s[0]] + s[1..];
      MissingCharExcludes(s[1..], sub, i);
    }
    if |sub| <= |s| {
      assert s[..|sub|][i] == s[i] && s[i] in s;
    }
  }

  lemma CountriesUrlNamesProvider()
    ensures Includes(COUNTRIES_URL, "restcountries")
  {
    IncludesMiddle("https://", "restcountries", ".com/v2/all?fields=name,capital,region,population,flag,currencies");
  }

  lemma RatesUrlDoesNotNameProvider()
    ensures !Includes(RATES_URL, "restcountries")
  {
    var url := RATES_URL;
    assert 'u' !in url;
    MissingCharExcludes(url, "restcountries", 6);
  }

  // The expected details are written as two parts, the message and the provider, as the template at countries.service.ts:89 builds them.

  /** A failed directory fetch is reported as restcountries.com being unavailable. */
  lemma CountriesFetchFailure()
    ensures Classify(AxiosError(Defined(COUNTRIES_URL)))
         == HttpError(503, "External data source unavailable", Some("Could not fetch data from " + "restcountries.com"))
  {
    CountriesUrlNamesProvider();
  }

  /** A failed rate fetch is reported as open.er-api.com being unavailable. */
  lemma RatesFetchFailure()
    ensures Classify(AxiosError(Defined(RATES_URL)))
         == HttpError(503, "External data source unavailable", Some("Could not fetch data from " + "open.er-api.com"))
  {
    RatesUrlDoesNotNameProvider();
  }
}
