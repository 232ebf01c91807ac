/**
 * CountriesService: refresh from the two upstream sources, list with filters and an
 * order, look up and delete by exact name, and report the table's status. The two
 * fetches, the clock and `Math.random()` are parameters.
 */
module Service {
  import opened Wrappers
  import opened Countries
  import opened Store
  import opened Refresh
  import opened Ordering
  import opened QueryDto
  import opened Listing

  /** The outcome of one `axios.get`: the response data, or an axios error. */
  datatype Fetch<+T> = Fetched(data: T) | AxiosFailed

  /** The body `refreshCountries` returns. */
  datatype Refreshed = Refreshed(message: string, countries_processed: nat)

  /** The body `getStatus` returns. */
  datatype StatusResponse = StatusResponse(total_countries: nat, last_refreshed_at: int)

  const DELETED_MESSAGE := "Country deleted successfully"

  /** The latest `last_refreshed_at` among the rows. */
  function Latest(rows: seq<Country>): (t: int)
    requires rows != []
    ensures forall i | 0 <= i < |rows| :: rows[i].last_refreshed_at <= t
    ensures exists i | 0 <= i < |rows| :: rows[i].last_refreshed_at == t
  {
    if |rows| == 1 then rows[0].last_refreshed_at
    else
      var rest := Latest(rows[1..]);
      assert forall i | 1 <= i < |rows| :: rows[i] == rows[1..][i - 1];
      if rows[0].last_refreshed_at >= rest then rows[0].last_refreshed_at else rest
  }

  /** After a refresh of a non-empty directory the latest timestamp is at least the refresh's. */
  lemma RefreshedStatusNotEarlier(t: Table, ds: seq<CountryData>, now: int)
    requires ds != []
    ensures Merge(t, ds, now).rows != []
    ensures Latest(Merge(t, ds, now).rows) >= now
  {
    UpsertStamps(Merge(t, ds[..|ds| - 1], now), ds[|ds| - 1], now);
  }

  /** After a removal from a table with distinct names, the name is no longer found. */
  lemma RemovedNameGone(rows: seq<Country>, name: string, k: nat)
    requires DistinctNames(rows) && FirstByName(rows, name) == Some(k)
    ensures name !in Names(Without(rows, k))
    ensures DistinctNames(Without(rows, k))
  {
    var r := Without(rows, k);
    forall c | c in r ensures c.name != name {
      var i :| 0 <= i < |r| && r[i] == c;
      if i < k { assert r[i] == rows[i]; } else { assert r[i] == rows[i + 1]; }
    }
  }

  class CountriesService {
    const prisma: CountryStore

    constructor (prisma: CountryStore)
      ensures this.prisma == prisma
    {
      this.prisma := prisma;
    }

    /**
     * `refreshCountries`: both fetches first, then one upsert per directory entry in
     * order. A TypeError on an entry ends the run with 500, keeping the earlier writes.
     */
    method RefreshCountries(countries: Fetch<seq<Entry>>, rates: Fetch<RateTable>, multiplier: nat -> real, now: int)
      returns (r: Result<Refreshed, HttpError>)
      requires prisma.Valid()
      modifies prisma
      ensures prisma.Valid()
      ensures countries.AxiosFailed? ==>
                r == Failure(Classify(AxiosError(Defined(COUNTRIES_URL)))) && prisma.Snapshot() == old(prisma.Snapshot())
      ensures countries.Fetched? && rates.AxiosFailed? ==>
                r == Failure(Classify(AxiosError(Defined(RATES_URL)))) && prisma.Snapshot() == old(prisma.Snapshot())
      ensures countries.Fetched? && rates.Fetched? ==>
                var k := FirstThrow(countries.data, rates.data);
                && prisma.Snapshot() == Merge(old(prisma.Snapshot()), PrepareAll(countries.data[..k], rates.data, multiplier), now)
                && r == if k == |countries.data|
                        then Success(Refreshed(REFRESHED_MESSAGE, |countries.data|))
                        else Failure(Classify(OtherError))
    {
      if countries.AxiosFailed? {
        return Failure(Classify(AxiosError(Defined(COUNTRIES_URL))));
      }
      if rates.AxiosFailed? {
        return Failure(Classify(AxiosError(Defined(RATES_URL))));
      }
      var entries, table := countries.data, rates.data;
      ghost var t0 := prisma.Snapshot();
      var processedCount := 0;
      var i := 0;
      while i < |entries|
        invariant 0 <= i <= FirstThrow(entries, table)
        invariant processedCount == i
        invariant prisma.Valid()
        invariant prisma.Snapshot() == Merge(t0, PrepareAll(entries[..i], table, multiplier), now)
      {
        FirstThrowStep(entries, table, i);
        if Throws(entries[i], table) {
          return Failure(Classify(OtherError));
        }
        var d := Prepare(entries[i], table, multiplier(i));
        UpsertByName(d, now);
        MergePrepareStep(t0, entries, table, multiplier, i, now);
        processedCount := processedCount + 1;
        i := i + 1;
      }
      assert FirstThrow(entries, table) == |entries|;
      r := Success(Refreshed(REFRESHED_MESSAGE, processedCount));
    }

    /** One pass of the loop body: find by exact name, then update that row by id or create. */
    method UpsertByName(d: CountryData, now: int)
      requires prisma.Valid()
      modifies prisma
      ensures prisma.Valid()
      ensures prisma.Snapshot() == Upsert(old(prisma.Snapshot()), d, now)
    {
      var existing := prisma.FindFirstByName(d.name);
      if existing.Some? {
        ghost var k := FirstByName(prisma.rows, d.name).value;
        IdLeadsBack(prisma.Snapshot(), k);
        var _ := prisma.UpdateById(existing.value.id, d, now);
      } else {
        var _ := prisma.Create(d, now);
      }
    }

    /** `findAll`: the rows matching every set filter, in the requested order. */
    function FindAll(q: CountryQuery): (r: seq<Country>)
      reads prisma
      ensures multiset(r) == multiset(Filter(prisma.rows, BuildWhere(q)))
      ensures forall c :: c in r <==> c in prisma.rows && Matches(c, BuildWhere(q))
      ensures BuildOrderBy(q.sort).OrderBy? ==> SortedBy(r, BuildOrderBy(q.sort).field, BuildOrderBy(q.sort).dir)
      ensures BuildOrderBy(q.sort).Unordered? ==> r == Filter(prisma.rows, BuildWhere(q))
    {
      FindMany(prisma.rows, BuildWhere(q), BuildOrderBy(q.sort))
    }

    /** `findOne`: the first row with exactly this name, or 404. */
    function FindOne(name: string): (r: Result<Country, HttpError>)
      reads prisma
      ensures r.Success? <==> name in Names(prisma.rows)
      ensures r.Success? ==> r.value in prisma.rows && r.value.name == name
      ensures r.Failure? ==> r.error == NotFound
    {
      match prisma.FindFirstByName(name)
      case Some(c) => Success(c)
      case None => Failure(NotFound)
    }

    /** `remove`: deletes the first row with exactly this name, or fails with 404 changing nothing. */
    method Remove(name: string) returns (r: Result<string, HttpError>)
      requires prisma.Valid()
      modifies prisma
      ensures prisma.Valid() && prisma.nextId == old(prisma.nextId)
      ensures name !in Names(old(prisma.rows)) ==> r == Failure(NotFound) && prisma.rows == old(prisma.rows)
      ensures name in Names(old(prisma.rows)) ==>
                && r == Success(DELETED_MESSAGE)
                && |prisma.rows| == |old(prisma.rows)| - 1
                && prisma.rows == Without(old(prisma.rows), FirstByName(old(prisma.rows), name).value)
    {
      var country := prisma.FindFirstByName(name);
      if country.None? {
        return Failure(NotFound);
      }
      ghost var k := FirstByName(prisma.rows, name).value;
      IdLeadsBack(prisma.Snapshot(), k);
      var _ := prisma.DeleteById(country.value.id);
      r := Success(DELETED_MESSAGE);
    }

    /** `getStatus`: the row count and the latest refresh time, or `now` for an empty table. */
    function GetStatus(now: int): (s: StatusResponse)
      reads prisma
      ensures s.total_countries == |prisma.rows|
      ensures prisma.rows == [] ==> s.last_refreshed_at == now
      ensures prisma.rows != [] ==>
                && (forall i | 0 <= i < |prisma.rows| :: prisma.rows[i].last_refreshed_at <= s.last_refreshed_at)
                && (exists i | 0 <= i < |prisma.rows| :: prisma.rows[i].last_refreshed_at == s.last_refreshed_at)
    {
      StatusResponse(prisma.Count(), if prisma.rows == [] then now else Latest(prisma.rows))
    }
  }
}
