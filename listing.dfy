/**
 * How `findAll` turns a validated query into the store's `where` and `orderBy`, and
 * what the store returns for them.
 */
module Listing {
  import opened Wrappers
  import opened Countries
  import opened Ordering
  import opened QueryDto

  /** The `where` object: a truthy `region` or `currency` becomes an equality filter. */
  datatype Where = Where(region: Option<string>, currency_code: Option<string>)

  /** The `orderBy` object: empty, or one field with its direction. */
  datatype OrderBy = Unordered | OrderBy(field: SortField, dir: Direction)

  /** JavaScript truthiness of an optional string. */
  predicate Present(s: Option<string>) {
    s.Some? && s.value != ""
  }

  function BuildWhere(q: CountryQuery): (w: Where)
    ensures w.region.Some? <==> q.region.Some? && q.region.value != ""
    ensures w.currency_code.Some? <==> q.currency.Some? && q.currency.value != ""
    ensures w.region.Some? ==> w.region == q.region
    ensures w.currency_code.Some? ==> w.currency_code == q.currency
  {
    Where(if Present(q.region) then q.region else None,
          if Present(q.currency) then q.currency else None)
  }

  /** A row satisfies every filter that is set; the filters are ANDed. */
  predicate Matches(c: Country, w: Where) {
    && (w.region.Some? ==> c.region == w.region)
    && (w.currency_code.Some? ==> c.currency_code == w.currency_code)
  }

  /** The rows matching `w`, in store order. */
  function Filter(rows: seq<Country>, w: Where): (r: seq<Country>)
    ensures forall c :: multiset(r)[c] == if Matches(c, w) then multiset(rows)[c] else 0
    ensures forall c :: c in r <==> c in rows && Matches(c, w)
  {
    if rows == [] then []
    else
      assert rows == [rows[0]] + rows[1..];
      var rest := Filter(rows[1..], w);
      if Matches(rows[0], w) then [rows[0]] + rest else rest
  }

  /** The value of `sort` that names an order; the inverse of the `switch`. */
  function SortName(field: SortField, dir: Direction): string {
    (match field
     case EstimatedGdp => "gdp"
     case Population => "population"
     case Name => "name")
    + (if dir == Asc then "_asc" else "_desc")
  }

  /** The `switch (query.sort)`: six cases, anything else leaves `orderBy` empty. */
  function BuildOrderBy(sort: Option<string>): (o: OrderBy)
    ensures o.OrderBy? <==> sort.Some? && sort.value in SORT_VALUES
    ensures o.OrderBy? ==> SortName(o.field, o.dir) == sort.value
  {
    if sort.None? then Unordered
    else match sort.value
      case "gdp_asc" => OrderBy(EstimatedGdp, Asc)
      case "gdp_desc" => OrderBy(EstimatedGdp, Desc)
      case "population_asc" => OrderBy(Population, Asc)
      case "population_desc" => OrderBy(Population, Desc)
      case "name_asc" => OrderBy(Name, Asc)
      case "name_desc" => OrderBy(Name, Desc)
      case _ => Unordered
  }

  /** Every one of the six orders is reached by its own name. */
  lemma OrderNamesRoundTrip(field: SortField, dir: Direction)
    ensures SortName(field, dir) in SORT_VALUES
    ensures BuildOrderBy(Some(SortName(field, dir))) == OrderBy(field, dir)
  {
    match field
    case EstimatedGdp =>
      assert SortName(field, dir) == if dir == Asc then "gdp_asc" else "gdp_desc";
    case Population =>
      assert SortName(field, dir) == if dir == Asc then "population_asc" else "population_desc";
    case Name =>
      assert SortName(field, dir) == if dir == Asc then "name_asc" else "name_desc";
  }

  /**
   * The allow-list and the switch agree: a validated query that carries `sort`
   * always yields a non-empty `orderBy`.
   */
  lemma ValidatedSortOrders(q: RawQuery)
    requires Validate(q).Success? && q.sort.Some?
    ensures BuildOrderBy(Validate(q).value.sort).OrderBy?
  {
  }

  /** What `findMany({where, orderBy})` returns. */
  function FindMany(rows: seq<Country>, w: Where, o: OrderBy): (r: seq<Country>)
    ensures multiset(r) == multiset(Filter(rows, w))
    ensures forall c :: c in r <==> c in rows && Matches(c, w)
    ensures o.OrderBy? ==> SortedBy(r, o.field, o.dir)
    ensures o.Unordered? ==> r == Filter(rows, w)
  {
    var r := if o.Unordered? then Filter(rows, w) else Sort(Filter(rows, w), o.field, o.dir);
    assert forall c :: c in r <==> c in multiset(r);
    r
  }
}
