/**
 * CountryQueryDto and the validation its decorators ask for: `region`, `currency` and
 * `sort` are each optional and, when present, must be a string; `sort` must also be one
 * of six allowed values. A query parameter repeated in the URL arrives as a list and is
 * not a string.
 */
module QueryDto {
  import opened Wrappers
  import opened Countries

  /** A raw query-string parameter: a single string, or a list when it was repeated. */
  datatype Param = Text(s: string) | Repeated(items: seq<string>)

  /** The query as it arrives, before validation. */
  datatype RawQuery = RawQuery(region: Option<Param>, currency: Option<Param>, sort: Option<Param>)

  /** The validated CountryQueryDto. */
  datatype CountryQuery = CountryQuery(region: Option<string>, currency: Option<string>, sort: Option<string>)

  /** The `@IsIn` list for `sort`. */
  const SORT_VALUES: seq<string> := ["gdp_asc", "gdp_desc", "population_asc", "population_desc", "name_asc", "name_desc"]

  const BadRequest := HttpError(400, "Bad Request", None)

  /** `@IsOptional() @IsString()`: absent, or a single string. */
  predicate OptionalString(p: Option<Param>) {
    p.None? || p.value.Text?
  }

  /** The string carried by a parameter that passed `OptionalString`. */
  function TextOf(p: Option<Param>): Option<string>
    requires OptionalString(p)
  {
    if p.None? then None else Some(p.value.s)
  }

  /** The rules of all three decorators of `sort`. */
  predicate SortAllowed(p: Option<Param>) {
    OptionalString(p) && (p.Some? ==> p.value.s in SORT_VALUES)
  }

  /** Validation of the query; a query breaking any rule is refused with 400. */
  function Validate(q: RawQuery): (r: Result<CountryQuery, HttpError>)
    ensures r.Success? <==>
              && (q.region.None? || q.region.value.Text?)
              && (q.currency.None? || q.currency.value.Text?)
              && (q.sort.None? || (q.sort.value.Text? && q.sort.value.s in SORT_VALUES))
    ensures r.Failure? ==> r.error.status == 400
    ensures r.Success? ==> r.value.sort.None? || r.value.sort.value in SORT_VALUES
    ensures r.Success? ==> (r.value.region.Some? <==> q.region.Some?) && (r.value.region.Some? ==> q.region.value == Text(r.value.region.value))
    ensures r.Success? ==> (r.value.currency.Some? <==> q.currency.Some?) && (r.value.currency.Some? ==> q.currency.value == Text(r.value.currency.value))
    ensures r.Success? ==> (r.value.sort.Some? <==> q.sort.Some?) && (r.value.sort.Some? ==> q.sort.value == Text(r.value.sort.value))
  {
    if OptionalString(q.region) && OptionalString(q.currency) && SortAllowed(q.sort) then
      Success(CountryQuery(TextOf(q.region), TextOf(q.currency), TextOf(q.sort)))
    else
      Failure(BadRequest)
  }

  /** A query without `sort` is valid whenever its other parameters are strings or absent. */
  lemma SortIsOptional(region: Option<string>, currency: Option<string>)
    ensures Validate(RawQuery(
              if region.Some? then Some(Text(region.value)) else None,
              if currency.Some? then Some(Text(currency.value)) else None,
              None)) == Success(CountryQuery(region, currency, None))
  {
  }

  /** `region` and `currency` may each be left out, whatever the allowed `sort`. */
  lemma RegionAndCurrencyAreOptional(sort: Option<string>)
    requires sort.None? || sort.value in SORT_VALUES
    ensures Validate(RawQuery(None, None, if sort.Some? then Some(Text(sort.value)) else None))
         == Success(CountryQuery(None, None, sort))
  {
  }

  /** A `sort` outside the allow-list, the empty string included, is refused. */
  lemma SortOutsideListRefused(q: RawQuery)
    requires q.sort.Some? && q.sort.value.Text? && q.sort.value.s !in SORT_VALUES
    ensures Validate(q) == Failure(BadRequest)
  {
  }
}
