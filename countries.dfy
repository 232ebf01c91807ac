/**
 * The country records of the service: what the upstream directory sends, what the
 * service hands to the store (CreateCountryDto) and what the store keeps
 * (CountryResponseDto), together with the HTTP error shape the service throws.
 */
module Countries {
  import opened Wrappers

  /** A JavaScript property as the service sees it: absent (`undefined`), `null`, or a value. */
  datatype Field<+T> = Undefined | Null | Defined(value: T)

  /** One item of a directory entry's `currencies` list; only `code` is read. */
  datatype Currency = Currency(code: Field<string>)

  /** One item of the country directory, with the fields the service requests. */
  datatype Entry = Entry(
    name: string,
    capital: Field<string>,
    region: Field<string>,
    population: int,
    flag: Field<string>,
    currencies: Field<seq<Currency>>)

  /** The data written on create or update (CreateCountryDto). */
  datatype CountryData = CountryData(
    name: string,
    capital: Field<string>,
    region: Field<string>,
    population: int,
    currency_code: Field<string>,
    exchange_rate: Field<real>,
    estimated_gdp: Field<real>,
    flag_url: Field<string>)

  /** A stored row (CountryResponseDto); nullable columns are options, timestamps are integers. */
  datatype Country = Country(
    id: nat,
    name: string,
    capital: Option<string>,
    region: Option<string>,
    population: int,
    currency_code: Option<string>,
    exchange_rate: Option<real>,
    estimated_gdp: Option<real>,
    flag_url: Option<string>,
    last_refreshed_at: int)

  /** An HttpException: the status code and the `{error, details?}` body. */
  datatype HttpError = HttpError(status: int, error: string, details: Option<string>)

  const NotFound := HttpError(404, "Country not found", None)
  const InternalError := HttpError(500, "Internal server error", None)

  /** Prisma's create rule for one nullable column: a value is stored, `undefined` and `null` both store null. */
  ghost predicate CreateRule<T>(f: Field<T>, col: Option<T>) {
    && (f.Defined? ==> col == Some(f.value))
    && (!f.Defined? ==> col == None)
  }

  /**
   * Prisma's update rule for one nullable column: a value is stored, `null` clears the
   * column and `undefined` leaves it as it was.
   */
  ghost predicate UpdateRule<T>(f: Field<T>, before: Option<T>, after: Option<T>) {
    && (f.Defined? ==> after == Some(f.value))
    && (f.Null? ==> after == None)
    && (f.Undefined? ==> after == before)
  }

  /** The column written on create. */
  function OnCreate<T>(f: Field<T>): (col: Option<T>)
    ensures CreateRule(f, col)
  {
    if f.Defined? then Some(f.value) else None
  }

  /** The column written on update. */
  function OnUpdate<T>(f: Field<T>, current: Option<T>): (col: Option<T>)
    ensures UpdateRule(f, current, col)
  {
    match f
    case Undefined => current
    case Null => None
    case Defined(v) => Some(v)
  }

  /** The row `create({data})` inserts under a fresh id. */
  function Created(id: nat, d: CountryData, now: int): (c: Country)
    ensures c.id == id && c.name == d.name && c.population == d.population && c.last_refreshed_at == now
    ensures CreateRule(d.capital, c.capital) && CreateRule(d.region, c.region) && CreateRule(d.flag_url, c.flag_url)
    ensures CreateRule(d.currency_code, c.currency_code)
    ensures CreateRule(d.exchange_rate, c.exchange_rate) && CreateRule(d.estimated_gdp, c.estimated_gdp)
  {
    Country(id, d.name, OnCreate(d.capital), OnCreate(d.region), d.population,
            OnCreate(d.currency_code), OnCreate(d.exchange_rate), OnCreate(d.estimated_gdp),
            OnCreate(d.flag_url), now)
  }

  /** The row `update({where: {id}, data})` leaves behind; the id never changes. */
  function Updated(c: Country, d: CountryData, now: int): (u: Country)
    ensures u.id == c.id && u.name == d.name && u.population == d.population && u.last_refreshed_at == now
    ensures UpdateRule(d.capital, c.capital, u.capital) && UpdateRule(d.region, c.region, u.region)
    ensures UpdateRule(d.flag_url, c.flag_url, u.flag_url)
    ensures UpdateRule(d.currency_code, c.currency_code, u.currency_code)
    ensures UpdateRule(d.exchange_rate, c.exchange_rate, u.exchange_rate)
    ensures UpdateRule(d.estimated_gdp, c.estimated_gdp, u.estimated_gdp)
  {
    Country(c.id, d.name, OnUpdate(d.capital, c.capital), OnUpdate(d.region, c.region), d.population,
            OnUpdate(d.currency_code, c.currency_code), OnUpdate(d.exchange_rate, c.exchange_rate),
            OnUpdate(d.estimated_gdp, c.estimated_gdp), OnUpdate(d.flag_url, c.flag_url), now)
  }

  /** A stored row has an exchange rate exactly when it has an estimated GDP. */
  predicate RateWithGdp(c: Country) {
    c.exchange_rate.Some? <==> c.estimated_gdp.Some?
  }

  /** Write data whose rate and GDP are of the same kind (both absent, both null or both set). */
  predicate DataRateWithGdp(d: CountryData) {
    && (d.exchange_rate.Undefined? <==> d.estimated_gdp.Undefined?)
    && (d.exchange_rate.Null? <==> d.estimated_gdp.Null?)
  }

  /** Writing paired data keeps a row's rate and GDP paired, on create and on update. */
  lemma WriteKeepsRateWithGdp(c: Country, d: CountryData, id: nat, now: int)
    requires DataRateWithGdp(d)
    ensures RateWithGdp(Created(id, d, now))
    ensures RateWithGdp(c) ==> RateWithGdp(Updated(c, d, now))
  {
  }
}
