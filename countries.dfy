/**
 * The country record as it arrives in the countries feed and as the
 * `countries` table stores it, the singleton `refresh_metadata` row, and the
 * per-country merge of a record with the exchange-rate table.
 */
module Countries {
  import opened Wrappers

  /** An opaque point in time, standing for a value of the database's NOW(). */
  type Timestamp = nat

  /** One element of the countries feed. `currencies` holds the `code` of each
      declared currency, in the feed's order; None is an absent array. */
  datatype CountrySource = CountrySource(
    name: string,
    capital: Option<string>,
    region: Option<string>,
    population: nat,
    currencies: Option<seq<string>>,
    flag: Option<string>)

  /** One row of the `countries` table (the auto-increment id is left implicit:
      a row's position in the table stands for it). */
  datatype Country = Country(
    name: string,
    capital: Option<string>,
    region: Option<string>,
    population: nat,
    currencyCode: Option<string>,
    exchangeRate: Option<real>,
    estimatedGdp: Option<real>,
    flagUrl: Option<string>,
    lastRefreshedAt: Timestamp)

  /** The singleton `refresh_metadata` row (id = 1). */
  datatype Metadata = Metadata(totalCountries: nat, lastRefreshedAt: Option<Timestamp>)

  /** The exchange-rate table of one refresh: currency code to units per USD. */
  type Rates = map<string, real>

  /** `Math.random() * (2000 - 1000) + 1000` lies in [1000, 2000). */
  const MinMultiplier: real := 1000.0
  const MaxMultiplier: real := 2000.0

  predicate ValidMultiplier(m: real) {
    MinMultiplier <= m < MaxMultiplier
  }

  function LowerChar(c: char): char {
    if 'A' <= c <= 'Z' then (c as int + 32) as char else c
  }

  /** SQL LOWER, on the ASCII letters. */
  function Lower(s: string): string {
    if s == [] then [] else [LowerChar(s[0])] + Lower(s[1..])
  }

  /** `LOWER(a) = LOWER(b)`: the key on which rows are matched. */
  predicate SameName(a: string, b: string) {
    Lower(a) == Lower(b)
  }

  /** JavaScript's `x || null` on a string field: absent and "" both become NULL. */
  function NullIfFalsy(s: Option<string>): Option<string> {
    if s.Some? && s.value != "" then s else None
  }

  /** `country.currencies && country.currencies.length > 0` */
  predicate HasCurrency(c: CountrySource) {
    c.currencies.Some? && |c.currencies.value| > 0
  }

  /** The currency code, exchange rate and GDP estimate derived for one country. */
  datatype Estimate = Estimate(currencyCode: Option<string>, exchangeRate: Option<real>, estimatedGdp: Option<real>)

  /** `exchangeRates[code] || null`: a missing code and a zero rate both give NULL. */
  function RateOf(rates: Rates, code: string): Option<real> {
    if code in rates && rates[code] != 0.0 then Some(rates[code]) else None
  }

  /** The per-country merge: first currency, its rate, and
      `population * m / rate` with the injected multiplier m. */
  function Merge(c: CountrySource, rates: Rates, m: real): (e: Estimate)
    ensures !HasCurrency(c) ==> e == Estimate(None, None, Some(0.0))
    ensures HasCurrency(c) ==> e.currencyCode == Some(c.currencies.value[0])
    ensures e.exchangeRate.Some? <==>
              HasCurrency(c) && c.currencies.value[0] in rates && rates[c.currencies.value[0]] != 0.0
    ensures e.exchangeRate.Some? ==> e.exchangeRate.value == rates[c.currencies.value[0]]
    ensures e.estimatedGdp.None? <==> HasCurrency(c) && e.exchangeRate.None?
    ensures e.estimatedGdp.Some? && c.population == 0 ==> e.estimatedGdp.value == 0.0
  {
    if HasCurrency(c) then
      var code := c.currencies.value[0];
      var rate := RateOf(rates, code);
      var gdp := if rate.Some? then Some(c.population as real * m / rate.value) else None;
      Estimate(Some(code), rate, gdp)
    else
      Estimate(None, None, Some(0.0))
  }

  /** Dividing by a positive real keeps the order. */
  lemma DivMonotone(x: real, y: real, d: real)
    requires x <= y && d > 0.0
    ensures x / d <= y / d
  {
    assert y / d - x / d == (y - x) / d;
  }

  lemma DivStrictMonotone(x: real, y: real, d: real)
    requires x < y && d > 0.0
    ensures x / d < y / d
  {
    assert y / d - x / d == (y - x) / d;
  }

  /** With a positive rate the estimate lies in
      [population * 1000 / rate, population * 2000 / rate), and the upper bound
      is attained only by population 0, where both bounds are 0. */
  lemma EstimateBounds(c: CountrySource, rates: Rates, m: real)
    requires ValidMultiplier(m)
    requires Merge(c, rates, m).exchangeRate.Some? && Merge(c, rates, m).exchangeRate.value > 0.0
    ensures var e := Merge(c, rates, m);
            var p, rate := c.population as real, e.exchangeRate.value;
            e.estimatedGdp.Some? &&
            p * MinMultiplier / rate <= e.estimatedGdp.value <= p * MaxMultiplier / rate &&
            (c.population > 0 ==> e.estimatedGdp.value < p * MaxMultiplier / rate)
  {
    var e := Merge(c, rates, m);
    var p, rate := c.population as real, e.exchangeRate.value;
    assert e.estimatedGdp.value == p * m / rate;
    assert p * MinMultiplier <= p * m;
    DivMonotone(p * MinMultiplier, p * m, rate);
    assert p * m <= p * MaxMultiplier;
    DivMonotone(p * m, p * MaxMultiplier, rate);
    if c.population > 0 {
      assert p * m < p * MaxMultiplier;
      DivStrictMonotone(p * m, p * MaxMultiplier, rate);
    }
  }

  /** The full target row for one source record: falsy capital, region and flag
      become NULL, the timestamp is this refresh's NOW(). */
  function SourceRow(c: CountrySource, rates: Rates, m: real, now: Timestamp): (r: Country)
    ensures r.name == c.name && r.population == c.population && r.lastRefreshedAt == now
    ensures r.capital.None? <==> c.capital.None? || c.capital == Some("")
    ensures r.region.None? <==> c.region.None? || c.region == Some("")
    ensures r.flagUrl.None? <==> c.flag.None? || c.flag == Some("")
    ensures r.capital.Some? ==> r.capital == c.capital
    ensures r.region.Some? ==> r.region == c.region
    ensures r.flagUrl.Some? ==> r.flagUrl == c.flag
    ensures Estimate(r.currencyCode, r.exchangeRate, r.estimatedGdp) == Merge(c, rates, m)
  {
    var e := Merge(c, rates, m);
    Country(c.name, NullIfFalsy(c.capital), NullIfFalsy(c.region), c.population,
            e.currencyCode, e.exchangeRate, e.estimatedGdp, NullIfFalsy(c.flag), now)
  }
}
