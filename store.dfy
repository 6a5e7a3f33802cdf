/**
 * The `countries` table and the `refresh_metadata` row as one store, with the
 * two controller operations that change them: POST /countries/refresh and
 * DELETE /countries/:name.
 */
module Store {
  import opened Wrappers
  import opened Countries
  import opened Table
  import opened Reconcile
  import opened Query

  /** What an external fetch reports: `{success: true, data}` or
      `{success: false, error}`. */
  datatype Fetch<T> = Fetched(data: T) | FetchFailed(error: string)

  /** The response of POST /countries/refresh. */
  datatype RefreshOutcome =
    | Refreshed(totalCountries: nat, lastRefreshedAt: Timestamp)
    | SourceUnavailable(details: string)
    | RefreshFailed
  {
    function Status(): int {
      match this
      case Refreshed(_, _) => 200
      case SourceUnavailable(_) => 503
      case RefreshFailed => 500
    }
  }

  /** The response of DELETE /countries/:name. */
  datatype DeleteOutcome = Deleted | NotFound | DeleteFailed {
    function Status(): int {
      match this
      case Deleted => 200
      case NotFound => 404
      case DeleteFailed => 500
    }
  }

  /** Which database statement of a delete fails, if any: the DELETE itself, or
      the COUNT and metadata UPDATE that follow it. */
  datatype DeleteFault = NoFault | DeleteStatementFails | RecountFails

  /** The body of the refresh loop up to the upsert: the currency, rate and
      estimate of one country, and the row written for it. */
  method MergeRow(country: CountrySource, exchangeRates: Rates, multiplier: real, now: Timestamp)
    returns (row: Country)
    ensures row == SourceRow(country, exchangeRates, multiplier, now)
  {
    var currencyCode: Option<string> := None;
    var exchangeRate: Option<real> := None;
    var estimatedGdp: Option<real> := None;
    if HasCurrency(country) {
      currencyCode := Some(country.currencies.value[0]);
      exchangeRate := RateOf(exchangeRates, currencyCode.value);
      if exchangeRate.Some? {
        estimatedGdp := Some(country.population as real * multiplier / exchangeRate.value);
      }
    } else {
      estimatedGdp := Some(0.0);
    }
    row := Country(country.name, NullIfFalsy(country.capital), NullIfFalsy(country.region),
                   country.population, currencyCode, exchangeRate, estimatedGdp,
                   NullIfFalsy(country.flag), now);
    ghost var e := Merge(country, exchangeRates, multiplier);
    assert e.estimatedGdp.Some? ==>
             e.estimatedGdp.value == if HasCurrency(country) then country.population as real * multiplier / e.exchangeRate.value else 0.0;
  }

  class CountryStore {
    var rows: seq<Country>
    var metadata: Metadata

    /** Every operation keeps at most one row per lower-cased name. */
    ghost predicate Valid()
      reads this
    {
      UniqueNames(rows)
    }

    /** The metadata count is the row count. Refresh and a successful delete
        establish it; a delete whose recount fails leaves it stale. */
    ghost predicate Consistent()
      reads this
    {
      metadata.totalCountries == |rows|
    }

    /** An empty table and a metadata row that has never been refreshed. */
    constructor ()
      ensures Valid() && Consistent()
      ensures rows == [] && metadata == Metadata(0, None)
    {
      rows := [];
      metadata := Metadata(0, None);
    }

    /** POST /countries/refresh. `multipliers[i]` is the Math.random() draw for
        the i-th country and `now` the value of NOW(); `failAt` injects a failing
        database statement: Some(i) with i < |countries| fails while country i is
        written, any larger i fails at the metadata update or the commit. */
    method Refresh(countries: Fetch<seq<CountrySource>>, rates: Fetch<Rates>,
                   multipliers: seq<real>, now: Timestamp, failAt: Option<nat>)
      returns (outcome: RefreshOutcome)
      requires Valid()
      requires countries.Fetched? ==> |multipliers| == |countries.data|
      requires forall i :: 0 <= i < |multipliers| ==> ValidMultiplier(multipliers[i])
      modifies this
      ensures Valid()
      ensures countries.FetchFailed? ==> outcome == SourceUnavailable(countries.error)
      ensures countries.Fetched? && rates.FetchFailed? ==> outcome == SourceUnavailable(rates.error)
      ensures outcome.Refreshed? <==> countries.Fetched? && rates.Fetched? && failAt.None?
      ensures countries.Fetched? && rates.Fetched? && failAt.Some? ==> outcome == RefreshFailed
      ensures !outcome.Refreshed? ==> rows == old(rows) && metadata == old(metadata)
      ensures outcome.Refreshed? ==>
                && rows == UpsertAll(old(rows), MergeAll(countries.data, rates.data, multipliers, now))
                && metadata == Metadata(|rows|, Some(now))
                && outcome == Refreshed(|rows|, now)
                && Consistent()
                && metadata.totalCountries == |LowerNames(rows)|
    {
      if countries.FetchFailed? {
        return SourceUnavailable(countries.error);
      }
      if rates.FetchFailed? {
        return SourceUnavailable(rates.error);
      }
      var cs, exchangeRates := countries.data, rates.data;
      ghost var ops := MergeAll(cs, exchangeRates, multipliers, now);

      // beginTransaction: what a rollback restores
      var savedRows, savedMetadata := rows, metadata;
      var processedCount := 0;
      while processedCount < |cs|
        invariant processedCount <= |cs|
        invariant rows == UpsertAll(savedRows, ops[..processedCount])
        invariant UniqueNames(rows)
        invariant metadata == savedMetadata
      {
        if failAt == Some(processedCount) {
          rows, metadata := savedRows, savedMetadata;
          return RefreshFailed;
        }
        var country := cs[processedCount];
        var row := MergeRow(country, exchangeRates, multipliers[processedCount], now);
        assert row == ops[processedCount];

        Write(row);
        UpsertAllSnoc(savedRows, ops, processedCount);
        processedCount := processedCount + 1;
      }
      assert ops[..processedCount] == ops;
      if failAt.Some? {
        rows, metadata := savedRows, savedMetadata;
        return RefreshFailed;
      }
      UniqueCount(rows);
      metadata := Metadata(|rows|, Some(now));
      outcome := Refreshed(metadata.totalCountries, now);
    }

    /** One country's statements inside the refresh transaction: the
        case-insensitive SELECT, then an UPDATE of the row found (its stored name
        kept) or an INSERT of a new row. */
    method Write(row: Country)
      requires Valid()
      modifies this
      ensures Valid()
      ensures rows == Upsert(old(rows), row) && metadata == old(metadata)
    {
      UpsertKeepsNamesUnique(rows, row);
      var existing := FindName(rows, row.name);
      if existing.Some? {
        rows := rows[existing.value := Overwrite(rows[existing.value], row)];
      } else {
        rows := rows + [row];
      }
    }

    /** DELETE /countries/:name: delete every case-insensitive match, then
        recount into the metadata outside of any transaction. */
    method Delete(name: string, fault: DeleteFault) returns (outcome: DeleteOutcome)
      requires Valid()
      modifies this
      ensures Valid()
      ensures outcome == NotFound <==>
                fault != DeleteStatementFails && forall i :: 0 <= i < |old(rows)| ==> !SameName(old(rows)[i].name, name)
      ensures outcome == Deleted <==> fault == NoFault && outcome != NotFound
      ensures outcome == NotFound || fault == DeleteStatementFails ==>
                rows == old(rows) && metadata == old(metadata)
      ensures outcome == Deleted ==>
                && rows == RemoveByName(old(rows), name)
                && |rows| < |old(rows)|
                && metadata == old(metadata).(totalCountries := |rows|)
                && Consistent()
      ensures outcome == DeleteFailed && fault == RecountFails ==>
                rows == RemoveByName(old(rows), name) && metadata == old(metadata)
    {
      if fault == DeleteStatementFails {
        return DeleteFailed;
      }
      var remaining := RemoveByName(rows, name);
      RemoveByNameSpec(rows, name);
      FilterKeepsNamesUnique((row: Country) => !SameName(row.name, name), rows);
      var affectedRows := |rows| - |remaining|;
      rows := remaining;
      if affectedRows == 0 {
        return NotFound;
      }
      if fault == RecountFails {
        return DeleteFailed;
      }
      metadata := metadata.(totalCountries := |rows|);
      outcome := Deleted;
    }
  }
}

/** A client of the store: one refresh, a filtered listing, a case-variant
    refresh and a case-insensitive delete, with what each response must be. */
module Scenarios {
  import opened Wrappers
  import opened Countries
  import opened Query
  import opened Store

  function Nigeria(): CountrySource {
    CountrySource("Nigeria", Some("Abuja"), Some("Africa"), 200000000, Some(["NGN"]), Some(""))
  }

  /** A refresh stores one row whose estimate lies in the range `EstimateBounds` proves. */
  method RefreshScenario(m: real)
    requires ValidMultiplier(m)
  {
    var store := new CountryStore();
    var rates := map["NGN" := 1500.0];
    var outcome := store.Refresh(Fetched([Nigeria()]), Fetched(rates), [m], 7, None);
    assert outcome == Refreshed(1, 7) && outcome.Status() == 200;
    var row := store.rows[0];
    assert row.flagUrl == None && row.estimatedGdp.Some? by {
      assert row == SourceRow(Nigeria(), rates, m, 7);
    }
    assert 133333333.0 < row.estimatedGdp.value < 266666667.0 by {
      assert row == SourceRow(Nigeria(), rates, m, 7);
      EstimateBounds(Nigeria(), rates, m);
    }

    assert store.rows == [row] && row.region == Some("Africa");
  }

  /** The region filter keeps a row of that region and drops it for another. */
  method RegionFilterScenario(row: Country)
    requires row.region == Some("Africa")
  {
    var africa := List([row], Some("Africa"), None, None);
    assert africa == [row] by {
      assert Selected(Some("Africa"), None, row);
      assert multiset(africa) == multiset{row};
      assert |africa| == 1 && africa[0] in multiset(africa);
    }
    var europe := List([row], Some("Europe"), None, None);
    assert europe == [] by {
      assert !Selected(Some("Europe"), None, row);
      assert multiset(europe) == multiset{};
    }
  }

  /** A refresh under an upper-cased name updates the stored row in place;
      deleting by a lower-cased name removes it and recounts; a second delete
      finds nothing. */
  method CaseInsensitiveScenario(m1: real, m2: real)
    requires ValidMultiplier(m1) && ValidMultiplier(m2)
  {
    var store := new CountryStore();
    var rates := map["NGN" := 1500.0];
    var outcome := store.Refresh(Fetched([Nigeria()]), Fetched(rates), [m1], 7, None);
    var shouting := Nigeria().(name := "NIGERIA", population := 210000000);
    assert Lower("NIGERIA") == Lower("Nigeria");
    outcome := store.Refresh(Fetched([shouting]), Fetched(rates), [m2], 8, None);
    assert outcome == Refreshed(1, 8) && outcome.Status() == 200;
    assert |store.rows| == 1 && store.rows[0].name == "Nigeria" && store.rows[0].population == 210000000;
    assert store.metadata == Metadata(1, Some(8));

    assert Lower("nigeria") == Lower("Nigeria");
    var deleted := store.Delete("nigeria", NoFault);
    assert deleted == Deleted && deleted.Status() == 200;
    assert store.rows == [] && store.metadata.totalCountries == 0;

    var again := store.Delete("nigeria", NoFault);
    assert again == NotFound && again.Status() == 404;
  }
}
