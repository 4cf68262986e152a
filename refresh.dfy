/**
 * What one call of `refreshAll` does to the table and the cache, as a function of the state
 * before it and of everything the outside world supplies
 * (app/Services/CountryService.php:19-134).
 */
module Refresh {
  import opened Wrappers
  import opened Records
  import opened Table

  /** The outcome of one HTTP GET. */
  datatype Fetch<T> =
    | Unreachable     // the client threw (connection error, timeout)
    | Unsuccessful    // a response whose status is not 2xx
    | Received(body: T)

  /** One cache invalidation, in the order it was issued. */
  datatype CacheEvent = Forget(key: string) | FlushTag(tag: string)

  /** What `refreshAll` returns, or the `HttpException` it throws. */
  datatype RefreshResult =
    | Refreshed(message: string, totalCountries: nat, lastRefreshedAt: int)
    | Unavailable(status: nat, message: string)

  /**
   * Everything else the call depends on: the clock reading `now()` at the start of the cycle,
   * the value each entry's `rand(1000, 2000)` would return, whether the cache store supports
   * tags, and for the summary image the second clock reading and whether drawing and saving
   * the image succeed.
   */
  datatype Env = Env(now: int, multipliers: seq<int>, cacheTags: bool, imageAt: int, imageSaved: bool)

  /** Where one call leaves the table and the cache, and whether it reached the image step. */
  datatype Outcome = Outcome(result: RefreshResult, table: Table, invalidated: seq<CacheEvent>, rendersImage: bool)

  const CountriesDown := "External data source unavailable: Countries API"
  const RatesDown := "External data source unavailable: Exchange API"
  const NoDataChanged := "External data source unavailable. No data was changed."
  const RefreshedMessage := "Countries refreshed successfully"
  const StatusKey := "countries_status"
  const CountriesTag := "countries"

  /** `$ratesResponse->json()['rates'] ?? []`. */
  function RatesOf(body: Option<Rates>): Rates {
    if body.Some? then body.value else map[]
  }

  /** One draw of `rand(1000, 2000)` per entry. */
  predicate DrawsFit(entries: seq<RawCountry>, draws: seq<int>) {
    |draws| == |entries| && forall i :: 0 <= i < |draws| ==> 1000 <= draws[i] <= 2000
  }

  /** What the loop body makes of each entry, in entry order. */
  function Derivations(entries: seq<RawCountry>, rates: Rates, draws: seq<int>, now: int): seq<Derived>
    requires DrawsFit(entries, draws)
  {
    seq(|entries|, i requires 0 <= i < |entries| => Derive(entries[i], rates, draws[i], now))
  }

  /**
   * The `$rows` a sequence of derivations accumulates: the rows in order, skips left out;
   * `None` as soon as one of them throws.
   */
  function Collect(ds: seq<Derived>): Option<seq<CountryRow>>
    decreases |ds|
  {
    if ds == [] then Some([])
    else
      match Collect(ds[..|ds| - 1])
      case None => None
      case Some(rows) =>
        match ds[|ds| - 1]
        case Skip => Some(rows)
        case Row(c) => Some(rows + [c])
        case DivisionByZero => None
  }

  /** The `$rows` the entry loop builds, or `None` when an entry's division by a zero rate throws. */
  function BuildRows(entries: seq<RawCountry>, rates: Rates, draws: seq<int>, now: int): Option<seq<CountryRow>>
    requires DrawsFit(entries, draws)
  {
    Collect(Derivations(entries, rates, draws, now))
  }

  /** `refreshAll` as written: the table is truncated before the rows are built, outside any transaction. */
  function RefreshOutcome(before: Table, countries: Fetch<seq<RawCountry>>, rates: Fetch<Option<Rates>>, env: Env): Outcome
    requires countries.Received? ==> DrawsFit(countries.body, env.multipliers)
  {
    match countries
    case Unreachable => Outcome(Unavailable(503, NoDataChanged), before, [], false)
    case Unsuccessful => Outcome(Unavailable(503, CountriesDown), before, [], false)
    case Received(entries) =>
      match rates
      case Unreachable => Outcome(Unavailable(503, NoDataChanged), before, [], false)
      case Unsuccessful => Outcome(Unavailable(503, RatesDown), before, [], false)
      case Received(body) =>
        match BuildRows(entries, RatesOf(body), env.multipliers, env.now)
        case None => Outcome(Unavailable(503, NoDataChanged), map[], [], false)
        case Some(rows) =>
          var after := UpsertAll(map[], rows);
          if env.cacheTags then
            Outcome(Refreshed(RefreshedMessage, |after|, env.now), after, [Forget(StatusKey), FlushTag(CountriesTag)], true)
          else
            Outcome(Unavailable(503, NoDataChanged), after, [Forget(StatusKey)], false)
  }

  // ---------------------------------------------------------------------------
  // Properties of the rows built from the entries
  // ---------------------------------------------------------------------------

  /** Once a derivation has thrown, no later derivation brings the rows back. */
  lemma {:induction false} CollectThrown(ds: seq<Derived>, n: nat)
    requires n <= |ds|
    requires Collect(ds[..n]) == None
    ensures Collect(ds) == None
    decreases |ds| - n
  {
    if n < |ds| {
      assert ds[..n + 1][..n] == ds[..n];
      CollectThrown(ds, n + 1);
    } else {
      assert ds[..n] == ds;
    }
  }

  /**
   * When nothing throws, the rows are exactly the rows among the derivations: each row is one
   * of them, each of them is a row, and no derivation threw.
   */
  lemma {:induction false} CollectRows(ds: seq<Derived>)
    requires Collect(ds).Some?
    ensures var rows := Collect(ds).value;
            && (forall i :: 0 <= i < |rows| ==> exists j :: 0 <= j < |ds| && ds[j] == Row(rows[i]))
            && (forall j :: 0 <= j < |ds| && ds[j].Row? ==> ds[j].row in rows)
            && (forall j :: 0 <= j < |ds| ==> !ds[j].DivisionByZero?)
    decreases |ds|
  {
    if ds != [] {
      var n := |ds| - 1;
      CollectRows(ds[..n]);
      var prefix, rows := Collect(ds[..n]).value, Collect(ds).value;
      forall i | 0 <= i < |rows| ensures exists j :: 0 <= j < |ds| && ds[j] == Row(rows[i]) {
        if i < |prefix| {
          var j :| 0 <= j < n && ds[..n][j] == Row(prefix[i]);
          assert ds[j] == Row(rows[i]);
        } else {
          assert ds[n] == Row(rows[i]);
        }
      }
      forall j | 0 <= j < |ds| ensures (ds[j].Row? ==> ds[j].row in rows) && !ds[j].DivisionByZero? {
        if j < n {
          assert ds[..n][j] == ds[j];
        }
      }
    }
  }

  /**
   * The last row for key `k` among the accumulated rows is the last derivation that is a row
   * with key `k`.
   */
  lemma {:induction false} CollectLatest(ds: seq<Derived>, k: string)
    requires Collect(ds).Some? && LatestFor(Collect(ds).value, k).Some?
    ensures exists j :: && 0 <= j < |ds| && ds[j] == Row(LatestFor(Collect(ds).value, k).value)
                        && forall j' :: j < j' < |ds| && ds[j'].Row? ==> ds[j'].row.nameNormalized != k
    decreases |ds|
  {
    var n := |ds| - 1;
    var prefix, rows := Collect(ds[..n]).value, Collect(ds).value;
    if ds[n].Row? && ds[n].row.nameNormalized == k {
      assert rows == prefix + [ds[n].row];
    } else {
      assert LatestFor(rows, k) == LatestFor(prefix, k);
      CollectLatest(ds[..n], k);
      var j :| && 0 <= j < n && ds[..n][j] == Row(LatestFor(prefix, k).value)
               && forall j' :: j < j' < n && ds[..n][j'].Row? ==> ds[..n][j'].row.nameNormalized != k;
      assert ds[j] == ds[..n][j];
      forall j' | j < j' < |ds| && ds[j'].Row? ensures ds[j'].row.nameNormalized != k {
        if j' < n {
          assert ds[..n][j'] == ds[j'];
        }
      }
    }
  }

  /** The rows accumulated from stamped, coherent derivations are stamped and coherent. */
  lemma CollectStamped(ds: seq<Derived>, now: int)
    requires Collect(ds).Some?
    requires forall j :: 0 <= j < |ds| && ds[j].Row? ==>
               ds[j].row.lastRefreshedAt == now && ds[j].row.createdAt == now
               && ds[j].row.nameNormalized == NameKey(ds[j].row.name)
    ensures var rows := Collect(ds).value;
            forall i :: 0 <= i < |rows| ==>
              rows[i].lastRefreshedAt == now && rows[i].createdAt == now
              && rows[i].nameNormalized == NameKey(rows[i].name)
  {
    CollectRows(ds);
  }

  // ---------------------------------------------------------------------------
  // Properties of a refresh
  // ---------------------------------------------------------------------------

  /**
   * If either source fails, nothing is written and nothing is invalidated, and the failure is a
   * 503; the countries source is consulted first.
   */
  lemma FetchFailureChangesNothing(before: Table, countries: Fetch<seq<RawCountry>>, rates: Fetch<Option<Rates>>, env: Env)
    requires countries.Received? ==> DrawsFit(countries.body, env.multipliers)
    requires !countries.Received? || !rates.Received?
    ensures var o := RefreshOutcome(before, countries, rates, env);
            && o.table == before && o.invalidated == [] && !o.rendersImage
            && o.result == Unavailable(503,
                 if countries.Unsuccessful? then CountriesDown
                 else if countries.Unreachable? then NoDataChanged
                 else if rates.Unsuccessful? then RatesDown
                 else NoDataChanged)
  {
  }

  /** Every failure that leaves `refreshAll` is a 503, and only a success renders the image. */
  lemma FailuresAre503(before: Table, countries: Fetch<seq<RawCountry>>, rates: Fetch<Option<Rates>>, env: Env)
    requires countries.Received? ==> DrawsFit(countries.body, env.multipliers)
    ensures var o := RefreshOutcome(before, countries, rates, env);
            && (o.result.Unavailable? ==> o.result.status == 503 && !o.rendersImage)
            && (o.result.Refreshed? <==> o.rendersImage)
  {
  }

  /**
   * Upserting the accumulated rows into an emptied table leaves one row per key among the
   * derived rows, the last one derived for it.
   */
  lemma CollectThenUpsert(ds: seq<Derived>, now: int)
    requires Collect(ds).Some?
    requires forall j :: 0 <= j < |ds| && ds[j].Row? ==>
               ds[j].row.lastRefreshedAt == now && ds[j].row.createdAt == now
               && ds[j].row.nameNormalized == NameKey(ds[j].row.name)
    ensures var t := UpsertAll(map[], Collect(ds).value);
            && Keyed(t) && Coherent(t)
            && (forall k :: k in t ==> t[k].lastRefreshedAt == now)
            && (forall k :: k in t <==> exists j :: 0 <= j < |ds| && ds[j].Row? && ds[j].row.nameNormalized == k)
            && (forall k :: k in t ==>
                  exists j :: && 0 <= j < |ds| && ds[j] == Row(t[k])
                              && forall j' :: j < j' < |ds| && ds[j'].Row? ==> ds[j'].row.nameNormalized != k)
  {
    var rows := Collect(ds).value;
    var t := UpsertAll(map[], rows);
    CollectRows(ds);
    CollectStamped(ds, now);
    UpsertAllFromEmpty(rows, now);
    UpsertAllCoherent(map[], rows);
    forall k | k in t
      ensures exists j :: && 0 <= j < |ds| && ds[j] == Row(t[k])
                          && forall j' :: j < j' < |ds| && ds[j'].Row? ==> ds[j'].row.nameNormalized != k
    {
      CollectLatest(ds, k);
    }
    forall k | exists j :: 0 <= j < |ds| && ds[j].Row? && ds[j].row.nameNormalized == k
      ensures k in t
    {
      var j :| 0 <= j < |ds| && ds[j].Row? && ds[j].row.nameNormalized == k;
      var i :| 0 <= i < |rows| && rows[i] == ds[j].row;
      assert LatestFor(rows, k).Some?;
    }
  }

  /** When no entry throws, each derivation is a row exactly for an accepted entry, keyed and stamped. */
  lemma DerivationFacts(entries: seq<RawCountry>, r: Rates, m: seq<int>, now: int)
    requires DrawsFit(entries, m) && BuildRows(entries, r, m, now).Some?
    ensures var ds := Derivations(entries, r, m, now);
            forall j :: 0 <= j < |ds| ==>
              && (ds[j].Row? <==> Accepted(entries[j]))
              && (ds[j].Row? ==> && ds[j].row.nameNormalized == EntryKey(entries[j])
                                 && ds[j].row.lastRefreshedAt == now && ds[j].row.createdAt == now
                                 && ds[j].row.nameNormalized == NameKey(ds[j].row.name))
  {
    var ds := Derivations(entries, r, m, now);
    CollectRows(ds);
    forall j | 0 <= j < |ds|
      ensures ds[j] == Derive(entries[j], r, m[j], now)
    {
    }
  }

  /**
   * `t` is what a refresh builds from `entries`: one row per key of an accepted entry and no
   * other, each the derivation of the last accepted entry with that key, keyed and coherent,
   * and stamped with the cycle's `now`.
   */
  ghost predicate BuiltFrom(t: Table, entries: seq<RawCountry>, r: Rates, m: seq<int>, now: int)
    requires DrawsFit(entries, m)
  {
    && (forall k :: k in t <==>
          exists j :: 0 <= j < |entries| && Accepted(entries[j]) && EntryKey(entries[j]) == k)
    && (forall k :: k in t ==>
          exists j :: && 0 <= j < |entries| && Accepted(entries[j]) && EntryKey(entries[j]) == k
                      && Derive(entries[j], r, m[j], now) == Row(t[k])
                      && forall j' :: j < j' < |entries| && Accepted(entries[j']) ==> EntryKey(entries[j']) != k)
    && Keyed(t) && Coherent(t)
    && (forall k :: k in t ==> t[k].lastRefreshedAt == now)
  }

  /**
   * The table the truncate and the upserts leave: one row per key of an accepted entry, the
   * derivation of the last accepted entry with that key.
   */
  lemma BuiltTable(entries: seq<RawCountry>, r: Rates, m: seq<int>, now: int)
    requires DrawsFit(entries, m) && BuildRows(entries, r, m, now).Some?
    ensures BuiltFrom(UpsertAll(map[], BuildRows(entries, r, m, now).value), entries, r, m, now)
  {
    var ds := Derivations(entries, r, m, now);
    DerivationFacts(entries, r, m, now);
    CollectThenUpsert(ds, now);
    var t := UpsertAll(map[], Collect(ds).value);
    forall k | k in t
      ensures exists j :: && 0 <= j < |entries| && Accepted(entries[j]) && EntryKey(entries[j]) == k
                          && Derive(entries[j], r, m[j], now) == Row(t[k])
                          && forall j' :: j < j' < |entries| && Accepted(entries[j']) ==> EntryKey(entries[j']) != k
    {
      var j :| && 0 <= j < |ds| && ds[j] == Row(t[k])
               && forall j' :: j < j' < |ds| && ds[j'].Row? ==> ds[j'].row.nameNormalized != k;
      assert ds[j] == Derive(entries[j], r, m[j], now);
    }
    forall k | exists j :: 0 <= j < |entries| && Accepted(entries[j]) && EntryKey(entries[j]) == k
      ensures k in t
    {
      var j :| 0 <= j < |entries| && Accepted(entries[j]) && EntryKey(entries[j]) == k;
      assert ds[j].Row? && ds[j].row.nameNormalized == k;
    }
  }

  /** A successful refresh fetched both sources and reports the table the rows built. */
  lemma SuccessShape(before: Table, countries: Fetch<seq<RawCountry>>, rates: Fetch<Option<Rates>>, env: Env)
    requires countries.Received? ==> DrawsFit(countries.body, env.multipliers)
    requires RefreshOutcome(before, countries, rates, env).result.Refreshed?
    ensures countries.Received? && rates.Received?
    ensures BuildRows(countries.body, RatesOf(rates.body), env.multipliers, env.now).Some?
    ensures var o := RefreshOutcome(before, countries, rates, env);
            && o.table == UpsertAll(map[], BuildRows(countries.body, RatesOf(rates.body), env.multipliers, env.now).value)
            && o.result == Refreshed(RefreshedMessage, |o.table|, env.now)
            && o.invalidated == [Forget(StatusKey), FlushTag(CountriesTag)]
  {
  }

  /**
   * After a successful refresh the table holds exactly one row per distinct key among the
   * accepted entries and nothing else, that row being the derivation of the last accepted
   * entry with that key; every row carries the cycle's timestamp and a coherent key; the
   * reported total is the row count; the status key and the `countries` tag were each
   * invalidated once.
   */
  lemma SuccessfulRefresh(before: Table, countries: Fetch<seq<RawCountry>>, rates: Fetch<Option<Rates>>, env: Env)
    requires countries.Received? ==> DrawsFit(countries.body, env.multipliers)
    requires RefreshOutcome(before, countries, rates, env).result.Refreshed?
    ensures countries.Received? && rates.Received?
    ensures var o := RefreshOutcome(before, countries, rates, env);
            && BuiltFrom(o.table, countries.body, RatesOf(rates.body), env.multipliers, env.now)
            && o.result == Refreshed(RefreshedMessage, |o.table|, env.now)
            && o.invalidated == [Forget(StatusKey), FlushTag(CountriesTag)]
  {
    SuccessShape(before, countries, rates, env);
    BuiltTable(countries.body, RatesOf(rates.body), env.multipliers, env.now);
  }

  /** A successful refresh does not depend on what the table held before: prior rows are removed. */
  lemma RefreshReplacesEverything(t1: Table, t2: Table, countries: Fetch<seq<RawCountry>>, rates: Fetch<Option<Rates>>, env: Env)
    requires countries.Received? ==> DrawsFit(countries.body, env.multipliers)
    requires RefreshOutcome(t1, countries, rates, env).result.Refreshed?
    ensures RefreshOutcome(t2, countries, rates, env) == RefreshOutcome(t1, countries, rates, env)
  {
  }

  /**
   * A refresh from a single accepted entry whose rate is not zero, on a store with tags, succeeds
   * and leaves exactly one row, under the entry's key, whatever rows the table had, including a
   * row under the same key written from a differently cased name.
   */
  lemma SingleEntryRefresh(before: Table, e: RawCountry, rates: Option<Rates>, env: Env)
    requires |env.multipliers| == 1 && 1000 <= env.multipliers[0] <= 2000
    requires Accepted(e) && env.cacheTags
    requires !(Priced(e.currencies, RatesOf(rates)) && RateOf(e.currencies, RatesOf(rates)) == 0.0)
    ensures var o := RefreshOutcome(before, Received([e]), Received(rates), env);
            var d := Derive(e, RatesOf(rates), env.multipliers[0], env.now);
            && d.Row?
            && o.table == map[EntryKey(e) := d.row]
            && o.result == Refreshed(RefreshedMessage, 1, env.now)
  {
    var r, m := RatesOf(rates), env.multipliers;
    var d := Derive(e, r, m[0], env.now);
    SingleEntryRows(e, r, m, env.now);
    var t := UpsertAll(map[], [d.row]);
    UpsertSingle(d.row);
    assert t == map[EntryKey(e) := d.row] && |t| == 1;
    assert RefreshOutcome(before, Received([e]), Received(rates), env)
        == Outcome(Refreshed(RefreshedMessage, |t|, env.now), t, [Forget(StatusKey), FlushTag(CountriesTag)], true);
  }

  lemma SingleEntryRows(e: RawCountry, r: Rates, m: seq<int>, now: int)
    requires |m| == 1 && 1000 <= m[0] <= 2000
    requires Accepted(e) && !(Priced(e.currencies, r) && RateOf(e.currencies, r) == 0.0)
    ensures DrawsFit([e], m)
    ensures Derive(e, r, m[0], now).Row?
    ensures Derive(e, r, m[0], now).row.nameNormalized == EntryKey(e)
    ensures BuildRows([e], r, m, now) == Some([Derive(e, r, m[0], now).row])
  {
    assert DrawsFit([e], m);
    var d := Derive(e, r, m[0], now);
    assert !d.Skip? && !d.DivisionByZero?;
    var ds := Derivations([e], r, m, now);
    assert |ds| == 1 && ds[0] == d;
    assert ds == [d];
    CollectSingle(d);
  }

  lemma CollectSingle(d: Derived)
    ensures Collect([d]) == match d case Row(c) => Some([c]) case Skip => Some([]) case DivisionByZero => None
  {
    assert [d][..0] == [] && Collect([]) == Some([]);
    if d.Row? {
      assert Collect([d]) == Some([] + [d.row]);
      assert [] + [d.row] == [d.row];
    }
  }

  lemma UpsertSingle(c: CountryRow)
    ensures UpsertAll(map[], [c]) == map[c.nameNormalized := c]
  {
    assert [c][..0] == [];
  }

  // ---------------------------------------------------------------------------
  // Failures after the truncate
  // ---------------------------------------------------------------------------

  /**
   * As written, a rate of zero for an accepted entry's first currency makes the division throw
   * after the table was truncated: the call reports that no data was changed, and the table is empty.
   */
  lemma ZeroRateEmptiesTable(before: Table, entries: seq<RawCountry>, rates: Option<Rates>, env: Env, j: nat)
    requires DrawsFit(entries, env.multipliers)
    requires j < |entries| && Accepted(entries[j])
    requires Priced(entries[j].currencies, RatesOf(rates)) && RateOf(entries[j].currencies, RatesOf(rates)) == 0.0
    ensures var o := RefreshOutcome(before, Received(entries), Received(rates), env);
            o.result == Unavailable(503, NoDataChanged) && o.table == map[] && o.invalidated == []
  {
    var ds := Derivations(entries, RatesOf(rates), env.multipliers, env.now);
    assert ds[j].DivisionByZero?;
    if Collect(ds).Some? {
      CollectRows(ds);
    }
  }

  /**
   * As written, a cache store without tag support makes `Cache::tags` throw after the new rows
   * were written: the call reports that no data was changed, and the table was replaced.
   */
  lemma UntaggedCacheReportsNoChange(before: Table, entries: seq<RawCountry>, rates: Option<Rates>, env: Env)
    requires DrawsFit(entries, env.multipliers) && !env.cacheTags
    requires BuildRows(entries, RatesOf(rates), env.multipliers, env.now).Some?
    ensures var o := RefreshOutcome(before, Received(entries), Received(rates), env);
            && o.result == Unavailable(503, NoDataChanged)
            && o.table == UpsertAll(map[], BuildRows(entries, RatesOf(rates), env.multipliers, env.now).value)
  {
  }

  /** One concrete call: a stored country, one entry whose currency has rate 0, and the table ends empty. */
  lemma ZeroRateExample()
    ensures var row := CountryRow("nigeria", "Nigeria", None, None, 100, None, None, Some(0.0), None, 0, 0, 0);
            var e := RawCountry(Some("Nigeria"), None, None, Some(100), None, Listed([Some("NGN")]));
            var env := Env(1, [1500], true, 1, true);
            var o := RefreshOutcome(map["nigeria" := row], Received([e]), Received(Some(map["NGN" := 0.0])), env);
            o.result == Unavailable(503, NoDataChanged) && o.table == map[] && o.table != map["nigeria" := row]
  {
    var row := CountryRow("nigeria", "Nigeria", None, None, 100, None, None, Some(0.0), None, 0, 0, 0);
    var e := RawCountry(Some("Nigeria"), None, None, Some(100), None, Listed([Some("NGN")]));
    var env := Env(1, [1500], true, 1, true);
    assert FirstCode(e.currencies) == Some("NGN");
    ZeroRateEmptiesTable(map["nigeria" := row], [e], Some(map["NGN" := 0.0]), env, 0);
    assert "nigeria" in map["nigeria" := row];
  }

  /**
   * The refresh the error message describes: rows are built before anything is written and
   * written together, so a failure leaves the table as it was, and a failed cache invalidation
   * after the write is not reported as a failure.
   */
  function AtomicRefresh(before: Table, countries: Fetch<seq<RawCountry>>, rates: Fetch<Option<Rates>>, env: Env): Outcome
    requires countries.Received? ==> DrawsFit(countries.body, env.multipliers)
  {
    match countries
    case Unreachable => Outcome(Unavailable(503, NoDataChanged), before, [], false)
    case Unsuccessful => Outcome(Unavailable(503, CountriesDown), before, [], false)
    case Received(entries) =>
      match rates
      case Unreachable => Outcome(Unavailable(503, NoDataChanged), before, [], false)
      case Unsuccessful => Outcome(Unavailable(503, RatesDown), before, [], false)
      case Received(body) =>
        match BuildRows(entries, RatesOf(body), env.multipliers, env.now)
        case None => Outcome(Unavailable(503, NoDataChanged), before, [], false)
        case Some(rows) =>
          var after := UpsertAll(map[], rows);
          Outcome(Refreshed(RefreshedMessage, |after|, env.now), after,
                  if env.cacheTags then [Forget(StatusKey), FlushTag(CountriesTag)] else [Forget(StatusKey)], true)
  }

  /**
   * The corrected refresh is all or nothing: a reported failure means the table and the cache
   * are untouched, a cache store without tags no longer turns a completed write into a reported
   * failure, and wherever the refresh as written succeeds the two agree exactly.
   */
  lemma AtomicRefreshAllOrNothing(before: Table, countries: Fetch<seq<RawCountry>>, rates: Fetch<Option<Rates>>, env: Env)
    requires countries.Received? ==> DrawsFit(countries.body, env.multipliers)
    ensures var o := AtomicRefresh(before, countries, rates, env);
            && (o.result.Unavailable? ==> o.table == before && o.invalidated == [] && o.result.status == 503)
            && (o.result.Refreshed? ==> o.table.Keys == RefreshOutcome(before, countries, rates, env).table.Keys)
            && (countries.Received? && rates.Received? &&
                BuildRows(countries.body, RatesOf(rates.body), env.multipliers, env.now).Some? ==>
                  o.result.Refreshed? && o.table == RefreshOutcome(before, countries, rates, env).table)
            && (RefreshOutcome(before, countries, rates, env).result.Refreshed? ==>
                  o == RefreshOutcome(before, countries, rates, env))
  {
  }

}
