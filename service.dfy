/**
 * `CountryService` (app/Services/CountryService.php) as an object over the state it reads and
 * writes: the `countries` table, the invalidations sent to the cache, and the summary image on disk.
 */
module Service {
  import opened Wrappers
  import opened Text
  import opened Records
  import opened Table
  import opened Listing
  import opened Refresh

  /** One ranked line of the summary image: rank, name and GDP (absent GDP shown as 0). */
  datatype SummaryLine = SummaryLine(rank: nat, name: string, gdp: real)

  /** What the summary image shows. */
  datatype Summary = Summary(lines: seq<SummaryLine>, totalCountries: nat, renderedAt: int)

  /** The answer of `getStatus`. */
  datatype Status = Status(totalCountries: nat, lastRefreshedAt: Option<int>)

  /** The lines drawn for the ranked rows, ranks counted from 1. */
  function RankedLines(top: seq<CountryRow>): seq<SummaryLine> {
    seq(|top|, i requires 0 <= i < |top| => SummaryLine(i + 1, top[i].name, GdpOrZero(top[i])))
  }

  /** `getByName` and `deleteByName` match a row on the normalized query or on the trimmed query as name. */
  predicate FoundBy(q: string, c: CountryRow) {
    c.nameNormalized == NameKey(Trim(q)) || c.name == Trim(q)
  }

  /**
   * The entry loop of `refreshAll`: each entry derived in turn, accepted rows kept in order,
   * stopping at the first entry whose division by a zero rate throws.
   */
  method DeriveRows(entries: seq<RawCountry>, rates: Rates, draws: seq<int>, now: int) returns (rows: Option<seq<CountryRow>>)
    requires DrawsFit(entries, draws)
    ensures rows == BuildRows(entries, rates, draws, now)
  {
    ghost var ds := Derivations(entries, rates, draws, now);
    var acc: seq<CountryRow> := [];
    for i := 0 to |entries|
      invariant Collect(ds[..i]) == Some(acc)
    {
      assert ds[..i + 1][..i] == ds[..i];
      match Derive(entries[i], rates, draws[i], now)
      case Skip =>
      case Row(c) =>
        acc := acc + [c];
      case DivisionByZero =>
        CollectThrown(ds, i + 1);
        return None;
    }
    assert ds[..|entries|] == ds;
    rows := Some(acc);
  }

  class CountryService {
    var table: Table
    var cacheLog: seq<CacheEvent>
    var summary: Option<Summary>

    ghost predicate Valid()
      reads this
    {
      Keyed(table)
    }

    constructor (initial: Table)
      requires Keyed(initial)
      ensures Valid() && table == initial && cacheLog == [] && summary == None
    {
      table := initial;
      cacheLog := [];
      summary := None;
    }

    /**
     * `refreshAll` with the correction of `AtomicRefresh`: both fetches, the entry loop, and only
     * then the truncate and the upserts, so a throwing entry leaves the table alone; a store
     * without tags skips the tag flush instead of failing the call. Wherever the code as written
     * succeeds, the result, the table and the invalidations are the same as its.
     */
    method RefreshAll(countries: Fetch<seq<RawCountry>>, rates: Fetch<Option<Rates>>, env: Env) returns (r: RefreshResult)
      requires Valid()
      requires countries.Received? ==> DrawsFit(countries.body, env.multipliers)
      modifies this
      ensures Valid()
      ensures var o := AtomicRefresh(old(table), countries, rates, env);
              r == o.result && table == o.table && cacheLog == old(cacheLog) + o.invalidated
      ensures var o := RefreshOutcome(old(table), countries, rates, env);
              o.result.Refreshed? ==> r == o.result && table == o.table && cacheLog == old(cacheLog) + o.invalidated
      ensures if r.Refreshed? && env.imageSaved
              then exists top :: IsTopFive(table, top) && summary == Some(Summary(RankedLines(top), |table|, env.imageAt))
              else summary == old(summary)
    {
      AtomicRefreshAllOrNothing(table, countries, rates, env);
      match countries
      case Unreachable => return Unavailable(503, NoDataChanged);
      case Unsuccessful => return Unavailable(503, CountriesDown);
      case Received(entries) =>
        match rates
        case Unreachable => return Unavailable(503, NoDataChanged);
        case Unsuccessful => return Unavailable(503, RatesDown);
        case Received(body) =>
          var rateMap, now := RatesOf(body), env.now;
          var built := DeriveRows(entries, rateMap, env.multipliers, now);
          if built.None? {
            return Unavailable(503, NoDataChanged);
          }
          table := map[];  // Country::truncate()
          assert Keyed(table);
          UpsertRows(built.value);
          cacheLog := cacheLog + [Forget(StatusKey)];
          if env.cacheTags {
            cacheLog := cacheLog + [FlushTag(CountriesTag)];
          }
          GenerateSummaryImage(env.imageAt, env.imageSaved);
          r := Refreshed(RefreshedMessage, |table|, now);
    }

    /** The chunked upserts: the rows written one after the other, later rows overwriting earlier ones. */
    method UpsertRows(rows: seq<CountryRow>)
      modifies this`table
      ensures table == UpsertAll(old(table), rows)
      ensures Keyed(old(table)) ==> Keyed(table)
    {
      ghost var start := table;
      for i := 0 to |rows|
        invariant table == UpsertAll(start, rows[..i])
        invariant Keyed(start) ==> Keyed(table)
      {
        assert rows[..i + 1][..i] == rows[..i];
        table := Upsert(table, rows[i]);
      }
      assert rows[..|rows|] == rows;
    }

    /**
     * `generateSummaryImage`: the top five rows by GDP (absent GDP as 0), ranked, with the row
     * count and the time. A failure to draw or save is swallowed and leaves the old image.
     */
    method GenerateSummaryImage(at: int, saved: bool)
      requires Valid()
      modifies this`summary
      ensures saved ==> exists top :: IsTopFive(table, top) && summary == Some(Summary(RankedLines(top), |table|, at))
      ensures !saved ==> summary == old(summary)
    {
      if !saved {
        return;
      }
      var top := TopFive(table);
      var lines: seq<SummaryLine> := [];
      var rank := 1;
      for i := 0 to |top|
        invariant rank == i + 1
        invariant lines == RankedLines(top[..i])
      {
        lines := lines + [SummaryLine(rank, top[i].name, GdpOrZero(top[i]))];
        rank := rank + 1;
      }
      assert top[..|top|] == top;
      summary := Some(Summary(lines, |table|, at));
    }

    /**
     * `getAll`: every row passing the filters, each once, in the order the `sort` parameter asks
     * for (by `created_at` when it is empty, in any order when it is not one of the four names).
     */
    method GetAll(f: Filters) returns (r: seq<CountryRow>)
      requires Valid()
      ensures NoDup(r)
      ensures forall c :: c in r <==> c in table.Values && Selected(f, c)
      ensures Sorted(OrderingFor(f.sort), r)
    {
      var s := Scan(table, f);
      r := SortRows(OrderingFor(f.sort), s);
      SortRowsSorted(OrderingFor(f.sort), s);
      NoDupPermutation(s, r);
      forall c ensures c in r <==> c in s {
        assert c in r <==> c in multiset(r);
        assert c in s <==> c in multiset(s);
      }
    }

    /**
     * `getByName`: some row the query finds, or none when no row matches. In a coherent table
     * the row is the one stored under the query's normalized key.
     */
    method GetByName(q: string) returns (r: Option<CountryRow>)
      requires Valid()
      ensures r.None? <==> forall k :: k in table ==> !FoundBy(q, table[k])
      ensures r.Some? ==> r.value in table.Values && FoundBy(q, r.value)
      ensures Coherent(table) ==>
                r == if NameKey(Trim(q)) in table then Some(table[NameKey(Trim(q))]) else None
    {
      var key := NameKey(Trim(q));
      if key in table {
        return Some(table[key]);
      }
      var rows := Scan(table, NoFilters);
      var i := 0;
      while i < |rows|
        invariant 0 <= i <= |rows|
        invariant forall j :: 0 <= j < i ==> rows[j].name != Trim(q)
      {
        if rows[i].name == Trim(q) {
          assert rows[i] in rows;
          var k :| k in table && table[k] == rows[i];
          assert FoundBy(q, table[k]);
          assert table[k].nameNormalized != NameKey(table[k].name);
          return Some(rows[i]);
        }
        i := i + 1;
      }
      forall k | k in table ensures !FoundBy(q, table[k]) {
        assert table[k] in rows;
      }
      r := None;
    }

    /**
     * `deleteByName`: removes the one row the query finds and reports true, or reports false and
     * changes nothing when no row matches.
     */
    method DeleteByName(q: string) returns (deleted: bool)
      requires Valid()
      modifies this`table
      ensures Valid()
      ensures deleted <==> exists k :: k in old(table) && FoundBy(q, old(table)[k])
      ensures !deleted ==> table == old(table)
      ensures deleted ==> exists k :: k in old(table) && FoundBy(q, old(table)[k]) && table == old(table) - {k}
      ensures Coherent(old(table)) ==> table == old(table) - {NameKey(Trim(q))}
    {
      var found := GetByName(q);
      if found.None? {
        return false;
      }
      table := table - {found.value.nameNormalized};
      deleted := true;
    }

    /** `getStatus`: the row count and the latest `last_refreshed_at`, none when the table is empty. */
    method GetStatus() returns (s: Status)
      requires Valid()
      ensures s.totalCountries == |table|
      ensures s.lastRefreshedAt.None? <==> |table| == 0
      ensures s.lastRefreshedAt.Some? ==>
                && (exists k :: k in table && table[k].lastRefreshedAt == s.lastRefreshedAt.value)
                && (forall k :: k in table ==> table[k].lastRefreshedAt <= s.lastRefreshedAt.value)
    {
      var rows := Scan(table, NoFilters);
      assert SelectedKeys(table, NoFilters) == table.Keys;
      var latest: Option<int> := None;
      for i := 0 to |rows|
        invariant latest.None? <==> i == 0
        invariant latest.Some? ==> exists j :: 0 <= j < i && rows[j].lastRefreshedAt == latest.value
        invariant latest.Some? ==> forall j :: 0 <= j < i ==> rows[j].lastRefreshedAt <= latest.value
      {
        if latest.None? || latest.value < rows[i].lastRefreshedAt {
          latest := Some(rows[i].lastRefreshedAt);
        }
      }
      if latest.Some? {
        var j :| 0 <= j < |rows| && rows[j].lastRefreshedAt == latest.value;
        assert rows[j] in table.Values;
        forall k | k in table ensures table[k].lastRefreshedAt <= latest.value {
          assert table[k] in rows;
        }
      }
      s := Status(|table|, latest);
    }
  }
}
