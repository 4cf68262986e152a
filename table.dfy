/**
 * The `countries` table as a map from the unique `name_normalized` column to the row,
 * and the bulk upsert `refreshAll` writes it with
 * (app/Services/CountryService.php:101-112; the unique index is declared in
 * database/migrations/2025_01_01_000000_create_countries_table.php:17).
 */
module Table {
  import opened Wrappers
  import opened Records

  type Table = map<string, CountryRow>

  /** Every row is stored under its own `nameNormalized`. */
  ghost predicate Keyed(t: Table) {
    forall k :: k in t ==> t[k].nameNormalized == k
  }

  /** Every row's key is the one its display name derives. */
  ghost predicate Coherent(t: Table) {
    forall k :: k in t ==> t[k].nameNormalized == NameKey(t[k].name)
  }

  /**
   * Upsert of one row keyed on `name_normalized`: a new key is inserted; an existing row gets
   * every column of the update list (everything but the key and `created_at`) from `c`.
   */
  function Upsert(t: Table, c: CountryRow): (r: Table)
    ensures r.Keys == t.Keys + {c.nameNormalized}
    ensures forall k :: k in t && k != c.nameNormalized ==> r[k] == t[k]
    ensures c.nameNormalized !in t ==> r[c.nameNormalized] == c
    ensures c.nameNormalized in t ==> r[c.nameNormalized] == c.(createdAt := t[c.nameNormalized].createdAt)
    ensures Keyed(t) ==> Keyed(r)
  {
    var k := c.nameNormalized;
    if k in t then t[k := c.(createdAt := t[k].createdAt)] else t[k := c]
  }

  /** The rows upserted one after the other, as the chunks of `array_chunk($rows, 500)` are. */
  function UpsertAll(t: Table, rows: seq<CountryRow>): Table
    decreases |rows|
  {
    if rows == [] then t else Upsert(UpsertAll(t, rows[..|rows| - 1]), rows[|rows| - 1])
  }

  /** The last of `rows` whose key is `k`, if any. */
  function LatestFor(rows: seq<CountryRow>, k: string): (r: Option<CountryRow>)
    ensures r.Some? ==> r.value in rows && r.value.nameNormalized == k
    ensures r.None? <==> forall i :: 0 <= i < |rows| ==> rows[i].nameNormalized != k
    decreases |rows|
  {
    if rows == [] then None
    else if rows[|rows| - 1].nameNormalized == k then Some(rows[|rows| - 1])
    else LatestFor(rows[..|rows| - 1], k)
  }

  /**
   * Upserting rows that share one `created_at` into an empty table leaves exactly one row per
   * distinct key among them, and that row is the last one given for the key.
   */
  lemma {:induction false} UpsertAllFromEmpty(rows: seq<CountryRow>, stamp: int)
    requires forall i :: 0 <= i < |rows| ==> rows[i].createdAt == stamp
    ensures var t := UpsertAll(map[], rows);
            && Keyed(t)
            && (forall k :: k in t <==> LatestFor(rows, k).Some?)
            && (forall k :: k in t ==> t[k] == LatestFor(rows, k).value)
    decreases |rows|
  {
    if rows != [] {
      var init, c := rows[..|rows| - 1], rows[|rows| - 1];
      UpsertAllFromEmpty(init, stamp);
      var t0 := UpsertAll(map[], init);
      forall k | k in t0 ensures t0[k].createdAt == stamp {
        assert t0[k] == LatestFor(init, k).value;
      }
      forall k ensures LatestFor(rows, k) == if k == c.nameNormalized then Some(c) else LatestFor(init, k) {
      }
    }
  }

  /** Every row of a table built by upserting coherent rows is coherent. */
  lemma {:induction false} UpsertAllCoherent(t: Table, rows: seq<CountryRow>)
    requires Coherent(t)
    requires forall i :: 0 <= i < |rows| ==> rows[i].nameNormalized == NameKey(rows[i].name)
    ensures Coherent(UpsertAll(t, rows))
    decreases |rows|
  {
    if rows != [] {
      UpsertAllCoherent(t, rows[..|rows| - 1]);
    }
  }
}
