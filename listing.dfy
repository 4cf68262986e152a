/**
 * Reading the table: the filters and orderings of `getAll`
 * (app/Services/CountryService.php:210-251) and the top-five-by-GDP selection that feeds the
 * summary image (app/Services/CountryService.php:143-145).
 */
module Listing {
  import opened Wrappers
  import opened Text
  import opened Records
  import opened Table

  // ---------------------------------------------------------------------------
  // Filters
  // ---------------------------------------------------------------------------

  /** The query parameters `getAll` receives; each may be missing. */
  datatype Filters = Filters(region: Option<string>, currency: Option<string>, sort: Option<string>)

  const NoFilters := Filters(None, None, None)

  /**
   * A row passes the filters when its region equals a non-empty region filter and its
   * currency code equals the upper-cased non-empty currency filter; an empty filter
   * (missing, "" or "0") does not restrict.
   */
  predicate Selected(f: Filters, c: CountryRow): (b: bool)
    ensures IsBlank(f.region) && IsBlank(f.currency) ==> b
    ensures b && !IsBlank(f.currency) ==>
              c.currencyCode.Some? && forall i :: 0 <= i < |c.currencyCode.value| ==> !IsLowerLetter(c.currencyCode.value[i])
  {
    && (IsBlank(f.region) || c.region == Some(f.region.value))
    && (IsBlank(f.currency) || c.currencyCode == Some(Upper(f.currency.value)))
  }

  // ---------------------------------------------------------------------------
  // Orderings
  // ---------------------------------------------------------------------------

  datatype Ordering =
    | ByGdpDesc | ByGdpAsc | ByPopulationDesc | ByPopulationAsc  // each with `name` ascending as tie-break
    | ByCreatedAt                                               // `created_at` ascending, ties in any order
    | Unspecified                                               // no ORDER BY: any order
    | ByGdpOrZeroDesc                                           // COALESCE(estimated_gdp, 0) descending

  /**
   * The ordering a `sort` parameter selects. An empty parameter orders by `created_at`; a
   * non-empty value other than the four recognised ones adds no ORDER BY at all.
   */
  function OrderingFor(sort: Option<string>): (r: Ordering)
    ensures r == ByCreatedAt <==> IsBlank(sort)
    ensures r != ByGdpOrZeroDesc
  {
    if IsBlank(sort) then ByCreatedAt
    else if sort.value == "gdp_desc" then ByGdpDesc
    else if sort.value == "gdp_asc" then ByGdpAsc
    else if sort.value == "population_desc" then ByPopulationDesc
    else if sort.value == "population_asc" then ByPopulationAsc
    else Unspecified
  }

  /** Binary (code point) lexicographic order on names. */
  predicate NameLe(a: string, b: string)
    decreases |a|
  {
    if a == [] then true
    else if b == [] then false
    else if a[0] != b[0] then a[0] < b[0]
    else NameLe(a[1..], b[1..])
  }

  lemma {:induction false} NameLeTotal(a: string, b: string)
    ensures NameLe(a, b) || NameLe(b, a)
    decreases |a|
  {
    if a != [] && b != [] && a[0] == b[0] {
      NameLeTotal(a[1..], b[1..]);
    }
  }

  lemma {:induction false} NameLeTransitive(a: string, b: string, c: string)
    requires NameLe(a, b) && NameLe(b, c)
    ensures NameLe(a, c)
    decreases |a|
  {
    if a != [] && b != [] && c != [] && a[0] == b[0] == c[0] {
      NameLeTransitive(a[1..], b[1..], c[1..]);
    }
  }

  /** `estimated_gdp` as SQL orders it: NULL comes before every number. */
  predicate GdpLess(a: Option<real>, b: Option<real>) {
    (a.None? && b.Some?) || (a.Some? && b.Some? && a.value < b.value)
  }

  function GdpOrZero(c: CountryRow): real {
    if c.estimatedGdp.Some? then c.estimatedGdp.value else 0.0
  }

  /** `a` may be listed before `b` under ordering `o`. */
  predicate Before(o: Ordering, a: CountryRow, b: CountryRow) {
    match o
    case ByGdpDesc =>
      GdpLess(b.estimatedGdp, a.estimatedGdp) || (a.estimatedGdp == b.estimatedGdp && NameLe(a.name, b.name))
    case ByGdpAsc =>
      GdpLess(a.estimatedGdp, b.estimatedGdp) || (a.estimatedGdp == b.estimatedGdp && NameLe(a.name, b.name))
    case ByPopulationDesc =>
      b.population < a.population || (a.population == b.population && NameLe(a.name, b.name))
    case ByPopulationAsc =>
      a.population < b.population || (a.population == b.population && NameLe(a.name, b.name))
    case ByCreatedAt => a.createdAt <= b.createdAt
    case Unspecified => true
    case ByGdpOrZeroDesc => GdpOrZero(b) <= GdpOrZero(a)
  }

  lemma BeforeTotal(o: Ordering, a: CountryRow, b: CountryRow)
    ensures Before(o, a, b) || Before(o, b, a)
  {
    NameLeTotal(a.name, b.name);
  }

  lemma BeforeTransitive(o: Ordering, a: CountryRow, b: CountryRow, c: CountryRow)
    requires Before(o, a, b) && Before(o, b, c)
    ensures Before(o, a, c)
  {
    if NameLe(a.name, b.name) && NameLe(b.name, c.name) {
      NameLeTransitive(a.name, b.name, c.name);
    }
  }

  ghost predicate Sorted(o: Ordering, s: seq<CountryRow>) {
    forall i, j :: 0 <= i < j < |s| ==> Before(o, s[i], s[j])
  }

  // ---------------------------------------------------------------------------
  // Sorting (how the model realises ORDER BY)
  // ---------------------------------------------------------------------------

  function Insert(o: Ordering, x: CountryRow, s: seq<CountryRow>): (r: seq<CountryRow>)
    ensures multiset(r) == multiset(s) + multiset{x}
    decreases |s|
  {
    if s == [] then [x]
    else if Before(o, x, s[0]) then [x] + s
    else
      assert s == [s[0]] + s[1..];
      [s[0]] + Insert(o, x, s[1..])
  }

  lemma {:induction false} InsertSorted(o: Ordering, x: CountryRow, s: seq<CountryRow>)
    requires Sorted(o, s)
    ensures Sorted(o, Insert(o, x, s))
    decreases |s|
  {
    if s == [] {
    } else if Before(o, x, s[0]) {
      forall j | 0 < j < |s| ensures Before(o, x, s[j]) {
        BeforeTransitive(o, x, s[0], s[j]);
      }
    } else {
      BeforeTotal(o, x, s[0]);
      InsertSorted(o, x, s[1..]);
      var tail := Insert(o, x, s[1..]);
      forall j | 0 <= j < |tail| ensures Before(o, s[0], tail[j]) {
        assert tail[j] in multiset(tail);
        if tail[j] != x {
          assert tail[j] in multiset(s[1..]);
          var k :| 0 <= k < |s[1..]| && s[1..][k] == tail[j];
        }
      }
    }
  }

  function SortRows(o: Ordering, s: seq<CountryRow>): (r: seq<CountryRow>)
    ensures multiset(r) == multiset(s)
    decreases |s|
  {
    if s == [] then []
    else
      assert s == [s[0]] + s[1..];
      Insert(o, s[0], SortRows(o, s[1..]))
  }

  lemma {:induction false} SortRowsSorted(o: Ordering, s: seq<CountryRow>)
    ensures Sorted(o, SortRows(o, s))
    decreases |s|
  {
    if s != [] {
      SortRowsSorted(o, s[1..]);
      InsertSorted(o, s[0], SortRows(o, s[1..]));
    }
  }

  // ---------------------------------------------------------------------------
  // Sequences without repetitions
  // ---------------------------------------------------------------------------

  ghost predicate NoDup<T>(s: seq<T>) {
    forall i, j :: 0 <= i < j < |s| ==> s[i] != s[j]
  }

  lemma {:induction false} NoDupCountsOnce<T>(s: seq<T>, x: T)
    requires NoDup(s)
    ensures multiset(s)[x] <= 1
    decreases |s|
  {
    if s != [] {
      assert s == [s[0]] + s[1..];
      NoDupCountsOnce(s[1..], x);
      if s[0] == x {
        assert x !in s[1..];
      }
    }
  }

  /** A rearrangement of a sequence without repetitions has none either. */
  lemma NoDupPermutation<T>(a: seq<T>, b: seq<T>)
    requires multiset(a) == multiset(b) && NoDup(a)
    ensures NoDup(b)
  {
    forall i, j | 0 <= i < j < |b| ensures b[i] != b[j] {
      if b[i] == b[j] {
        assert b == b[..j] + b[j..];
        assert b[i] in b[..j] && b[i] in b[j..];
        assert multiset(b)[b[i]] == multiset(b[..j])[b[i]] + multiset(b[j..])[b[i]];
        NoDupCountsOnce(a, b[i]);
        assert false;
      }
    }
  }

  // ---------------------------------------------------------------------------
  // Scanning the table
  // ---------------------------------------------------------------------------

  ghost function SelectedKeys(t: Table, f: Filters): set<string> {
    set k | k in t && Selected(f, t[k])
  }

  /** The rows of `t` that pass `f`, each once, in whatever order the keys are visited. */
  method Scan(t: Table, f: Filters) returns (s: seq<CountryRow>)
    requires Keyed(t)
    ensures NoDup(s)
    ensures forall c :: c in s <==> c in t.Values && Selected(f, c)
    ensures |s| == |SelectedKeys(t, f)|
  {
    var rest := t.Keys;
    s := [];
    ghost var picked: set<string> := {};
    while rest != {}
      invariant rest <= t.Keys
      invariant NoDup(s)
      invariant picked == set k | k in t.Keys - rest && Selected(f, t[k])
      invariant |s| == |picked|
      invariant forall c :: c in s <==> c.nameNormalized in t.Keys - rest && c == t[c.nameNormalized] && Selected(f, c)
      decreases |rest|
    {
      var k :| k in rest;
      if Selected(f, t[k]) {
        assert t[k] !in s;
        s := s + [t[k]];
        assert (set k' | k' in t.Keys - (rest - {k}) && Selected(f, t[k'])) == picked + {k};
        picked := picked + {k};
      } else {
        assert (set k' | k' in t.Keys - (rest - {k}) && Selected(f, t[k'])) == picked;
      }
      rest := rest - {k};
    }
    assert picked == SelectedKeys(t, f);
  }

  // ---------------------------------------------------------------------------
  // Top five by COALESCE(estimated_gdp, 0)
  // ---------------------------------------------------------------------------

  /**
   * `top` is what `ORDER BY COALESCE(estimated_gdp, 0) DESC LIMIT 5` may return: five rows of
   * the table (all of them when there are fewer), none twice, in descending order, and no row
   * left out has a larger value than one taken.
   */
  ghost predicate IsTopFive(t: Table, top: seq<CountryRow>) {
    && |top| == (if |t| < 5 then |t| else 5)
    && NoDup(top)
    && (forall c :: c in top ==> c in t.Values)
    && Sorted(ByGdpOrZeroDesc, top)
    && (forall c, i :: c in t.Values && c !in top && 0 <= i < |top| ==> GdpOrZero(c) <= GdpOrZero(top[i]))
  }

  method TopFive(t: Table) returns (top: seq<CountryRow>)
    requires Keyed(t)
    ensures IsTopFive(t, top)
  {
    var all := Scan(t, NoFilters);
    assert SelectedKeys(t, NoFilters) == t.Keys;
    var sorted := SortRows(ByGdpOrZeroDesc, all);
    SortRowsSorted(ByGdpOrZeroDesc, all);
    NoDupPermutation(all, sorted);
    var n := if |sorted| < 5 then |sorted| else 5;
    top := sorted[..n];
    forall c ensures c in sorted <==> c in t.Values {
      assert c in sorted <==> c in multiset(sorted);
      assert c in all <==> c in multiset(all);
    }
    PrefixOfRankingIsTop(t, sorted, n);
  }

  /** The first `n` rows of a ranking of the whole table: rows of the table, none outranked by a row left out. */
  lemma PrefixOfRankingIsTop(t: Table, sorted: seq<CountryRow>, n: nat)
    requires forall c :: c in sorted <==> c in t.Values
    requires Sorted(ByGdpOrZeroDesc, sorted) && n <= |sorted|
    ensures forall c :: c in sorted[..n] ==> c in t.Values
    ensures forall c, i :: c in t.Values && c !in sorted[..n] && 0 <= i < n ==> GdpOrZero(c) <= GdpOrZero(sorted[i])
  {
    forall c, i | c in t.Values && c !in sorted[..n] && 0 <= i < n
      ensures GdpOrZero(c) <= GdpOrZero(sorted[i])
    {
      assert forall k :: 0 <= k < n ==> sorted[..n][k] == sorted[k];
      var j :| n <= j < |sorted| && sorted[j] == c;
      assert Before(ByGdpOrZeroDesc, sorted[i], sorted[j]);
    }
  }
}
