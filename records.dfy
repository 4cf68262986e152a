/**
 * One raw country entry from the countries source and the table row derived from it
 * (app/Services/CountryService.php, the body of the entry loop in `refreshAll`).
 */
module Records {
  import opened Wrappers
  import opened Text

  /** The `currencies` member of a raw entry, as decoded from JSON. */
  datatype CurrencyField =
    | Absent                              // missing or null: `?? []` turns it into an empty list
    | Listed(codes: seq<Option<string>>)  // a JSON array: the `code` member of each entry, if any
    | Scalar(blank: bool)                 // any other JSON value; `blank` when PHP's `empty` holds of it

  datatype RawCountry = RawCountry(
    name: Option<string>,
    capital: Option<string>,
    region: Option<string>,
    population: Option<int>,
    flag: Option<string>,
    currencies: CurrencyField)

  /** Local currency units per US dollar, keyed by currency code. */
  type Rates = map<string, real>

  /** One row of the `countries` table; `nameNormalized` is its unique key. */
  datatype CountryRow = CountryRow(
    nameNormalized: string,
    name: string,
    capital: Option<string>,
    region: Option<string>,
    population: int,
    currencyCode: Option<string>,
    exchangeRate: Option<real>,
    estimatedGdp: Option<real>,
    flagUrl: Option<string>,
    lastRefreshedAt: int,
    updatedAt: int,
    createdAt: int)

  /** What the loop body makes of one entry: nothing, a row, or PHP's DivisionByZeroError. */
  datatype Derived = Skip | Row(row: CountryRow) | DivisionByZero

  /** The key derived from a display name: `Str::slug(mb_strtolower($name))`. */
  function NameKey(name: string): (r: string)
    ensures IsSlug(r)
  {
    Slug(Lower(name))
  }

  /** An entry is kept when it has a non-empty name and a population. */
  predicate Accepted(raw: RawCountry) {
    !IsBlank(raw.name) && raw.population.Some?
  }

  /** The key an accepted entry's row is stored under. */
  function EntryKey(raw: RawCountry): string
    requires Accepted(raw)
  {
    NameKey(Trim(raw.name.value))
  }

  /** `empty($currencies)` once a missing member has become `[]`. */
  predicate NoCurrencies(f: CurrencyField) {
    f.Absent? || (f.Listed? && f.codes == []) || (f.Scalar? && f.blank)
  }

  /** The code of the first currency, when the member is a non-empty list. */
  function FirstCode(f: CurrencyField): Option<string> {
    if f.Listed? && f.codes != [] then f.codes[0] else None
  }

  /** The first code is truthy and is a key of the rates map (PHP's `isset`). */
  predicate Priced(f: CurrencyField, rates: Rates) {
    FirstCode(f).Some? && !IsBlank(FirstCode(f)) && FirstCode(f).value in rates
  }

  function RateOf(f: CurrencyField, rates: Rates): real
    requires Priced(f, rates)
  {
    rates[FirstCode(f).value]
  }

  /** The key of a query ignores the blanks around it and the case of its letters. */
  lemma NameKeyOfQuery(q: string)
    ensures NameKey(Trim(q)) == NameKey(q) == Slug(q)
  {
    SlugIgnoresCase(Trim(q));
    SlugIgnoresTrim(q);
    SlugIgnoresCase(q);
  }

  /** Queries that differ only in letter case and surrounding blanks look up the same key. */
  lemma CaseVariantsShareKey(a: string, b: string)
    requires Trim(Lower(a)) == Trim(Lower(b))
    ensures NameKey(Trim(a)) == NameKey(Trim(b))
  {
    NameKeyOfQuery(a);
    NameKeyOfQuery(b);
    SlugIgnoresCase(a);
    SlugIgnoresCase(b);
    SlugIgnoresTrim(Lower(a));
    SlugIgnoresTrim(Lower(b));
  }

  /** A stored key, used as a query, derives itself again. */
  lemma NameKeyIdempotent(name: string)
    ensures NameKey(NameKey(name)) == NameKey(name)
  {
    SlugIgnoresCase(Slug(Lower(name)));
    SlugIdempotent(Lower(name));
  }

  /**
   * Derives the row for one entry, with `m` the value `rand(1000, 2000)` returned and `now`
   * the refresh cycle's timestamp. The estimated GDP has three distinguishable states:
   * exactly 0 when there is no currency at all, absent when the first code has no rate,
   * and the value that times the rate gives population * m when it has one.
   */
  function Derive(raw: RawCountry, rates: Rates, m: int, now: int): (d: Derived)
    requires 1000 <= m <= 2000
    ensures d.Skip? <==> !Accepted(raw)
    ensures d.DivisionByZero? <==>
              Accepted(raw) && Priced(raw.currencies, rates) && RateOf(raw.currencies, rates) == 0.0
    ensures d.Row? ==>
              && d.row.name == Trim(raw.name.value)
              && d.row.nameNormalized == NameKey(d.row.name)
              && d.row.population == raw.population.value
              && d.row.capital == raw.capital && d.row.region == raw.region && d.row.flagUrl == raw.flag
              && d.row.lastRefreshedAt == now && d.row.updatedAt == now && d.row.createdAt == now
    ensures d.Row? && NoCurrencies(raw.currencies) ==>
              d.row.currencyCode.None? && d.row.exchangeRate.None? && d.row.estimatedGdp == Some(0.0)
    ensures d.Row? && !NoCurrencies(raw.currencies) && !Priced(raw.currencies, rates) ==>
              d.row.currencyCode == FirstCode(raw.currencies)
              && d.row.exchangeRate.None? && d.row.estimatedGdp.None?
    ensures d.Row? && Priced(raw.currencies, rates) ==>
              && d.row.currencyCode == FirstCode(raw.currencies)
              && d.row.exchangeRate == Some(RateOf(raw.currencies, rates))
              && d.row.estimatedGdp.Some?
              && d.row.estimatedGdp.value * d.row.exchangeRate.value == (d.row.population * m) as real
  {
    if IsBlank(raw.name) || raw.population.None? then Skip
    else
      var name := Trim(raw.name.value);
      var population := raw.population.value;
      var code := FirstCode(raw.currencies);
      var priced := Priced(raw.currencies, rates);
      if priced && RateOf(raw.currencies, rates) == 0.0 then DivisionByZero
      else
        var rate := if priced then Some(RateOf(raw.currencies, rates)) else None;
        var gdp :=
          if NoCurrencies(raw.currencies) then Some(0.0)
          else if priced then Some((population * m) as real / rate.value)
          else None;
        Row(CountryRow(
          NameKey(name), name, raw.capital, raw.region, population,
          code, rate, gdp, raw.flag, now, now, now))
  }

  /**
   * For a positive rate and a non-negative population the estimate lies between
   * population * 1000 / rate and population * 2000 / rate.
   */
  lemma GdpWithinMultiplierRange(raw: RawCountry, rates: Rates, m: int, now: int)
    requires 1000 <= m <= 2000
    requires Accepted(raw) && raw.population.value >= 0
    requires Priced(raw.currencies, rates) && RateOf(raw.currencies, rates) > 0.0
    ensures var d := Derive(raw, rates, m, now);
            && d.Row? && d.row.estimatedGdp.Some?
            && (raw.population.value * 1000) as real / RateOf(raw.currencies, rates)
               <= d.row.estimatedGdp.value
               <= (raw.population.value * 2000) as real / RateOf(raw.currencies, rates)
  {
    var p, r := raw.population.value, RateOf(raw.currencies, rates);
    assert Derive(raw, rates, m, now).row.estimatedGdp == Some((p * m) as real / r);
    MultiplierBounds(p, m, r);
  }

  lemma MultiplierBounds(p: int, m: int, r: real)
    requires 1000 <= m <= 2000 && p >= 0 && r > 0.0
    ensures (p * 1000) as real / r <= (p * m) as real / r <= (p * 2000) as real / r
  {
    var lo, mid, hi := p * 1000, p * m, p * 2000;
    ScaleBetween(p, m);
    DivideMonotone(lo as real, mid as real, r);
    DivideMonotone(mid as real, hi as real, r);
  }

  lemma ScaleBetween(p: int, m: int)
    requires 1000 <= m <= 2000 && p >= 0
    ensures p * 1000 <= p * m <= p * 2000
  {
    assert p * m - p * 1000 == p * (m - 1000);
    assert p * 2000 - p * m == p * (2000 - m);
  }

  lemma DivideMonotone(x: real, y: real, r: real)
    requires x <= y && r > 0.0
    ensures x / r <= y / r
  {
    assert y / r - x / r == (y - x) / r;
  }
}
