/**
 * The currency catalog and the two pure queries the converter runs over it:
 * the search filter behind the list of currencies, and the lookup of the
 * selected currency's rate.
 */
module Catalog {
  import opened Text

  datatype Option<+T> = None | Some(value: T)

  /** One entry of the bundled currency data: a display name and its rate. */
  datatype CurrencyRecord = CurrencyRecord(name: string, rate: real)

  /** The filter's test: the lower-cased name includes the lower-cased search text. */
  predicate Matches(currency: CurrencyRecord, search: string)
    ensures Matches(currency, search) <==> exists i :: OccursIgnoringCase(currency.name, search, i)
  {
    IncludesIgnoringCase(currency.name, search);
    Includes(Lower(currency.name), Lower(search))
  }

  /** The filter does not see the case of the letters in the search text or in the name. */
  lemma MatchesIgnoresCase(currency: CurrencyRecord, search: string, name: string, other: string)
    requires SameIgnoringCase(currency.name, name) && SameIgnoringCase(search, other)
    ensures Matches(currency, search) <==> Matches(CurrencyRecord(name, currency.rate), other)
  {
    LowerIgnoresCase(currency.name, name);
    LowerIgnoresCase(search, other);
  }

  /** Lower-casing the search text first changes nothing: the search ignores its case. */
  lemma MatchesLoweredSearch(currency: CurrencyRecord, search: string)
    ensures Matches(currency, search) <==> Matches(currency, Lower(search))
  {
    LowerIdempotent(search);
  }

  /** `list.filter(...)` with the `Matches` test: the matching entries, in order. */
  function Filter(list: seq<CurrencyRecord>, search: string): (r: seq<CurrencyRecord>)
    ensures |r| <= |list|
    ensures forall x :: x in r <==> x in list && Matches(x, search)
  {
    if list == [] then []
    else if Matches(list[0], search) then [list[0]] + Filter(list[1..], search)
    else Filter(list[1..], search)
  }

  /** The filter keeps every copy of a matching entry and no copy of any other. */
  lemma {:induction false} FilterCounts(list: seq<CurrencyRecord>, search: string)
    ensures forall x :: multiset(Filter(list, search))[x] == if Matches(x, search) then multiset(list)[x] else 0
    decreases |list|
  {
    if list != [] {
      FilterCounts(list[1..], search);
      assert list == [list[0]] + list[1..];
      assert multiset(list) == multiset{list[0]} + multiset(list[1..]);
    }
  }

  /**
   * What the list of currencies shows for a given search text: the whole
   * catalog while the trimmed text is empty, otherwise the entries the filter
   * keeps, tested against the untrimmed text.
   */
  function FilteredCurrencies(catalog: seq<CurrencyRecord>, search: string): (r: seq<CurrencyRecord>)
    ensures IsBlank(search) ==> r == catalog
    ensures !IsBlank(search) ==> forall x :: x in r <==> x in catalog && Matches(x, search)
    ensures !IsBlank(search) ==> forall x :: multiset(r)[x] == if Matches(x, search) then multiset(catalog)[x] else 0
    ensures IsSubsequence(r, catalog)
  {
    if |Trim(search)| > 0 then
      FilterIsSubsequence(catalog, search);
      FilterCounts(catalog, search);
      Filter(catalog, search)
    else
      SubsequenceReflexive(catalog);
      catalog
  }

  /** `r` is `s` with some entries removed and the rest kept in their order. */
  ghost predicate IsSubsequence<T>(r: seq<T>, s: seq<T>)
    decreases |s|
  {
    if r == [] then true
    else if s == [] then false
    else (r[0] == s[0] && IsSubsequence(r[1..], s[1..])) || IsSubsequence(r, s[1..])
  }

  lemma {:induction false} SubsequenceReflexive<T>(s: seq<T>)
    ensures IsSubsequence(s, s)
    decreases |s|
  {
    if s != [] {
      SubsequenceReflexive(s[1..]);
    }
  }

  /** A subsequence is never longer than the sequence it is taken from. */
  lemma {:induction false} SubsequenceLength<T>(r: seq<T>, s: seq<T>)
    requires IsSubsequence(r, s)
    ensures |r| <= |s|
    decreases |s|
  {
    if r != [] {
      if r[0] == s[0] && IsSubsequence(r[1..], s[1..]) {
        SubsequenceLength(r[1..], s[1..]);
      } else {
        SubsequenceLength(r, s[1..]);
      }
    }
  }

  /** The filter removes entries but never reorders the ones it keeps. */
  lemma {:induction false} FilterIsSubsequence(list: seq<CurrencyRecord>, search: string)
    ensures IsSubsequence(Filter(list, search), list)
    decreases |list|
  {
    if list != [] {
      FilterIsSubsequence(list[1..], search);
      var r := Filter(list, search);
      if Matches(list[0], search) {
        assert r[1..] == Filter(list[1..], search);
      }
    }
  }

  /** Filtering a concatenation filters each part: the filter decides entry by entry. */
  lemma {:induction false} FilterAppend(a: seq<CurrencyRecord>, b: seq<CurrencyRecord>, search: string)
    ensures Filter(a + b, search) == Filter(a, search) + Filter(b, search)
    decreases |a|
  {
    if a != [] {
      assert (a + b)[0] == a[0] && (a + b)[1..] == a[1..] + b;
      FilterAppend(a[1..], b, search);
      if Matches(a[0], search) {
        assert [a[0]] + (Filter(a[1..], search) + Filter(b, search))
            == ([a[0]] + Filter(a[1..], search)) + Filter(b, search);
      }
    } else {
      assert a + b == b;
    }
  }

  /** A list whose every entry matches passes through the filter unchanged. */
  lemma {:induction false} FilterKeepsAll(list: seq<CurrencyRecord>, search: string)
    requires forall x :: x in list ==> Matches(x, search)
    ensures Filter(list, search) == list
    decreases |list|
  {
    if list != [] {
      assert list[0] in list;
      FilterKeepsAll(list[1..], search);
    }
  }

  /** The empty search text is included in every name, so it keeps the whole list. */
  lemma EmptySearchKeepsAll(list: seq<CurrencyRecord>)
    ensures Filter(list, "") == list
  {
    forall x | x in list ensures Matches(x, "") {
      EmptyIncluded(Lower(x.name));
    }
    FilterKeepsAll(list, "");
  }

  /** Filtering the filtered list again with the same text changes nothing. */
  lemma FilterIdempotent(list: seq<CurrencyRecord>, search: string)
    ensures Filter(Filter(list, search), search) == Filter(list, search)
  {
    FilterKeepsAll(Filter(list, search), search);
  }

  /** The list shown is stable: feeding it back through the same search gives it again. */
  lemma FilteredCurrenciesIdempotent(catalog: seq<CurrencyRecord>, search: string)
    ensures FilteredCurrencies(FilteredCurrencies(catalog, search), search)
         == FilteredCurrencies(catalog, search)
  {
    FilterIdempotent(catalog, search);
  }

  /** The list shown is never longer than the catalog. */
  lemma FilteredCurrenciesLength(catalog: seq<CurrencyRecord>, search: string)
    ensures |FilteredCurrencies(catalog, search)| <= |catalog|
  {
    SubsequenceLength(FilteredCurrencies(catalog, search), catalog);
  }

  /** Some entry of the catalog carries the name `name`. */
  ghost predicate HasName(catalog: seq<CurrencyRecord>, name: string)
  {
    exists i :: 0 <= i < |catalog| && catalog[i].name == name
  }

  /** Position `i` holds the first entry named `name`. */
  ghost predicate IsFirstWithName(catalog: seq<CurrencyRecord>, name: string, i: int)
  {
    && 0 <= i < |catalog|
    && catalog[i].name == name
    && forall j :: 0 <= j < i ==> catalog[j].name != name
  }

  /** No two entries share a name, as the bundled data is laid out. */
  ghost predicate UniqueNames(catalog: seq<CurrencyRecord>)
  {
    forall i, j :: 0 <= i < |catalog| && 0 <= j < |catalog| && catalog[i].name == catalog[j].name ==> i == j
  }

  /** `catalog.find((data) => data.name === name)`: the first entry with that name, if any. */
  function Find(catalog: seq<CurrencyRecord>, name: string): (r: Option<CurrencyRecord>)
    ensures r.None? <==> !HasName(catalog, name)
    ensures r.Some? ==> exists i :: IsFirstWithName(catalog, name, i) && catalog[i] == r.value
  {
    if catalog == [] then None
    else if catalog[0].name == name then
      assert IsFirstWithName(catalog, name, 0);
      Some(catalog[0])
    else
      var r := Find(catalog[1..], name);
      assert r.Some? ==> exists i :: IsFirstWithName(catalog, name, i) && catalog[i] == r.value by {
        if r.Some? {
          var i :| IsFirstWithName(catalog[1..], name, i) && catalog[1..][i] == r.value;
          assert IsFirstWithName(catalog, name, i + 1);
        }
      }
      r
  }

  /** With unique names, the lookup returns the one entry that carries the name. */
  lemma FindUnique(catalog: seq<CurrencyRecord>, record: CurrencyRecord)
    requires UniqueNames(catalog) && record in catalog
    ensures Find(catalog, record.name) == Some(record)
  {
    var k :| 0 <= k < |catalog| && catalog[k] == record;
    var i :| IsFirstWithName(catalog, record.name, i) && catalog[i] == Find(catalog, record.name).value;
  }

  /** Every entry the list can show resolves in the catalog, so clicking it selects a known currency. */
  lemma ShownEntriesResolve(catalog: seq<CurrencyRecord>, search: string, shown: CurrencyRecord)
    requires shown in FilteredCurrencies(catalog, search)
    ensures Find(catalog, shown.name).Some?
  {
    var k :| 0 <= k < |catalog| && catalog[k] == shown;
  }

  /** A two-entry catalog used by the examples. */
  function SampleCatalog(): seq<CurrencyRecord>
  {
    [CurrencyRecord("United States Dollar", 1.1), CurrencyRecord("Japanese Yen", 130.0)]
  }

  /** Searching "yen" leaves only the Japanese Yen. */
  lemma SearchYen()
    ensures FilteredCurrencies(SampleCatalog(), "yen") == [CurrencyRecord("Japanese Yen", 130.0)]
  {
    assert !IsWhitespace("yen"[0]);
    assert !IsBlank("yen");
    FilterYen();
  }

  /** The filter itself, on the sample catalog with the search "yen". */
  lemma FilterYen()
    ensures Filter(SampleCatalog(), "yen") == [CurrencyRecord("Japanese Yen", 130.0)]
  {
    var usd, jpy := SampleCatalog()[0], SampleCatalog()[1];
    assert Lower("yen") == "yen";
    assert Lower("Japanese Yen") == "japanese yen";
    assert OccursAt("japanese yen", "yen", 9);
    assert Matches(jpy, "yen");
    DollarHasNoY();
    FirstCharAbsent(Lower(usd.name), "yen");
    assert !Matches(usd, "yen");
  }

  lemma DollarHasNoY()
    ensures 'y' !in Lower("United States Dollar")
  {
    var name := "United States Dollar";
    assert 'y' !in name && 'Y' !in name;
    forall i | 0 <= i < |name| ensures Lower(name)[i] != 'y' {
      assert name[i] != 'y' && name[i] != 'Y';
    }
  }
}
