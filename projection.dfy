/** The list the map page displays: the loaded properties, filtered by
    the search box and the price range, then ordered by the selected
    sort key (app/map/page.tsx, `filteredAndSortedProperties`), and the
    updaters the two price inputs apply to the range. */
module Projection {
  import opened Wrappers
  import opened PropertyData
  import opened ArrayOps
  import opened Strings

  /** The three choices of the sort selector. */
  datatype SortKey = PriceAsc | PriceDesc | Title

  /** The inclusive price range; an absent upper bound is `Infinity`. */
  datatype PriceRange = PriceRange(min: int, max: Option<int>)

  /** The range the page starts with: from 0, without upper bound. */
  const InitialRange: PriceRange := PriceRange(0, None)

  /** The sort the page starts with. */
  const InitialSort: SortKey := PriceAsc

  // ---------------------------------------------------------------
  // The filter
  // ---------------------------------------------------------------

  /** The title test: the lower-cased title includes the lower-cased
      search term. */
  predicate MatchesSearch(title: string, term: string)
  {
    Contains(Lower(title), Lower(term))
  }

  /** The price test: `min <= price <= max`. */
  predicate InRange(price: int, range: PriceRange)
  {
    range.min <= price && (range.max.None? || price <= range.max.value)
  }

  /** The callback handed to `filter`. */
  function Matches(term: string, range: PriceRange): Property -> bool
  {
    (p: Property) => MatchesSearch(p.title, term) && InRange(p.price, range)
  }

  /** The search ignores the case of the title and of the term. */
  lemma SearchIgnoresCase(title: string, term: string)
    ensures MatchesSearch(title, term) == MatchesSearch(Lower(title), term)
    ensures MatchesSearch(title, term) == MatchesSearch(title, Lower(term))
  {
    LowerIdempotent(title);
    LowerIdempotent(term);
  }

  /** In the initial state (empty search, range from 0 without upper
      bound) a record passes exactly when its price is not negative. */
  lemma InitialFilterPassesNonNegative(p: Property)
    ensures Matches("", InitialRange)(p) <==> p.price >= 0
  {
    ContainsEmpty(Lower(p.title));
  }

  // ---------------------------------------------------------------
  // The comparator
  // ---------------------------------------------------------------

  /** The comparator's result for `sortBy`: `a.price - b.price`,
      `b.price - a.price` or `a.title.localeCompare(b.title)`. */
  function Compare(key: SortKey, a: Property, b: Property): int
  {
    match key
    case PriceAsc => a.price - b.price
    case PriceDesc => b.price - a.price
    case Title => LexCompare(a.title, b.title)
  }

  /** The comparator handed to `sort`. */
  function Comparator(key: SortKey): (Property, Property) -> int
  {
    (a: Property, b: Property) => Compare(key, a, b)
  }

  /** Each of the three comparators is consistent, so `sort` is defined. */
  lemma ComparatorConsistent(key: SortKey)
    ensures ConsistentComparator(Comparator(key))
  {
    var cmp := Comparator(key);
    forall a, b ensures cmp(a, b) <= 0 || cmp(b, a) <= 0 {
      if key == Title { LexCompareFlip(a.title, b.title); }
    }
    forall a, b | cmp(a, b) == 0 ensures cmp(b, a) == 0 {
      if key == Title { LexCompareFlip(a.title, b.title); }
    }
    forall a, b, c | cmp(a, b) <= 0 && cmp(b, c) <= 0 ensures cmp(a, c) <= 0 {
      if key == Title { LexCompareTransitive(a.title, b.title, c.title); }
    }
  }

  // ---------------------------------------------------------------
  // The projection
  // ---------------------------------------------------------------

  /** `properties.filter(...).sort(...)`. */
  function Project(properties: seq<Property>, term: string, range: PriceRange, key: SortKey): (r: seq<Property>)
    ensures Sorted(r, Comparator(key))
    ensures multiset(r) == multiset(Filter(properties, Matches(term, range)))
  {
    ComparatorConsistent(key);
    Sort(Filter(properties, Matches(term, range)), Comparator(key))
  }

  /** A record is displayed exactly when it is loaded and passes both
      the title test and the price test. */
  lemma ProjectMembership(properties: seq<Property>, term: string, range: PriceRange, key: SortKey, p: Property)
    ensures p in Project(properties, term, range, key) <==>
      p in properties && MatchesSearch(p.title, term) && InRange(p.price, range)
  {
    var r := Project(properties, term, range, key);
    FilterMembership(properties, Matches(term, range), p);
    assert p in r <==> p in multiset(r);
  }

  /** The displayed list is a permutation of the passing sub-multiset:
      every copy of a passing record is shown, no copy of another. */
  lemma ProjectMultiset(properties: seq<Property>, term: string, range: PriceRange, key: SortKey, p: Property)
    ensures multiset(Project(properties, term, range, key))[p] ==
      if MatchesSearch(p.title, term) && InRange(p.price, range) then multiset(properties)[p] else 0
    ensures multiset(Project(properties, term, range, key)) <= multiset(properties)
  {
    FilterMultiset(properties, Matches(term, range), p);
  }

  /** The order the selector promises: ascending or descending price,
      or ascending title. */
  lemma ProjectOrder(properties: seq<Property>, term: string, range: PriceRange, key: SortKey)
    ensures var r := Project(properties, term, range, key);
      key == PriceAsc ==> forall i, j :: 0 <= i < j < |r| ==> r[i].price <= r[j].price
    ensures var r := Project(properties, term, range, key);
      key == PriceDesc ==> forall i, j :: 0 <= i < j < |r| ==> r[i].price >= r[j].price
    ensures var r := Project(properties, term, range, key);
      key == Title ==> forall i, j :: 0 <= i < j < |r| ==> LexCompare(r[i].title, r[j].title) <= 0
  {
    var r := Project(properties, term, range, key);
    forall i, j | 0 <= i < j < |r| ensures Compare(key, r[i], r[j]) <= 0 {
      assert Comparator(key)(r[i], r[j]) <= 0;
    }
  }

  /** Records that tie under the sort key keep the order they have in
      the loaded list. */
  lemma ProjectStable(properties: seq<Property>, term: string, range: PriceRange, key: SortKey, x: Property)
    ensures Filter(Project(properties, term, range, key), EquivalentTo(Comparator(key), x)) ==
      Filter(Filter(properties, Matches(term, range)), EquivalentTo(Comparator(key), x))
  {
    ComparatorConsistent(key);
    SortStable(Filter(properties, Matches(term, range)), Comparator(key), x);
  }

  /** Projecting the projection again changes nothing. */
  lemma ProjectIdempotent(properties: seq<Property>, term: string, range: PriceRange, key: SortKey)
    ensures Project(Project(properties, term, range, key), term, range, key) == Project(properties, term, range, key)
  {
    var f := Matches(term, range);
    var r := Project(properties, term, range, key);
    forall k | 0 <= k < |r| ensures f(r[k]) {
      assert r[k] in multiset(r);
      FilterMembership(properties, f, r[k]);
    }
    FilterIdentity(r, f);
    ComparatorConsistent(key);
    SortOfSorted(r, Comparator(key));
  }

  /** With the initial filter, a list of non-negative prices is shown
      in full, only reordered. */
  lemma InitialProjectionShowsAll(properties: seq<Property>, key: SortKey)
    requires forall k :: 0 <= k < |properties| ==> properties[k].price >= 0
    ensures multiset(Project(properties, "", InitialRange, key)) == multiset(properties)
  {
    forall k | 0 <= k < |properties| ensures Matches("", InitialRange)(properties[k]) {
      InitialFilterPassesNonNegative(properties[k]);
    }
    FilterIdentity(properties, Matches("", InitialRange));
  }

  // ---------------------------------------------------------------
  // The price inputs
  // ---------------------------------------------------------------

  /** What `Number(e.target.value)` gives for a number input: a blank
      field reads as 0, anything else as the number typed. */
  datatype PriceInput = Blank | Typed(value: int)

  function NumberOf(input: PriceInput): int
  {
    match input
    case Blank => 0
    case Typed(v) => v
  }

  /** The updater of the min input: `{ ...prev, min: Number(v) || 0 }`. */
  function WithMin(prev: PriceRange, input: PriceInput): (next: PriceRange)
    ensures next.max == prev.max
    ensures input.Blank? ==> next.min == 0
    ensures input.Typed? ==> next.min == input.value
  {
    var n := NumberOf(input);
    prev.(min := if n != 0 then n else 0)
  }

  /** The updater of the max input: `{ ...prev, max: Number(v) || Infinity }`;
      a blank field and a typed 0 both lift the upper bound. */
  function WithMax(prev: PriceRange, input: PriceInput): (next: PriceRange)
    ensures next.min == prev.min
    ensures next.max.None? <==> input.Blank? || input.value == 0
    ensures next.max.Some? ==> input.Typed? && next.max.value == input.value
  {
    var n := NumberOf(input);
    prev.(max := if n != 0 then Some(n) else None)
  }

  /** Clearing the max input (or typing 0 into it) removes the upper
      bound: every price at or above the minimum is in range again. */
  lemma ClearedMaxAdmitsAboveMin(prev: PriceRange, input: PriceInput, price: int)
    requires input.Blank? || input.value == 0
    ensures InRange(price, WithMax(prev, input)) <==> prev.min <= price
  {
  }
}
