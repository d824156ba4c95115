# Property map listing view — a Dafny model

The application lists a signed-in user's real-estate properties on a map.
Its one piece of behaviour that can be stated lives in the `MapPage`
component (`app/map/page.tsx`), and this project models that component.
It has two parts:

* **The projection.** The page shows `filteredAndSortedProperties`. It
  keeps each loaded record whose lower-cased title includes the
  lower-cased search term and whose price lies in the inclusive range
  `[min, max]`. It then orders the kept records by price ascending, by
  price descending, or by title. The two price inputs update the range:
  a blank or zero minimum becomes 0, and a blank or zero maximum becomes
  `Infinity` (no upper bound).
* **The list reconciliation.** The page holds the loaded `properties`
  and the flags `isLoading`, `isAdding` and `isDeleting`. Four handlers
  call the property service and change the list once the call resolves:
  - list replaces the whole list;
  - create appends the record the server returned;
  - update replaces every entry with the given id by the returned record;
  - delete removes every entry with the given id.
  A rejected call leaves the list as it was. Each flag is cleared in a
  `finally` block.

Files:

| file | module | what it holds |
|---|---|---|
| `wrappers.dfy` | `Wrappers` | `Option` (the upper bound) and `Outcome` (a service call's resolution or rejection) |
| `property_data.dfy` | `PropertyData` | the `Property` record |
| `array_ops.dfy` | `ArrayOps` | `filter`, `map` and a stable comparator-driven `sort`, as ECMAScript defines them |
| `strings.dfy` | `Strings` | `toLowerCase`, `includes` and a stand-in for `localeCompare` |
| `projection.dfy` | `Projection` | the filter test, the comparator, the projection, the price-input updaters |
| `page.dfy` | `Page` | the list updates and the class `MapPage`, holding the page's state and its handlers |

The projection is pure, so it is written as functions, with lemmas
about them. The state and the handlers form the class `MapPage`. Its
fields are the component's `useState` variables. Each handler is a
method whose `modifies` clause names only the fields the handler sets,
so every other field is unchanged. Each handler runs as one atomic step.
The awaited service call becomes an `Outcome` parameter: either
`Success(value)` or `Failure`.

Modelling choices:

* `Property` has `id`, `title`, `description`, `price` and `imageUrl`
  (`module/map/entity/PropertyData.ts:1-9`). Prices are integers,
  because the code only compares and subtracts them.
* The filter writes `prop.title?.toLowerCase() || ''` and
  `prop.price || 0`. For a record that has both fields, these are the
  lower-cased title and the price itself (`0 || 0` is `0`). The model's
  records always have both fields.
* `toLowerCase` folds the ASCII letters `A`-`Z` only. `localeCompare` is
  plain lexicographic order on characters.
* The comparator `a.price - b.price` (or `b.price - a.price`, or
  `localeCompare`) is modelled by its result. `ArrayOps.Sort` requires
  the comparator to be consistent: any two elements order one way or the
  other, "equal" is symmetric, and "not after" is transitive. A
  consistent comparator in ECMAScript must meet at least these three
  conditions (it must also be reflexive and antisymmetric in sign); for
  a comparator that is not consistent, the order `sort` produces is
  implementation-defined. `Projection.ComparatorConsistent` proves the
  three conditions for all three sort keys.
* `sort` is stable, as ECMAScript 2019 and later require. Before
  ECMAScript 2019 the order of elements a comparator calls equal was
  implementation-defined. The model proves the order stable
  (`ArrayOps.SortStable`).
* A price input's `Number(e.target.value)` is given as a `PriceInput`.
  `Blank` reads as 0 and `Typed(n)` reads as the integer typed. The
  updaters then apply the code's `|| 0` and `|| Infinity`. As a result,
  typing 0 into the max field removes the upper bound, just like
  clearing it. The model keeps this behaviour as written.

## Model

| member | source | states |
|---|---|---|
| `ArrayOps.Filter` | app/map/page.tsx:113-118 | the kept list is no longer than the input and every kept element passes the test |
| `ArrayOps.FilterMembership` | app/map/page.tsx:113-118 | an element is kept iff it occurs in the input and passes the test |
| `ArrayOps.FilterMultiset` | app/map/page.tsx:113-118 | the kept elements are exactly the passing sub-multiset: every copy of a passing element, no copy of a failing one |
| `ArrayOps.FilterIsSubsequence` | app/map/page.tsx:103 | filtering keeps the relative order of the retained elements |
| `ArrayOps.FilterIdentity` | app/map/page.tsx:113-118 | filtering returns its input unchanged iff every element passes |
| `ArrayOps.FilterIdempotent` | app/map/page.tsx:113-118 | filtering a filtered list with the same test changes nothing |
| `ArrayOps.FilterConcat` | app/map/page.tsx:103 | filtering a concatenation filters each part separately |
| `ArrayOps.Map` | app/map/page.tsx:91-93 | `map` keeps the length and applies the callback at every position |
| `ArrayOps.Sort` | app/map/page.tsx:119-130 | for a consistent comparator, the result is sorted by it and is a permutation of the input |
| `ArrayOps.SortStable` | app/map/page.tsx:119-130 | elements the comparator ranks equal keep their input order |
| `ArrayOps.SortOfSorted` | app/map/page.tsx:119-130 | sorting an already sorted list gives back the same list |
| `Strings.LowerChar` | app/map/page.tsx:115 | folds `A`-`Z` to lower case (+32), leaves every other character, and returns no upper-case letter |
| `Strings.LowerShape` | app/map/page.tsx:115 | lower-casing keeps the length, folds each character and leaves no upper-case letter |
| `Strings.LowerIdempotent` | app/map/page.tsx:115 | lower-casing twice equals lower-casing once |
| `Strings.ContainsIff` | app/map/page.tsx:115 | `includes` holds iff the term occurs at some index of the string |
| `Strings.ContainsEmpty` | app/map/page.tsx:115 | every title includes the empty search term |
| `Strings.LexCompare` | app/map/page.tsx:126 | the title comparison returns -1, 0 or 1 |
| `Strings.LexCompareFlip` | app/map/page.tsx:126 | swapping the titles flips the sign of the comparison |
| `Strings.LexCompareZero` | app/map/page.tsx:126 | two titles compare as equal iff they are the same string |
| `Strings.LexCompareTransitive` | app/map/page.tsx:126 | "title not after" is transitive |
| `Strings.LexCompareBefore` | app/map/page.tsx:126 | a title sorts before another iff it is a proper prefix of it or has the smaller character at the first difference |
| `Projection.SearchIgnoresCase` | app/map/page.tsx:115 | whether a record matches does not change if the title or the term is lower-cased first |
| `Projection.InitialFilterPassesNonNegative` | app/map/page.tsx:115-117 | with the initial filter (empty term, range from 0 without upper bound, lines 32-33), a record passes iff its price is non-negative |
| `Projection.ComparatorConsistent` | app/map/page.tsx:119-127 | each of the three comparators is consistent, so the sort is well defined |
| `Projection.Project` | app/map/page.tsx:113-130 | the displayed list is sorted by the selected comparator and is a permutation of the filtered list |
| `Projection.ProjectMembership` | app/map/page.tsx:113-118 | a record is displayed iff it is loaded, its lower-cased title includes the lower-cased term, and `min <= price <= max` (with no upper bound when max is unset) |
| `Projection.ProjectMultiset` | app/map/page.tsx:113-130 | each passing record is displayed as often as it is loaded and a failing one never; the display is a sub-multiset of the loaded list |
| `Projection.ProjectOrder` | app/map/page.tsx:119-127 | `price-asc` gives non-decreasing prices, `price-desc` non-increasing prices, `title` non-decreasing titles |
| `Projection.ProjectStable` | app/map/page.tsx:119-130 | records that tie under the sort key are shown in their loaded order |
| `Projection.ProjectIdempotent` | app/map/page.tsx:113-130 | projecting the displayed list again with the same settings gives the same list |
| `Projection.InitialProjectionShowsAll` | app/map/page.tsx:113-118 | with the initial filter, a list of non-negative prices is displayed in full, only reordered |
| `Projection.WithMin` | app/map/page.tsx:164 | a blank min input gives min 0, a typed value gives that value (so a typed 0 gives 0); max is unchanged |
| `Projection.WithMax` | app/map/page.tsx:171 | the upper bound is lifted iff the max input is blank or 0, and otherwise is the typed value; min is unchanged |
| `Projection.ClearedMaxAdmitsAboveMin` | app/map/page.tsx:171 | after a blank or zero max input, a price is in range iff it is at least the minimum |
| `Page.RemoveByIdKeepsOthers` | app/map/page.tsx:103 | after delete, a record is present iff it was present and its id differs; other records keep their copies and their order |
| `Page.RemoveByIdLength` | app/map/page.tsx:103 | delete shortens the list by the number of entries that carry the id |
| `Page.RemoveAbsentId` | app/map/page.tsx:103 | deleting an id no entry carries leaves the list unchanged |
| `Page.AddThenRemoveRestores` | app/map/page.tsx:75-111 | deleting a just-created record whose id was new gives back the list from before the create |
| `Page.ReplaceByIdShape` | app/map/page.tsx:91-93 | update keeps the length, puts the returned record wherever the id matched, and leaves every other entry in place |
| `Page.ReplaceByIdKeepsOthers` | app/map/page.tsx:91-93 | when the returned record keeps the id, the entries with other ids are unchanged and in order, and the number of entries with the id is unchanged |
| `Page.MapPage.constructor` | app/map/page.tsx:28-34 | initial state: empty list, all flags false, empty search, range from 0 without upper bound, sort by ascending price |
| `Page.MapPage.HandleGetProperties` | app/map/page.tsx:63-73 | success replaces the whole list; failure keeps it; `isLoading` is false afterwards; nothing else changes |
| `Page.MapPage.HandleAddProperty` | app/map/page.tsx:75-85 | success gives `old + [server record]`; failure keeps the list; `isAdding` is false afterwards; nothing else changes |
| `Page.MapPage.HandleUpdateProperty` | app/map/page.tsx:87-97 | success replaces each entry with the id by the returned record; failure keeps the list; nothing else changes |
| `Page.MapPage.HandleDeleteProperty` | app/map/page.tsx:99-111 | success removes exactly the entries with the id; failure keeps the list; `isDeleting` is false afterwards; nothing else changes |
| `Page.MapPage.SetSearchTerm` | app/map/page.tsx:146 | the search term becomes the typed text; nothing else changes |
| `Page.MapPage.SetSortBy` | app/map/page.tsx:151 | the sort key becomes the selected option; nothing else changes |
| `Page.MapPage.SetMinPrice` | app/map/page.tsx:164 | the range becomes the min updater applied to the previous range; nothing else changes |
| `Page.MapPage.SetMaxPrice` | app/map/page.tsx:171 | the range becomes the max updater applied to the previous range; nothing else changes |
| `Page.MapPage.FilteredAndSortedProperties` | app/map/page.tsx:113-130 | from the current state: a record is shown iff it is loaded and passes the search and the range, each shown record appears as often as in the passing sub-list, and the list is sorted by the selected key |

## Left out

- The property service and its use-case wrapper (`module/map/service/mapService.ts`, `module/map/usecase/mapUsecase.ts`) are HTTP calls with fixed error strings. Each handler receives their result as an `Outcome` parameter. The use-case layer has no `updateProperty` method even though the page calls one, so update's result is a parameter too.
- Sign-in, the login pages and the home page (`module/auth/*`, `app/login/*`, `app/page.tsx`) call the identity provider and redirect. The page's `user`, and the `user?.id || ''` it sends with every call, are not modelled. The effect that starts the initial fetch once a user is known is not modelled either.
- `components/*` render the map, the dialogs and the forms. The `disabled={isDeleting}` on the delete button is rendering; the model keeps the flag but not the button.
- Page.MapPage.HandleUpdateProperty: does not model the re-fetch at `app/map/page.tsx:90`. That call is not awaited and runs alongside the local update. Its effect is that of a later `HandleGetProperties` step.
- Interleaving of handlers is not modelled: each handler is one atomic step. So the flags are never seen raised between steps. The stale `properties` closure the handlers read, and responses that arrive out of order, are not captured.
- Absent `title` or `price` fields (possible when the server sends malformed records) cannot be represented, so the `?.`/`|| ''`/`|| 0` fallbacks of the filter (`app/map/page.tsx:115-117`) are not modelled. Under them, a record without a title passes the search only when the search term is empty, and a record without a price passes the range only when `min <= 0 <= max`. In the sort, a record without a price makes `a.price - b.price` `NaN` under the price keys, which leaves the order implementation-defined. A record without a title makes `a.title.localeCompare` throw, but only under the title key.
- Fractional, `NaN` and infinite prices, and the parsing of the input text by `Number`, are left out: prices and typed values are integers.
- Unicode lower-casing and locale-aware collation are replaced by ASCII folding and character order.
- The comparator's `default: return 0` branch is unreachable: `sortBy` only takes the three option values. `SortKey` has exactly those three.
- Latitude, longitude, marker placement, `toLocaleString` price formatting and the `console` logging are display only.
