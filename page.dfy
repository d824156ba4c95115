/** The map page's state and the handlers that reconcile it with the
    property service (app/map/page.tsx, `MapPage`). Each handler is one
    atomic step: the awaited service call is replaced by its `Outcome`,
    passed in as a parameter. */
module Page {
  import opened Wrappers
  import opened PropertyData
  import opened ArrayOps
  import opened Projection

  // ---------------------------------------------------------------
  // The list updates the handlers apply
  // ---------------------------------------------------------------

  function IdIsNot(id: string): Property -> bool
  {
    (p: Property) => p.id != id
  }

  /** `properties.filter(prop => prop.id !== id)`. */
  function RemoveById(properties: seq<Property>, id: string): seq<Property>
  {
    Filter(properties, IdIsNot(id))
  }

  function ReplaceIfId(id: string, updated: Property): Property -> Property
  {
    (p: Property) => if p.id == id then updated else p
  }

  /** `properties.map(prop => prop.id === id ? updated : prop)`. */
  function ReplaceById(properties: seq<Property>, id: string, updated: Property): seq<Property>
  {
    Map(properties, ReplaceIfId(id, updated))
  }

  /** How many entries carry `id`. */
  function CountId(properties: seq<Property>, id: string): (n: nat)
    ensures n <= |properties|
  {
    if properties == [] then 0
    else (if properties[0].id == id then 1 else 0) + CountId(properties[1..], id)
  }

  /** Deleting removes exactly the entries with `id`, every copy of
      every other entry stays, and the survivors keep their order. */
  lemma RemoveByIdKeepsOthers(properties: seq<Property>, id: string, p: Property)
    ensures p in RemoveById(properties, id) <==> p in properties && p.id != id
    ensures multiset(RemoveById(properties, id))[p] == if p.id != id then multiset(properties)[p] else 0
    ensures IsSubsequence(RemoveById(properties, id), properties)
  {
    FilterMembership(properties, IdIsNot(id), p);
    FilterMultiset(properties, IdIsNot(id), p);
    FilterIsSubsequence(properties, IdIsNot(id));
  }

  /** Deleting shortens the list by the number of entries with `id`. */
  lemma {:induction false} RemoveByIdLength(properties: seq<Property>, id: string)
    ensures |RemoveById(properties, id)| == |properties| - CountId(properties, id)
  {
    if properties != [] {
      RemoveByIdLength(properties[1..], id);
    }
  }

  /** Deleting an id no entry carries leaves the list as it is. */
  lemma RemoveAbsentId(properties: seq<Property>, id: string)
    requires forall k :: 0 <= k < |properties| ==> properties[k].id != id
    ensures RemoveById(properties, id) == properties
  {
    FilterIdentity(properties, IdIsNot(id));
  }

  /** Deleting the record a create just appended, when its id was new
      to the list, gives back the list from before the create. */
  lemma AddThenRemoveRestores(properties: seq<Property>, created: Property)
    requires forall k :: 0 <= k < |properties| ==> properties[k].id != created.id
    ensures RemoveById(properties + [created], created.id) == properties
  {
    FilterConcat(properties, [created], IdIsNot(created.id));
    RemoveAbsentId(properties, created.id);
  }

  /** Updating keeps the length, puts the returned record at every
      position whose entry had `id`, and leaves the rest in place. */
  lemma ReplaceByIdShape(properties: seq<Property>, id: string, updated: Property)
    ensures |ReplaceById(properties, id, updated)| == |properties|
    ensures forall k :: 0 <= k < |properties| ==>
      ReplaceById(properties, id, updated)[k] == if properties[k].id == id then updated else properties[k]
  {
  }

  /** When the server returns a record with the same id, the entries
      with other ids are exactly those before the update, in order, and
      as many entries carry `id` as before. */
  lemma {:induction false} ReplaceByIdKeepsOthers(properties: seq<Property>, id: string, updated: Property)
    requires updated.id == id
    ensures RemoveById(ReplaceById(properties, id, updated), id) == RemoveById(properties, id)
    ensures CountId(ReplaceById(properties, id, updated), id) == CountId(properties, id)
  {
    if properties != [] {
      ReplaceByIdKeepsOthers(properties[1..], id, updated);
      var r := ReplaceById(properties, id, updated);
      assert r[1..] == ReplaceById(properties[1..], id, updated);
    }
  }

  // ---------------------------------------------------------------
  // The page
  // ---------------------------------------------------------------

  /** The `useState` variables of `MapPage`. The signed-in user only
      supplies the id sent along with every service call, which the
      `Outcome` parameters already stand for. */
  class MapPage {
    var properties: seq<Property>
    var isLoading: bool
    var isAdding: bool
    var isDeleting: bool
    var searchTerm: string
    var priceRange: PriceRange
    var sortBy: SortKey

    /** The initial state: an empty list, no call in flight, an empty
        search, the range from 0 without upper bound, cheapest first. */
    constructor ()
      ensures properties == [] && !isLoading && !isAdding && !isDeleting
      ensures searchTerm == "" && priceRange == InitialRange && sortBy == InitialSort
    {
      properties := [];
      isLoading, isAdding, isDeleting := false, false, false;
      searchTerm := "";
      priceRange := InitialRange;
      sortBy := InitialSort;
    }

    /** `handleGetProperties`: a successful fetch replaces the whole
        list; a failed one keeps the previous list. */
    method HandleGetProperties(response: Outcome<seq<Property>>)
      modifies this`properties, this`isLoading
      ensures properties == if response.Success? then response.value else old(properties)
      ensures !isLoading
    {
      isLoading := true;
      if response.Success? {
        properties := response.value;
      }
      isLoading := false;
    }

    /** `handleAddProperty`: the record the server returns is appended
        once the call succeeds; a failure keeps the list. */
    method HandleAddProperty(response: Outcome<Property>)
      modifies this`properties, this`isAdding
      ensures properties == if response.Success? then old(properties) + [response.value] else old(properties)
      ensures !isAdding
    {
      isAdding := true;
      if response.Success? {
        properties := properties + [response.value];
      }
      isAdding := false;
    }

    /** `handleUpdateProperty`: on success every entry with `id` is
        replaced by the record the server returns; a failure keeps the
        list. No flag is involved. */
    method HandleUpdateProperty(id: string, response: Outcome<Property>)
      modifies this`properties
      ensures properties == if response.Success? then ReplaceById(old(properties), id, response.value) else old(properties)
    {
      if response.Success? {
        properties := ReplaceById(properties, id, response.value);
      }
    }

    /** `handleDeleteProperty`: once the server confirms, every entry
        with `id` is removed; a failure keeps the list. */
    method HandleDeleteProperty(id: string, response: Outcome<()>)
      modifies this`properties, this`isDeleting
      ensures properties == if response.Success? then RemoveById(old(properties), id) else old(properties)
      ensures !isDeleting
    {
      isDeleting := true;
      if response.Success? {
        properties := RemoveById(properties, id);
      }
      isDeleting := false;
    }

    /** The search box's `onChange`. */
    method SetSearchTerm(term: string)
      modifies this`searchTerm
      ensures searchTerm == term
    {
      searchTerm := term;
    }

    /** The sort selector's `onChange`. */
    method SetSortBy(key: SortKey)
      modifies this`sortBy
      ensures sortBy == key
    {
      sortBy := key;
    }

    /** The min price input's `onChange`. */
    method SetMinPrice(input: PriceInput)
      modifies this`priceRange
      ensures priceRange == WithMin(old(priceRange), input)
    {
      priceRange := WithMin(priceRange, input);
    }

    /** The max price input's `onChange`. */
    method SetMaxPrice(input: PriceInput)
      modifies this`priceRange
      ensures priceRange == WithMax(old(priceRange), input)
    {
      priceRange := WithMax(priceRange, input);
    }

    /** `filteredAndSortedProperties`, recomputed from the current state:
        the loaded records that pass the search and the price range, each
        as often as it is loaded, ordered by the selected key. */
    function FilteredAndSortedProperties(): (r: seq<Property>)
      reads this
      ensures forall p :: p in r <==> p in properties && MatchesSearch(p.title, searchTerm) && InRange(p.price, priceRange)
      ensures multiset(r) == multiset(Filter(properties, Matches(searchTerm, priceRange)))
      ensures Sorted(r, Comparator(sortBy))
    {
      var r := Project(properties, searchTerm, priceRange, sortBy);
      assert forall p :: p in r <==> p in properties && MatchesSearch(p.title, searchTerm) && InRange(p.price, priceRange) by {
        forall p {
          ProjectMembership(properties, searchTerm, priceRange, sortBy, p);
        }
      }
      r
    }
  }
}
