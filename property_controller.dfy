/**
 The three read-only actions of the property controller over an immutable
 snapshot of the store: `Index` lists the visible properties, `Details` looks
 one up by id, and `Search` narrows the visible properties by the supplied
 criteria. Each action also reports the total number of stored properties.
 */
module PropertyController {
  import opened Wrappers
  import opened Text
  import opened Query
  import opened Models
  import opened Filters

  /** What the index view receives: the listings and `ViewBag.TotalCount`. */
  datatype IndexView = IndexView(properties: seq<Property>, totalCount: nat)

  /** What the search view receives: the listings, `ViewBag.TotalCount` and `ViewBag.FilteredCount`. */
  datatype SearchView = SearchView(properties: seq<Property>, totalCount: nat, filteredCount: nat)

  datatype DetailsView = Found(property: Property) | NotFound

  // ------------------------------------------------------------------- Index

  /** The active, approved properties in store order, and the count of every stored property. */
  function Index(store: seq<Property>): (r: IndexView)
    ensures forall p :: p in r.properties <==> p in store && p.propertyStatus && p.adminApproved
    ensures |r.properties| <= |store|
    ensures r.totalCount == |store|
  {
    WhereMembers(store, Visible);
    IndexView(Where(store, Visible), |store|)
  }

  // ----------------------------------------------------------------- Details

  /** `FirstOrDefault(p => p.PropertyID == id)`: the position of the first property with that id. */
  function FirstWithId(store: seq<Property>, id: int): (r: Option<nat>)
    ensures r.Some? ==>
      r.value < |store| && store[r.value].propertyId == id &&
      forall j :: 0 <= j < r.value ==> store[j].propertyId != id
    ensures r.None? ==> forall j :: 0 <= j < |store| ==> store[j].propertyId != id
  {
    if store == [] then None
    else if store[0].propertyId == id then Some(0)
    else match FirstWithId(store[1..], id)
      case None => None
      case Some(k) => Some(k + 1)
  }

  /** NotFound for a missing id or an id no stored property has; otherwise the first property with that id. */
  function Details(store: seq<Property>, id: Option<int>): (r: DetailsView)
    ensures r.NotFound? <==> id.None? || forall p :: p in store ==> p.propertyId != id.value
    ensures r.Found? ==> r.property in store && r.property.propertyId == id.value
  {
    if id.None? then NotFound
    else match FirstWithId(store, id.value)
      case None => NotFound
      case Some(k) => Found(store[k])
  }

  /** With unique ids, looking up a stored property's id finds that property. */
  lemma DetailsFindsUniqueId(store: seq<Property>, p: Property)
    requires p in store
    requires forall i, j ::
      0 <= i < |store| && 0 <= j < |store| && store[i].propertyId == store[j].propertyId ==> i == j
    ensures Details(store, Some(p.propertyId)) == Found(p)
  {
    var i :| 0 <= i < |store| && store[i] == p;
    var k := FirstWithId(store, p.propertyId);
    assert k.Some? && store[k.value].propertyId == store[i].propertyId;
  }

  /** The lookup does not apply the visibility rule: an inactive, unapproved property is still found. */
  lemma DetailsIgnoresVisibility(p: Property)
    requires !p.propertyStatus && !p.adminApproved
    ensures Details([p], Some(p.propertyId)) == Found(p)
  {
  }

  // ------------------------------------------------------------------ Search

  /** The specification of the search: the stored properties that match every supplied criterion, in store order. */
  function SearchResults(store: seq<Property>, c: Criteria): seq<Property>
  {
    Where(store, p => Matches(p, c))
  }

  /** The results are exactly the stored properties that match every supplied criterion. */
  lemma SearchResultsExact(store: seq<Property>, c: Criteria)
    ensures forall p :: p in SearchResults(store, c) <==> p in store && Matches(p, c)
    ensures |SearchResults(store, c)| <= |store|
  {
    WhereMembers(store, p => Matches(p, c));
  }

  /**
   The search action: starts from the visible properties and narrows the query
   once per supplied criterion, in the controller's order. Before the k-th
   step (counting from 0) the query is `SearchSoFar(store, c, k)`.
   */
  method Search(store: seq<Property>, c: Criteria) returns (view: SearchView)
    ensures view.properties == SearchResults(store, c)
    ensures view.totalCount == |store|
    ensures view.filteredCount == |view.properties|
  {
    var query := Where(store, Visible);
    // The step number is a ghost variable, not a literal, so that SearchSoFar(store, c, k)
    // cannot be unfolded in this body; each step lemma unfolds it once.
    ghost var k := 0;

    if c.location.Some? && c.location.value != [] {
      var location := NormalizeTerm(c.location.value);
      LocationStep(store, c, k, query, location);
      query := Where(query, (p: Property) => LocationMatches(p, location));
    } else {
      LocationStep(store, c, k, query, []);
    }
    k := k + 1;

    GuestsStep(store, c, k, query);
    if c.guests.Some? {
      query := Where(query, (p: Property) => p.guestsAllowed >= c.guests.value);
    }
    k := k + 1;

    CategoryStep(store, c, k, query);
    if c.categoryId.Some? {
      query := Where(query, (p: Property) => p.categoryId == c.categoryId.value);
    }
    k := k + 1;

    MinPriceStep(store, c, k, query);
    if c.minPrice.Some? {
      query := Where(query, (p: Property) => p.weekdayPrice >= c.minPrice.value);
    }
    k := k + 1;

    MaxPriceStep(store, c, k, query);
    if c.maxPrice.Some? {
      query := Where(query, (p: Property) => p.weekdayPrice <= c.maxPrice.value);
    }
    k := k + 1;

    MinBedroomsStep(store, c, k, query);
    if c.minBedrooms.Some? {
      query := Where(query, (p: Property) => p.bedrooms >= c.minBedrooms.value);
    }
    k := k + 1;

    MinBathroomsStep(store, c, k, query);
    if c.minBathrooms.Some? {
      query := Where(query, (p: Property) => p.bathrooms >= c.minBathrooms.value);
    }
    k := k + 1;

    PetsAllowedStep(store, c, k, query);
    if c.petsAllowed.Some? {
      query := Where(query, (p: Property) => p.petsAllowed == c.petsAllowed.value);
    }
    k := k + 1;

    FreeParkingStep(store, c, k, query);
    if c.freeParking.Some? {
      query := Where(query, (p: Property) => p.freeParking == c.freeParking.value);
    }
    k := k + 1;

    AvailabilityStep(store, c, k, query);
    if c.checkIn.Some? && c.checkOut.Some? {
      query := Where(query, (p: Property) => Available(p.reservations, c.checkIn.value, c.checkOut.value));
    }
    k := k + 1;

    RatingStep(store, c, k, query);
    if c.minRating.Some? {
      query := Where(query, (p: Property) => RatingMeets(p.reviews, c.minRating.value));
    }
    k := k + 1;

    SearchSoFarIsSearch(store, c, k);
    view := SearchView(query, |store|, |query|);
  }

  /**
   The test of the k-th narrowing step of the search, in the controller's order
   (location, guests, category, price floor, price ceiling, bedrooms, bathrooms,
   pets, parking, availability, rating): a criterion not supplied keeps every property.
   */
  predicate StepOk(p: Property, c: Criteria, k: nat)
  {
    if k == 1 then LocationOk(p, c.location)
    else if k == 2 then GuestsOk(p, c.guests)
    else if k == 3 then CategoryOk(p, c.categoryId)
    else if k == 4 then MinPriceOk(p, c.minPrice)
    else if k == 5 then MaxPriceOk(p, c.maxPrice)
    else if k == 6 then MinBedroomsOk(p, c.minBedrooms)
    else if k == 7 then MinBathroomsOk(p, c.minBathrooms)
    else if k == 8 then PetsAllowedOk(p, c.petsAllowed)
    else if k == 9 then FreeParkingOk(p, c.freeParking)
    else if k == 10 then AvailabilityOk(p, c.checkIn, c.checkOut)
    else RatingOk(p, c.minRating)
  }

  /** The k-th step's test as the filter `Where` takes. */
  function StepFilter(c: Criteria, k: nat): Property -> bool
  {
    (p: Property) => StepOk(p, c, k)
  }

  /** The visible properties narrowed by the first k steps of the search. */
  function SearchSoFar(store: seq<Property>, c: Criteria, k: nat): seq<Property>
    decreases k, 1
  {
    if k == 0 then Where(store, Visible) else NarrowedSoFar(store, c, k)
  }

  /** The k-th step applied to the query left by the steps before it. */
  function NarrowedSoFar(store: seq<Property>, c: Criteria, k: nat): seq<Property>
    requires k >= 1
    decreases k, 0
  {
    Where(SearchSoFar(store, c, k - 1), StepFilter(c, k))
  }

  /** Visible and passing the tests of the first k steps. */
  predicate MatchesSoFar(p: Property, c: Criteria, k: nat)
    decreases k
  {
    if k == 0 then Visible(p) else MatchesSoFar(p, c, k - 1) && StepOk(p, c, k)
  }

  /** `MatchesSoFar` as the filter `Where` takes. */
  function SoFarFilter(c: Criteria, k: nat): Property -> bool
  {
    (p: Property) => MatchesSoFar(p, c, k)
  }

  /** Narrowing step by step keeps, in store order, the properties that pass every step so far. */
  lemma {:induction false} SearchSoFarMatches(store: seq<Property>, c: Criteria, k: nat)
    ensures SearchSoFar(store, c, k) == Where(store, SoFarFilter(c, k))
    decreases k
  {
    if k == 0 {
      WhereExt(store, Visible, SoFarFilter(c, 0));
    } else {
      SearchSoFarMatches(store, c, k - 1);
      assert SearchSoFar(store, c, k) == NarrowedSoFar(store, c, k);
      WhereAnd(store, SoFarFilter(c, k - 1), StepFilter(c, k), SoFarFilter(c, k));
    }
  }

  /** Passing the base rule and all eleven steps is matching every criterion. */
  lemma {:induction false} AllStepsAreMatches(p: Property, c: Criteria)
    ensures MatchesSoFar(p, c, 11) == Matches(p, c)
  {
    assert MatchesSoFar(p, c, 1) == (Visible(p) && LocationOk(p, c.location));
    assert MatchesSoFar(p, c, 2) == (MatchesSoFar(p, c, 1) && GuestsOk(p, c.guests));
    assert MatchesSoFar(p, c, 3) == (MatchesSoFar(p, c, 2) && CategoryOk(p, c.categoryId));
    assert MatchesSoFar(p, c, 4) == (MatchesSoFar(p, c, 3) && MinPriceOk(p, c.minPrice));
    assert MatchesSoFar(p, c, 5) == (MatchesSoFar(p, c, 4) && MaxPriceOk(p, c.maxPrice));
    assert MatchesSoFar(p, c, 6) == (MatchesSoFar(p, c, 5) && MinBedroomsOk(p, c.minBedrooms));
    assert MatchesSoFar(p, c, 7) == (MatchesSoFar(p, c, 6) && MinBathroomsOk(p, c.minBathrooms));
    assert MatchesSoFar(p, c, 8) == (MatchesSoFar(p, c, 7) && PetsAllowedOk(p, c.petsAllowed));
    assert MatchesSoFar(p, c, 9) == (MatchesSoFar(p, c, 8) && FreeParkingOk(p, c.freeParking));
    assert MatchesSoFar(p, c, 10) == (MatchesSoFar(p, c, 9) && AvailabilityOk(p, c.checkIn, c.checkOut));
    assert MatchesSoFar(p, c, 11) == (MatchesSoFar(p, c, 10) && RatingOk(p, c.minRating));
  }

  /** After all eleven steps the query is the specified search. */
  lemma SearchSoFarIsSearch(store: seq<Property>, c: Criteria, k: nat)
    requires k == 11
    ensures SearchSoFar(store, c, k) == SearchResults(store, c)
  {
    SearchSoFarMatches(store, c, k);
    forall p | p in store
      ensures MatchesSoFar(p, c, k) == Matches(p, c)
    {
      AllStepsAreMatches(p, c);
    }
    WhereExt(store, SoFarFilter(c, k), p => Matches(p, c));
  }

  /** Criteria that every property matches or fails alike give the same results. */
  lemma SameSearch(store: seq<Property>, c: Criteria, c': Criteria)
    requires forall p :: Matches(p, c) == Matches(p, c')
    ensures SearchResults(store, c) == SearchResults(store, c')
  {
    WhereExt(store, p => Matches(p, c), p => Matches(p, c'));
  }

  // One lemma per step of the search action: the k-th step takes the query
  // from SearchSoFar(store, c, k) to SearchSoFar(store, c, k + 1).

  lemma LocationStep(store: seq<Property>, c: Criteria, k: nat, query: seq<Property>, location: string)
    requires k == 0 && query == SearchSoFar(store, c, k)
    ensures c.location.Some? && c.location.value != [] && location == NormalizeTerm(c.location.value) ==>
      Where(query, (p: Property) => LocationMatches(p, location)) == SearchSoFar(store, c, k + 1)
    ensures !(c.location.Some? && c.location.value != []) ==> query == SearchSoFar(store, c, k + 1)
  {
    assert SearchSoFar(store, c, k + 1) == NarrowedSoFar(store, c, k + 1);
    if c.location.Some? && c.location.value != [] {
      if location == NormalizeTerm(c.location.value) {
        WhereExt(query, (p: Property) => LocationMatches(p, location), StepFilter(c, k + 1));
      }
    } else {
      WhereAll(query, StepFilter(c, k + 1));
    }
  }

  lemma GuestsStep(store: seq<Property>, c: Criteria, k: nat, query: seq<Property>)
    requires k == 1 && query == SearchSoFar(store, c, k)
    ensures c.guests.Some? ==>
      Where(query, (p: Property) => p.guestsAllowed >= c.guests.value) == SearchSoFar(store, c, k + 1)
    ensures c.guests.None? ==> query == SearchSoFar(store, c, k + 1)
  {
    assert SearchSoFar(store, c, k + 1) == NarrowedSoFar(store, c, k + 1);
    if c.guests.Some? {
      WhereExt(query, (p: Property) => p.guestsAllowed >= c.guests.value, StepFilter(c, k + 1));
    } else {
      WhereAll(query, StepFilter(c, k + 1));
    }
  }

  lemma CategoryStep(store: seq<Property>, c: Criteria, k: nat, query: seq<Property>)
    requires k == 2 && query == SearchSoFar(store, c, k)
    ensures c.categoryId.Some? ==>
      Where(query, (p: Property) => p.categoryId == c.categoryId.value) == SearchSoFar(store, c, k + 1)
    ensures c.categoryId.None? ==> query == SearchSoFar(store, c, k + 1)
  {
    assert SearchSoFar(store, c, k + 1) == NarrowedSoFar(store, c, k + 1);
    if c.categoryId.Some? {
      WhereExt(query, (p: Property) => p.categoryId == c.categoryId.value, StepFilter(c, k + 1));
    } else {
      WhereAll(query, StepFilter(c, k + 1));
    }
  }

  lemma MinPriceStep(store: seq<Property>, c: Criteria, k: nat, query: seq<Property>)
    requires k == 3 && query == SearchSoFar(store, c, k)
    ensures c.minPrice.Some? ==>
      Where(query, (p: Property) => p.weekdayPrice >= c.minPrice.value) == SearchSoFar(store, c, k + 1)
    ensures c.minPrice.None? ==> query == SearchSoFar(store, c, k + 1)
  {
    assert SearchSoFar(store, c, k + 1) == NarrowedSoFar(store, c, k + 1);
    if c.minPrice.Some? {
      WhereExt(query, (p: Property) => p.weekdayPrice >= c.minPrice.value, StepFilter(c, k + 1));
    } else {
      WhereAll(query, StepFilter(c, k + 1));
    }
  }

  lemma MaxPriceStep(store: seq<Property>, c: Criteria, k: nat, query: seq<Property>)
    requires k == 4 && query == SearchSoFar(store, c, k)
    ensures c.maxPrice.Some? ==>
      Where(query, (p: Property) => p.weekdayPrice <= c.maxPrice.value) == SearchSoFar(store, c, k + 1)
    ensures c.maxPrice.None? ==> query == SearchSoFar(store, c, k + 1)
  {
    assert SearchSoFar(store, c, k + 1) == NarrowedSoFar(store, c, k + 1);
    if c.maxPrice.Some? {
      WhereExt(query, (p: Property) => p.weekdayPrice <= c.maxPrice.value, StepFilter(c, k + 1));
    } else {
      WhereAll(query, StepFilter(c, k + 1));
    }
  }

  lemma MinBedroomsStep(store: seq<Property>, c: Criteria, k: nat, query: seq<Property>)
    requires k == 5 && query == SearchSoFar(store, c, k)
    ensures c.minBedrooms.Some? ==>
      Where(query, (p: Property) => p.bedrooms >= c.minBedrooms.value) == SearchSoFar(store, c, k + 1)
    ensures c.minBedrooms.None? ==> query == SearchSoFar(store, c, k + 1)
  {
    assert SearchSoFar(store, c, k + 1) == NarrowedSoFar(store, c, k + 1);
    if c.minBedrooms.Some? {
      WhereExt(query, (p: Property) => p.bedrooms >= c.minBedrooms.value, StepFilter(c, k + 1));
    } else {
      WhereAll(query, StepFilter(c, k + 1));
    }
  }

  lemma MinBathroomsStep(store: seq<Property>, c: Criteria, k: nat, query: seq<Property>)
    requires k == 6 && query == SearchSoFar(store, c, k)
    ensures c.minBathrooms.Some? ==>
      Where(query, (p: Property) => p.bathrooms >= c.minBathrooms.value) == SearchSoFar(store, c, k + 1)
    ensures c.minBathrooms.None? ==> query == SearchSoFar(store, c, k + 1)
  {
    assert SearchSoFar(store, c, k + 1) == NarrowedSoFar(store, c, k + 1);
    if c.minBathrooms.Some? {
      WhereExt(query, (p: Property) => p.bathrooms >= c.minBathrooms.value, StepFilter(c, k + 1));
    } else {
      WhereAll(query, StepFilter(c, k + 1));
    }
  }

  lemma PetsAllowedStep(store: seq<Property>, c: Criteria, k: nat, query: seq<Property>)
    requires k == 7 && query == SearchSoFar(store, c, k)
    ensures c.petsAllowed.Some? ==>
      Where(query, (p: Property) => p.petsAllowed == c.petsAllowed.value) == SearchSoFar(store, c, k + 1)
    ensures c.petsAllowed.None? ==> query == SearchSoFar(store, c, k + 1)
  {
    assert SearchSoFar(store, c, k + 1) == NarrowedSoFar(store, c, k + 1);
    if c.petsAllowed.Some? {
      WhereExt(query, (p: Property) => p.petsAllowed == c.petsAllowed.value, StepFilter(c, k + 1));
    } else {
      WhereAll(query, StepFilter(c, k + 1));
    }
  }

  lemma FreeParkingStep(store: seq<Property>, c: Criteria, k: nat, query: seq<Property>)
    requires k == 8 && query == SearchSoFar(store, c, k)
    ensures c.freeParking.Some? ==>
      Where(query, (p: Property) => p.freeParking == c.freeParking.value) == SearchSoFar(store, c, k + 1)
    ensures c.freeParking.None? ==> query == SearchSoFar(store, c, k + 1)
  {
    assert SearchSoFar(store, c, k + 1) == NarrowedSoFar(store, c, k + 1);
    if c.freeParking.Some? {
      WhereExt(query, (p: Property) => p.freeParking == c.freeParking.value, StepFilter(c, k + 1));
    } else {
      WhereAll(query, StepFilter(c, k + 1));
    }
  }

  lemma AvailabilityStep(store: seq<Property>, c: Criteria, k: nat, query: seq<Property>)
    requires k == 9 && query == SearchSoFar(store, c, k)
    ensures c.checkIn.Some? && c.checkOut.Some? ==>
      Where(query, (p: Property) => Available(p.reservations, c.checkIn.value, c.checkOut.value)) ==
      SearchSoFar(store, c, k + 1)
    ensures !(c.checkIn.Some? && c.checkOut.Some?) ==> query == SearchSoFar(store, c, k + 1)
  {
    assert SearchSoFar(store, c, k + 1) == NarrowedSoFar(store, c, k + 1);
    if c.checkIn.Some? && c.checkOut.Some? {
      WhereExt(query, (p: Property) => Available(p.reservations, c.checkIn.value, c.checkOut.value),
        StepFilter(c, k + 1));
    } else {
      WhereAll(query, StepFilter(c, k + 1));
    }
  }

  lemma RatingStep(store: seq<Property>, c: Criteria, k: nat, query: seq<Property>)
    requires k == 10 && query == SearchSoFar(store, c, k)
    ensures c.minRating.Some? ==>
      Where(query, (p: Property) => RatingMeets(p.reviews, c.minRating.value)) == SearchSoFar(store, c, k + 1)
    ensures c.minRating.None? ==> query == SearchSoFar(store, c, k + 1)
  {
    assert SearchSoFar(store, c, k + 1) == NarrowedSoFar(store, c, k + 1);
    if c.minRating.Some? {
      WhereExt(query, (p: Property) => RatingMeets(p.reviews, c.minRating.value), StepFilter(c, k + 1));
    } else {
      WhereAll(query, StepFilter(c, k + 1));
    }
  }

  // -------------------------------------------------------------- properties

  /** Whatever the criteria, neither action ever shows an inactive or unapproved property. */
  lemma OnlyVisibleShown(store: seq<Property>, c: Criteria)
    ensures forall p :: p in SearchResults(store, c) ==> p.propertyStatus && p.adminApproved
    ensures forall p :: p in Index(store).properties ==> p.propertyStatus && p.adminApproved
  {
    SearchResultsExact(store, c);
  }

  /** With no criterion supplied, the search shows exactly what the index shows, in the same order. */
  lemma NoCriteriaIsIndex(store: seq<Property>)
    ensures SearchResults(store, NoCriteria) == Index(store).properties
  {
    WhereExt(store, p => Matches(p, NoCriteria), Visible);
  }

  /** Every search is a narrowing of the index: the criteria only ever remove listings. */
  lemma SearchNarrowsIndex(store: seq<Property>, c: Criteria)
    ensures SearchResults(store, c) == Where(Index(store).properties, p => Matches(p, c))
    ensures |SearchResults(store, c)| <= |Index(store).properties|
  {
    WhereWhere(store, Visible, p => Matches(p, c));
    WhereMembers(Index(store).properties, p => Matches(p, c));
  }

  /** A minimum price above the maximum price gives an empty result and no error. */
  lemma InvertedPriceRangeIsEmpty(store: seq<Property>, c: Criteria)
    requires c.minPrice.Some? && c.maxPrice.Some? && c.minPrice.value > c.maxPrice.value
    ensures SearchResults(store, c) == []
  {
    forall p | p in store {
      PriceWindowEmpty(p, c.minPrice.value, c.maxPrice.value);
    }
    WhereNone(store, p => Matches(p, c));
  }

  /** Availability is filtered only when both dates are given: a single date changes nothing. */
  lemma SingleDateIgnored(store: seq<Property>, c: Criteria)
    requires c.checkIn.None? || c.checkOut.None?
    ensures SearchResults(store, c) == SearchResults(store, c.(checkIn := None, checkOut := None))
  {
    SameSearch(store, c, c.(checkIn := None, checkOut := None));
  }

  /** A location made only of white space (the empty string included) changes nothing. */
  lemma BlankLocationIgnored(store: seq<Property>, c: Criteria)
    requires c.location.Some? && AllWhiteSpace(c.location.value)
    ensures SearchResults(store, c) == SearchResults(store, c.(location := None))
  {
    forall p ensures Matches(p, c) == Matches(p, c.(location := None)) {
      BlankLocationKeepsAll(p, c.location.value);
    }
    SameSearch(store, c, c.(location := None));
  }
}
