/**
 The predicates the search action narrows its query with, one per criterion,
 each true when its criterion is absent, and their conjunction `Matches`.
 */
module Filters {
  import opened Wrappers
  import opened Text
  import opened Query
  import opened Models

  /** Base visibility rule shared by the index and the search: active and admin-approved. */
  predicate Visible(p: Property)
  {
    p.propertyStatus && p.adminApproved
  }

  // ---------------------------------------------------------------- location

  /** The search term as the controller uses it: lower-cased, then trimmed. */
  function NormalizeTerm(location: string): string
  {
    Trim(ToLower(location))
  }

  /** The four substring tests on the lower-cased city, state, "city, state" and property name. */
  predicate LocationMatches(p: Property, term: string)
  {
    var city := ToLower(p.city);
    var state := ToLower(p.state);
    Contains(city, term) || Contains(state, term) ||
    Contains(city + ", " + state, term) || Contains(ToLower(p.propertyName), term)
  }

  /** A null or empty location applies no filter. */
  predicate LocationOk(p: Property, location: Option<string>)
  {
    location.None? || location.value == [] || LocationMatches(p, NormalizeTerm(location.value))
  }

  /** A listing matches a term exactly when the term is a substring of one of the four lower-cased fields. */
  lemma LocationMatchesIff(p: Property, term: string)
    ensures LocationMatches(p, term) <==>
      IsSubstring(term, ToLower(p.city)) ||
      IsSubstring(term, ToLower(p.state)) ||
      IsSubstring(term, ToLower(p.city) + ", " + ToLower(p.state)) ||
      IsSubstring(term, ToLower(p.propertyName))
  {
    ContainsIffOccurs(ToLower(p.city), term);
    ContainsIffOccurs(ToLower(p.state), term);
    ContainsIffOccurs(ToLower(p.city) + ", " + ToLower(p.state), term);
    ContainsIffOccurs(ToLower(p.propertyName), term);
  }

  /** The separate city and state tests are subsumed by the "city, state" test. */
  lemma LocationCityStateSubsumed(p: Property, term: string)
    ensures LocationMatches(p, term) <==>
      Contains(ToLower(p.city) + ", " + ToLower(p.state), term) ||
      Contains(ToLower(p.propertyName), term)
  {
    var city := ToLower(p.city);
    var state := ToLower(p.state);
    assert city + ", " + state == city + (", " + state);
    if Contains(city, term) {
      ContainsInAppend(city, ", " + state, term);
    }
    if Contains(state, term) {
      ContainsInAppend(city + ", ", state, term);
    }
  }

  /** Case does not matter, neither in the term nor in the listing's fields. */
  lemma LocationCaseInsensitive(p: Property, term: string)
    ensures LocationOk(p, Some(term)) == LocationOk(p, Some(ToLower(term)))
    ensures LocationOk(p, Some(term)) ==
      LocationOk(p.(city := ToLower(p.city), state := ToLower(p.state),
                    propertyName := ToLower(p.propertyName)), Some(term))
  {
    ToLowerIdempotent(term);
    ToLowerIdempotent(p.city);
    ToLowerIdempotent(p.state);
    ToLowerIdempotent(p.propertyName);
  }

  /** A term made only of white space is not empty, yet trims to "" and so keeps every listing. */
  lemma BlankLocationKeepsAll(p: Property, term: string)
    requires AllWhiteSpace(term)
    ensures LocationOk(p, Some(term))
  {
    ToLowerWhiteSpace(term);
    ContainsEmpty(ToLower(p.city));
  }

  /** White space around the term is ignored. */
  lemma LocationIgnoresPadding(p: Property, w: string, term: string, w': string)
    requires AllWhiteSpace(w) && AllWhiteSpace(w')
    ensures LocationOk(p, Some(w + term + w')) == LocationOk(p, Some(term))
  {
    ToLowerAppend(w + term, w');
    ToLowerAppend(w, term);
    ToLowerWhiteSpace(w);
    ToLowerWhiteSpace(w');
    TrimIgnoresPadding(w, ToLower(term), w');
    assert NormalizeTerm(w + term + w') == NormalizeTerm(term);
    if term == [] {
      ContainsEmpty(ToLower(p.city));
    }
  }

  // ------------------------------------------------- thresholds and flags

  predicate GuestsOk(p: Property, guests: Option<int>)
  {
    guests.None? || p.guestsAllowed >= guests.value
  }

  predicate CategoryOk(p: Property, categoryId: Option<int>)
  {
    categoryId.None? || p.categoryId == categoryId.value
  }

  predicate MinPriceOk(p: Property, minPrice: Option<real>)
  {
    minPrice.None? || p.weekdayPrice >= minPrice.value
  }

  predicate MaxPriceOk(p: Property, maxPrice: Option<real>)
  {
    maxPrice.None? || p.weekdayPrice <= maxPrice.value
  }

  predicate MinBedroomsOk(p: Property, minBedrooms: Option<int>)
  {
    minBedrooms.None? || p.bedrooms >= minBedrooms.value
  }

  predicate MinBathroomsOk(p: Property, minBathrooms: Option<int>)
  {
    minBathrooms.None? || p.bathrooms >= minBathrooms.value
  }

  predicate PetsAllowedOk(p: Property, petsAllowed: Option<bool>)
  {
    petsAllowed.None? || p.petsAllowed == petsAllowed.value
  }

  predicate FreeParkingOk(p: Property, freeParking: Option<bool>)
  {
    freeParking.None? || p.freeParking == freeParking.value
  }

  /** No price passes a minimum above the maximum: the two bounds are simply intersected. */
  lemma PriceWindowEmpty(p: Property, minPrice: real, maxPrice: real)
    requires minPrice > maxPrice
    ensures !(MinPriceOk(p, Some(minPrice)) && MaxPriceOk(p, Some(maxPrice)))
  {
  }

  // ----------------------------------------------------------- availability

  /** One reservation blocks the requested stay: it is active and one of the three cases holds. */
  predicate Conflicts(checkIn: int, checkOut: int, r: Reservation)
  {
    r.reservationStatus &&
    ((checkIn >= r.checkIn && checkIn < r.checkOut) ||
     (checkOut > r.checkIn && checkOut <= r.checkOut) ||
     (checkIn <= r.checkIn && checkOut >= r.checkOut))
  }

  /** No reservation of the listing blocks the stay. */
  predicate Available(reservations: seq<Reservation>, checkIn: int, checkOut: int)
  {
    forall r :: r in reservations ==> !Conflicts(checkIn, checkOut, r)
  }

  /** Availability is checked only when both dates are given. */
  predicate AvailabilityOk(p: Property, checkIn: Option<int>, checkOut: Option<int>)
  {
    !(checkIn.Some? && checkOut.Some?) || Available(p.reservations, checkIn.value, checkOut.value)
  }

  /** Standard overlap of the half-open ranges [a0, a1) and [b0, b1). */
  predicate Overlaps(a0: int, a1: int, b0: int, b1: int)
  {
    a0 < b1 && b0 < a1
  }

  predicate IsActive(r: Reservation)
  {
    r.reservationStatus
  }

  /** For non-empty ranges the three cases together are exactly the standard overlap. */
  lemma ConflictsIffOverlaps(checkIn: int, checkOut: int, r: Reservation)
    requires checkIn < checkOut && r.checkIn < r.checkOut
    ensures Conflicts(checkIn, checkOut, r) <==>
      r.reservationStatus && Overlaps(checkIn, checkOut, r.checkIn, r.checkOut)
  {
  }

  /** Back-to-back stays, on either side of a reservation, do not conflict with it. */
  lemma BackToBackStaysDoNotConflict(checkIn: int, checkOut: int, r: Reservation)
    requires checkIn < checkOut && r.checkIn < r.checkOut
    ensures checkIn == r.checkOut ==> !Conflicts(checkIn, checkOut, r)
    ensures checkOut == r.checkIn ==> !Conflicts(checkIn, checkOut, r)
  {
  }

  /** For non-empty ranges the conflict test is symmetric in the two stays. */
  lemma ConflictsSymmetric(a0: int, a1: int, b0: int, b1: int)
    requires a0 < a1 && b0 < b1
    ensures Conflicts(a0, a1, Reservation(b0, b1, true)) == Conflicts(b0, b1, Reservation(a0, a1, true))
  {
    ConflictsIffOverlaps(a0, a1, Reservation(b0, b1, true));
    ConflictsIffOverlaps(b0, b1, Reservation(a0, a1, true));
  }

  /** A listing is unavailable exactly when one of its active reservations overlaps the stay. */
  lemma UnavailableIffActiveOverlap(reservations: seq<Reservation>, checkIn: int, checkOut: int)
    requires checkIn < checkOut
    requires forall r :: r in reservations ==> r.checkIn < r.checkOut
    ensures !Available(reservations, checkIn, checkOut) <==>
      exists r :: r in reservations && r.reservationStatus && Overlaps(checkIn, checkOut, r.checkIn, r.checkOut)
  {
    forall r | r in reservations {
      ConflictsIffOverlaps(checkIn, checkOut, r);
    }
  }

  /** Cancelled reservations never matter: availability is decided by the active ones alone. */
  lemma {:induction false} CancelledReservationsIgnored(reservations: seq<Reservation>, checkIn: int, checkOut: int)
    ensures Available(reservations, checkIn, checkOut) ==
      Available(Where(reservations, IsActive), checkIn, checkOut)
  {
    WhereMembers(reservations, IsActive);
  }

  /**
   A listing with an active reservation for days [10, 15) and a cancelled one
   for [1, 5): a stay of [12, 20) is refused (it starts inside the active
   reservation), and a stay of [1, 5) is accepted (it meets only the cancelled one).
   */
  lemma AvailabilityExample()
    ensures !Available([Reservation(10, 15, true), Reservation(1, 5, false)], 12, 20)
    ensures Available([Reservation(10, 15, true), Reservation(1, 5, false)], 1, 5)
  {
    assert Reservation(10, 15, true) in [Reservation(10, 15, true), Reservation(1, 5, false)];
  }

  // ---------------------------------------------------------------- rating

  predicate NotDisputed(r: Review)
  {
    !r.disputeStatus
  }

  /** `Reviews.Where(r => !r.DisputeStatus)`. */
  function Undisputed(reviews: seq<Review>): seq<Review>
  {
    Where(reviews, NotDisputed)
  }

  function RatingSum(reviews: seq<Review>): int
  {
    if reviews == [] then 0 else reviews[0].rating + RatingSum(reviews[1..])
  }

  /** The total by which the ratings exceed `minRating`: the sum of `rating - minRating`. */
  function Excess(reviews: seq<Review>, minRating: real): real
  {
    if reviews == [] then 0.0 else (reviews[0].rating as real - minRating) + Excess(reviews[1..], minRating)
  }

  /**
   `Reviews.Any() && average of the undisputed ratings >= minRating`, written
   without division: the mean reaches the threshold exactly when the ratings'
   total excess over it is not negative. An average over no undisputed review
   is a database NULL, which fails the comparison.
   */
  predicate RatingMeets(reviews: seq<Review>, minRating: real)
  {
    var u := Undisputed(reviews);
    |reviews| > 0 && |u| > 0 && Excess(u, minRating) >= 0.0
  }

  predicate RatingOk(p: Property, minRating: Option<real>)
  {
    minRating.None? || RatingMeets(p.reviews, minRating.value)
  }

  /** The arithmetic mean of the undisputed ratings. */
  ghost function MeanRating(reviews: seq<Review>): real
    requires |Undisputed(reviews)| > 0
  {
    RatingSum(Undisputed(reviews)) as real / |Undisputed(reviews)| as real
  }

  /** The rating filter is the mean test: some review exists and the undisputed ratings average at least `minRating`. */
  lemma RatingMeetsIffMean(reviews: seq<Review>, minRating: real)
    ensures RatingMeets(reviews, minRating) <==>
      |reviews| > 0 && |Undisputed(reviews)| > 0 && MeanRating(reviews) >= minRating
  {
    var u := Undisputed(reviews);
    if |u| > 0 {
      ExcessIsSumMinusThreshold(u, minRating);
      DivisionFreeMean(RatingSum(u) as real, |u| as real, minRating);
    }
  }

  lemma {:induction false} ExcessIsSumMinusThreshold(reviews: seq<Review>, m: real)
    ensures Excess(reviews, m) == RatingSum(reviews) as real - m * |reviews| as real
  {
    if reviews != [] {
      ExcessIsSumMinusThreshold(reviews[1..], m);
      assert m * |reviews| as real == m * |reviews[1..]| as real + m;
    }
  }

  lemma DivisionFreeMean(sum: real, n: real, m: real)
    requires n > 0.0
    ensures sum - m * n >= 0.0 <==> sum / n >= m
  {
    assert (sum / n) * n == sum;
    if sum / n >= m {
      assert (sum / n) * n >= m * n;
    }
    if sum >= m * n {
      assert (sum / n) * n >= m * n;
    }
  }

  /** A listing without an undisputed review (in particular, with no review) fails every threshold, 0 included. */
  lemma NoUndisputedReviewFails(reviews: seq<Review>, minRating: real)
    requires forall r :: r in reviews ==> r.disputeStatus
    ensures !RatingMeets(reviews, minRating)
  {
    WhereMembers(reviews, NotDisputed);
  }

  /** Adding or removing a disputed review never changes the outcome of the rating filter. */
  lemma DisputedReviewIgnored(a: seq<Review>, d: Review, b: seq<Review>, minRating: real)
    requires d.disputeStatus
    ensures Undisputed(a + [d] + b) == Undisputed(a + b)
    ensures RatingMeets(a + [d] + b, minRating) == RatingMeets(a + b, minRating)
  {
    WhereAppend(a + [d], b, NotDisputed);
    WhereAppend(a, [d], NotDisputed);
    WhereAppend(a, b, NotDisputed);
    assert Where([d], NotDisputed) == [];
    assert Undisputed(a) + [] == Undisputed(a);
    SameUndisputedSameRating(a + [d] + b, a + b, minRating);
  }

  /** The rating filter sees only the undisputed reviews. */
  lemma SameUndisputedSameRating(reviews: seq<Review>, reviews': seq<Review>, minRating: real)
    requires Undisputed(reviews) == Undisputed(reviews')
    ensures RatingMeets(reviews, minRating) == RatingMeets(reviews', minRating)
  {
    var u := Undisputed(reviews);
    if |u| > 0 {
      assert u[0] in reviews && u[0] in reviews' by {
        WhereMembers(reviews, NotDisputed);
        WhereMembers(reviews', NotDisputed);
        assert u[0] in u;
      }
    }
  }

  lemma {:induction false} ExcessNotNegative(reviews: seq<Review>, m: real)
    requires forall r :: r in reviews ==> r.rating as real >= m
    ensures Excess(reviews, m) >= 0.0
  {
    if reviews != [] {
      assert reviews[0] in reviews;
      ExcessNotNegative(reviews[1..], m);
    }
  }

  lemma {:induction false} ExcessNegative(reviews: seq<Review>, m: real)
    requires reviews != []
    requires forall r :: r in reviews ==> r.rating as real < m
    ensures Excess(reviews, m) < 0.0
  {
    assert reviews[0] in reviews;
    if |reviews| > 1 {
      ExcessNegative(reviews[1..], m);
    }
  }

  /** A threshold that no undisputed rating falls below is met, provided there is an undisputed review. */
  lemma ThresholdBelowEveryRatingMet(reviews: seq<Review>, minRating: real)
    requires exists r :: r in reviews && !r.disputeStatus
    requires forall r :: r in reviews && !r.disputeStatus ==> r.rating as real >= minRating
    ensures RatingMeets(reviews, minRating)
  {
    var u := Undisputed(reviews);
    var r :| r in reviews && !r.disputeStatus;
    WhereMembers(reviews, NotDisputed);
    assert r in u;
    ExcessNotNegative(u, minRating);
  }

  /** A threshold above every undisputed rating is never met. */
  lemma ThresholdAboveEveryRatingFails(reviews: seq<Review>, minRating: real)
    requires forall r :: r in reviews && !r.disputeStatus ==> r.rating as real < minRating
    ensures !RatingMeets(reviews, minRating)
  {
    var u := Undisputed(reviews);
    WhereMembers(reviews, NotDisputed);
    if u != [] {
      ExcessNegative(u, minRating);
    }
  }

  /**
   Reviews rated 5 (undisputed) and 1 (disputed) meet a threshold of 4: the
   disputed one is left out and the mean is 5. With no undisputed review even
   a threshold of 0 is not met.
   */
  lemma RatingExample()
    ensures RatingMeets([Review(5, false), Review(1, true)], 4.0)
    ensures !RatingMeets([Review(5, true)], 0.0)
  {
    assert Undisputed([Review(5, false), Review(1, true)]) == [Review(5, false)];
    assert Undisputed([Review(5, true)]) == [];
  }

  // ------------------------------------------------------- all criteria

  /** Every supplied criterion, AND-combined, on top of the base visibility rule. */
  predicate Matches(p: Property, c: Criteria)
  {
    Visible(p) &&
    LocationOk(p, c.location) &&
    GuestsOk(p, c.guests) &&
    CategoryOk(p, c.categoryId) &&
    MinPriceOk(p, c.minPrice) &&
    MaxPriceOk(p, c.maxPrice) &&
    MinBedroomsOk(p, c.minBedrooms) &&
    MinBathroomsOk(p, c.minBathrooms) &&
    PetsAllowedOk(p, c.petsAllowed) &&
    FreeParkingOk(p, c.freeParking) &&
    AvailabilityOk(p, c.checkIn, c.checkOut) &&
    RatingOk(p, c.minRating)
  }
}
