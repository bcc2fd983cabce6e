# Property listing search

This project models, in Dafny, the read-only actions of a property rental
site's `PropertyController`: the listing index, the details lookup and the
property search with its twelve optional criteria. The store is an immutable
snapshot, `seq<Property>`, in store order.

- `Index` lists the properties that are active (`PropertyStatus`) and approved
  by an administrator (`AdminApproved`). It also reports the number of all
  stored properties.
- `Details` looks a property up by id. It returns `NotFound` when the id is
  missing or no stored property has it.
- `Search` starts from the same visible properties and narrows the query
  once for each criterion that is supplied, in the controller's order:
  location, guests, category, minimum and maximum weekday price, minimum
  bedrooms and bathrooms, pets, free parking, availability for a stay, and
  minimum average rating. It reports the total count and the filtered count.

`Search` is an imperative method that reassigns its `query` through the
chain of conditional blocks. It is proved equal to the specification
function `SearchResults`: the stored properties, in store order, that satisfy
`Filters.Matches`, the conjunction of one predicate per criterion. The
per-criterion predicates and the text helpers they use (lower-casing,
trimming, substring search) carry their own lemmas.

Modules:

- `Wrappers`: `Option`.
- `Text`: ASCII `ToLower`, `Trim` with .NET's white-space set, ordinal
  `Contains`.
- `Query`: LINQ's `Where` on sequences.
- `Models`: the entities.
- `Filters`: the criteria predicates.
- `PropertyController`: the three actions.

Dates are integer ordinals. `decimal` prices and rating thresholds are reals.

The controller's `Details` applies no visibility rule: an inactive or
unapproved property is found by its id (`DetailsIgnoresVisibility`).

## Model

| member | source | states |
|---|---|---|
| PropertyController.Index | FinalProject/Controllers/PropertyController.cs:19-32 | The listings are exactly the stored properties that are active and admin-approved, never more than the store holds. The total count is the size of the whole store. |
| PropertyController.FirstWithId | FinalProject/Controllers/PropertyController.cs:42-47 | `FirstOrDefault` by id: the position found holds that id and no earlier position does. None means no stored property has the id. |
| PropertyController.Details | FinalProject/Controllers/PropertyController.cs:35-55 | NotFound exactly when the id is null or no stored property carries it. Otherwise the result is a stored property with that id. |
| PropertyController.DetailsFindsUniqueId | FinalProject/Controllers/PropertyController.cs:42-54 | When ids are unique, looking up a stored property's id returns that very property. |
| PropertyController.DetailsIgnoresVisibility | FinalProject/Controllers/PropertyController.cs:42-47 | The lookup has no status or approval filter: an inactive, unapproved property is still found. |
| PropertyController.Search | FinalProject/Controllers/PropertyController.cs:58-157 | The conditional narrowing chain returns exactly `SearchResults`: the stored properties that match every supplied criterion, in store order. TotalCount is the size of the store; FilteredCount is the number of results. |
| PropertyController.SearchResultsExact | FinalProject/Controllers/PropertyController.cs:72-146 | A property is in the results if and only if it is stored and matches every supplied criterion. There are never more results than stored properties. |
| PropertyController.SearchSoFarIsSearch | FinalProject/Controllers/PropertyController.cs:72-146 | After all eleven narrowing steps, the staged query equals the conjunctive specification `SearchResults`. |
| PropertyController.SearchSoFarMatches | FinalProject/Controllers/PropertyController.cs:72-146 | Narrowing step by step equals one filter by the conjunction of the steps applied so far. |
| PropertyController.SameSearch | FinalProject/Controllers/PropertyController.cs:72-146 | Two criteria sets that accept the same properties give the same results. |
| PropertyController.OnlyVisibleShown | FinalProject/Controllers/PropertyController.cs:25 | Neither the index nor any search ever shows an inactive or unapproved property. |
| PropertyController.NoCriteriaIsIndex | FinalProject/Controllers/PropertyController.cs:72-76 | A search with every parameter null returns exactly the index listing. |
| PropertyController.SearchNarrowsIndex | FinalProject/Controllers/PropertyController.cs:72-146 | Every search is the index listing filtered by the criteria, so it never returns more than the index. |
| PropertyController.InvertedPriceRangeIsEmpty | FinalProject/Controllers/PropertyController.cs:99-107 | A minimum price above the maximum price gives no results. |
| PropertyController.SingleDateIgnored | FinalProject/Controllers/PropertyController.cs:130 | When only one of check-in and check-out is supplied, availability is not filtered. |
| PropertyController.BlankLocationIgnored | FinalProject/Controllers/PropertyController.cs:79-87 | A location made only of white space is not empty, yet after trimming it filters nothing. |
| Filters.LocationMatchesIff | FinalProject/Controllers/PropertyController.cs:82-86 | A property matches a search term exactly when the term is a substring of its lower-cased city, state, "city, state" or name. |
| Filters.LocationCityStateSubsumed | FinalProject/Controllers/PropertyController.cs:83-85 | The separate city and state tests add nothing to the combined "city, state" test. |
| Filters.LocationCaseInsensitive | FinalProject/Controllers/PropertyController.cs:81-86 | Changing the case of the term, or of the property's fields, never changes the location outcome. |
| Filters.BlankLocationKeepsAll | FinalProject/Controllers/PropertyController.cs:79-86 | Every property passes a white-space-only location. |
| Filters.LocationIgnoresPadding | FinalProject/Controllers/PropertyController.cs:81 | White space around the location term does not change the outcome. |
| Filters.PriceWindowEmpty | FinalProject/Controllers/PropertyController.cs:99-107 | No weekday price is both at least a minimum and at most a smaller maximum. |
| Filters.ConflictsIffOverlaps | FinalProject/Controllers/PropertyController.cs:132-136 | For non-empty stays, the three-case conflict test is exactly: the reservation is active and overlaps the requested stay as half-open ranges. |
| Filters.BackToBackStaysDoNotConflict | FinalProject/Controllers/PropertyController.cs:134-136 | A stay that starts on a reservation's check-out day, or ends on its check-in day, does not conflict with it. |
| Filters.ConflictsSymmetric | FinalProject/Controllers/PropertyController.cs:134-136 | For non-empty ranges, whether a stay conflicts with a reservation does not depend on which is which. |
| Filters.UnavailableIffActiveOverlap | FinalProject/Controllers/PropertyController.cs:130-137 | A property is unavailable exactly when one of its active reservations overlaps the requested stay. |
| Filters.CancelledReservationsIgnored | FinalProject/Controllers/PropertyController.cs:133 | Availability is unchanged when the cancelled reservations are dropped. |
| Filters.AvailabilityExample | FinalProject/Controllers/PropertyController.cs:132-136 | An active reservation for [10,15) blocks a stay of [12,20). A cancelled reservation for [1,5) does not block [1,5). |
| Filters.RatingMeetsIffMean | FinalProject/Controllers/PropertyController.cs:140-146 | The rating filter holds exactly when the property has a review and some undisputed review, and the mean undisputed rating is at least the threshold. |
| Filters.ExcessIsSumMinusThreshold | FinalProject/Controllers/PropertyController.cs:145 | The total excess over a threshold equals the rating sum minus threshold times count. |
| Filters.NoUndisputedReviewFails | FinalProject/Controllers/PropertyController.cs:143-145 | A property with no undisputed review fails every threshold, zero included. |
| Filters.DisputedReviewIgnored | FinalProject/Controllers/PropertyController.cs:144 | Inserting a disputed review changes neither the reviews that count nor the outcome. |
| Filters.SameUndisputedSameRating | FinalProject/Controllers/PropertyController.cs:144-145 | Two review lists with the same undisputed reviews give the same outcome. |
| Filters.ThresholdBelowEveryRatingMet | FinalProject/Controllers/PropertyController.cs:143-145 | If some review is undisputed and every undisputed rating reaches the threshold, the property passes. |
| Filters.ThresholdAboveEveryRatingFails | FinalProject/Controllers/PropertyController.cs:143-145 | If every undisputed rating is below the threshold, the property fails. |
| Filters.RatingExample | FinalProject/Controllers/PropertyController.cs:142-145 | Reviews 5 (undisputed) and 1 (disputed) meet a threshold of 4. A single disputed review fails even a threshold of 0. |
| Query.WhereMembers | FinalProject/Controllers/PropertyController.cs:76 | `Where` keeps exactly the elements that satisfy the predicate and is never longer than its input. |
| Query.WhereWhere | FinalProject/Controllers/PropertyController.cs:76 | Filtering by a weaker predicate and then a stronger one equals filtering by the stronger one. |
| Query.WhereAnd | FinalProject/Controllers/PropertyController.cs:82-145 | Two chained `Where` calls equal one `Where` by the conjunction. |
| Text.ToLower | FinalProject/Controllers/PropertyController.cs:81 | Lower-casing keeps the length and maps each character to its lower-case form. |
| Text.ToLowerIdempotent | FinalProject/Controllers/PropertyController.cs:81-86 | A lower-cased string has no upper-case letter, and lower-casing it again changes nothing. |
| Text.Trim | FinalProject/Controllers/PropertyController.cs:81 | The result is a slice of the input with only white space cut off before and after it. It is empty exactly when the input is all white space, and otherwise neither starts nor ends with white space. |
| Text.TrimIgnoresPadding | FinalProject/Controllers/PropertyController.cs:81 | Trimming ignores white space added on either side. |
| Text.ContainsIffOccurs | FinalProject/Controllers/PropertyController.cs:83-86 | The substring search says yes exactly when the term occurs at some position. |
| Text.ContainsInAppend | FinalProject/Controllers/PropertyController.cs:85 | A term found in either part is found in their concatenation. |
| Filters.Visible | FinalProject/Controllers/PropertyController.cs:25 | Definition: the base rule of the index and of the search, active (`PropertyStatus`) and admin-approved. |
| Filters.NormalizeTerm | FinalProject/Controllers/PropertyController.cs:81 | Definition: the location term lower-cased and then trimmed. |
| Filters.LocationMatches | FinalProject/Controllers/PropertyController.cs:82-86 | Definition: the four `Contains` tests on the lower-cased city, state, "city, state" and property name, joined by or. |
| Filters.LocationOk | FinalProject/Controllers/PropertyController.cs:79-87 | Definition: a null or empty location keeps every property; otherwise the normalised term must match. |
| Filters.GuestsOk | FinalProject/Controllers/PropertyController.cs:89-92 | Definition: kept when no guest count is given or `GuestsAllowed` is at least it. |
| Filters.CategoryOk | FinalProject/Controllers/PropertyController.cs:94-97 | Definition: kept when no category is given or the category id equals it. |
| Filters.MinPriceOk | FinalProject/Controllers/PropertyController.cs:99-102 | Definition: kept when no minimum price is given or `WeekdayPrice` is at least it. |
| Filters.MaxPriceOk | FinalProject/Controllers/PropertyController.cs:104-107 | Definition: kept when no maximum price is given or `WeekdayPrice` is at most it. |
| Filters.MinBedroomsOk | FinalProject/Controllers/PropertyController.cs:109-112 | Definition: kept when no bedroom minimum is given or `Bedrooms` is at least it. |
| Filters.MinBathroomsOk | FinalProject/Controllers/PropertyController.cs:114-117 | Definition: kept when no bathroom minimum is given or `Bathrooms` is at least it. |
| Filters.PetsAllowedOk | FinalProject/Controllers/PropertyController.cs:119-122 | Definition: kept when the pets flag is not given or `PetsAllowed` equals it. |
| Filters.FreeParkingOk | FinalProject/Controllers/PropertyController.cs:124-127 | Definition: kept when the parking flag is not given or `FreeParking` equals it. |
| Filters.Conflicts | FinalProject/Controllers/PropertyController.cs:133-136 | Definition: the reservation is active and the stay's check-in falls in it, its check-out falls in it, or it lies within the stay. |
| Filters.Available | FinalProject/Controllers/PropertyController.cs:132 | Definition: `!Reservations.Any(...)`, no reservation of the property conflicts with the stay. |
| Filters.AvailabilityOk | FinalProject/Controllers/PropertyController.cs:130-137 | Definition: availability is tested only when both check-in and check-out are given. |
| Filters.Undisputed | FinalProject/Controllers/PropertyController.cs:144 | Definition: `Reviews.Where(r => !r.DisputeStatus)`. |
| Filters.RatingMeets | FinalProject/Controllers/PropertyController.cs:143-145 | Definition: `Reviews.Any()`, some undisputed review, and the undisputed ratings' total excess over the threshold is not negative (the mean test without division, see `RatingMeetsIffMean`). |
| Filters.RatingOk | FinalProject/Controllers/PropertyController.cs:140-146 | Definition: kept when no minimum rating is given or `RatingMeets` holds. |
| Filters.Matches | FinalProject/Controllers/PropertyController.cs:76-146 | Definition: the conjunction of visibility and the eleven criterion predicates, one per conditional block of the search. |
| PropertyController.SearchResults | FinalProject/Controllers/PropertyController.cs:72-148 | Definition: the search's specification, `Where(store, Matches)`, the stored properties matching every criterion in store order. |
| Query.Where | FinalProject/Controllers/PropertyController.cs:76 | Definition: LINQ `Where` on a sequence, keeping in order the elements that satisfy the predicate (see `WhereMembers`). |
| Text.Contains | FinalProject/Controllers/PropertyController.cs:83-86 | Definition: ordinal `string.Contains`, a scan for a position where the term occurs (see `ContainsIffOccurs`). |

## Left out

- The migrations snapshot (`AppDbContextModelSnapshot.cs`) is database schema and is not part of this model. It declares `DisputeStatus` as a string; the model follows the controller, which treats it as a boolean.
- Entity Framework mechanics are not modelled. This covers `Include`/`ThenInclude` loading, `ToListAsync`/`CountAsync`, translation to SQL, and async/await. The store is an immutable sequence, and related rows (category, reviews, reservations) are fields of the property.
- The host and each review's customer are loaded only for display. They are not modelled.
- `ViewBag.Categories` (the category list for the view) and the MVC view and result plumbing are not modelled. The actions return plain datatypes.
- Text.ToLower: only ASCII letters are lower-cased. Culture-sensitive Unicode case mapping is not modelled.
- Filters.RatingMeets: the mean is an exact real number. Rounding of the `decimal` average is not modelled.
- Filters.RatingMeets: when a property has reviews but every review is disputed, the property is taken as excluded. This is an assumption. The SQL backend averages the empty set to NULL, which fails the comparison; in-memory LINQ would throw instead.
- PropertyController.Search: result order is the store order. The order a database returns rows in is not modelled.
- Dates are integer ordinals. Time of day and time zones are not modelled.
