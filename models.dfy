/**
 The entities the property search reads, with the field shapes the controller
 uses. Dates are day (or tick) ordinals; `decimal` prices and thresholds are reals.
 */
module Models {
  import opened Wrappers

  datatype Review = Review(rating: int, disputeStatus: bool)

  /** A booking of a property; `reservationStatus` is false once it is cancelled. */
  datatype Reservation = Reservation(checkIn: int, checkOut: int, reservationStatus: bool)

  /** A listing, with its category reference and the reviews and reservations loaded with it. */
  datatype Property = Property(
    propertyId: int,
    propertyName: string,
    propertyStatus: bool,
    adminApproved: bool,
    city: string,
    state: string,
    guestsAllowed: int,
    bedrooms: int,
    bathrooms: int,
    weekdayPrice: real,
    petsAllowed: bool,
    freeParking: bool,
    categoryId: int,
    reviews: seq<Review>,
    reservations: seq<Reservation>)

  /** The twelve optional parameters of the search action; `None` is a parameter left null. */
  datatype Criteria = Criteria(
    location: Option<string>,
    checkIn: Option<int>,
    checkOut: Option<int>,
    guests: Option<int>,
    categoryId: Option<int>,
    minPrice: Option<real>,
    maxPrice: Option<real>,
    minBedrooms: Option<int>,
    minBathrooms: Option<int>,
    minRating: Option<real>,
    petsAllowed: Option<bool>,
    freeParking: Option<bool>)

  /** A search request that supplies no criterion at all. */
  const NoCriteria: Criteria :=
    Criteria(None, None, None, None, None, None, None, None, None, None, None, None)
}
