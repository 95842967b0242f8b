/**
 The records the component works on: product offers as the product source
 returns them, and the optional-value wrapper used across the model.
 */
module Catalog {

  datatype Option<+T> = None | Some(value: T)

  /**
   One vendor's listing of a product, with the fields of a record from
   `GET /products`. Prices and ratings are exact reals.
   */
  datatype Offer = Offer(
    id: int,
    name: string,
    vendor: string,
    price: real,
    location: string,
    ecoFriendly: bool,
    rating: real,
    imageURL: Option<string>)

  /** The sort keys the component compares on. */
  function PriceOf(o: Offer): (key: real) { o.price }

  function RatingOf(o: Offer): (key: real) { o.rating }

  /** The eco-friendly filter keeps an offer when its flag is set. */
  predicate IsEco(o: Offer) { o.ecoFriendly }
}
