/**
 * The trip's JSON document: an ordered list of cities, each holding an ordered
 * list of hotels. The admin routes and the add-hotel script load it, change
 * it in place and write it back.
 */
module Catalog {
  import opened Wrappers

  /**
   * A hotel record. Prices are JSON numbers or `null` (None); `image`, `link`
   * and `notes` are strings or `null` (None): the add-hotel script stores a
   * missing link as `null`, the admin routes store `''`.
   */
  datatype Hotel = Hotel(
    id: string,
    name: string,
    price2: Option<int>,
    price3: Option<int>,
    image: Option<string>,
    link: Option<string>,
    notes: Option<string>)

  datatype City = City(id: string, name: string, dates: string, hotels: seq<Hotel>)

  /** The loaded document; its fields other than `cities` are untouched by every operation modelled here. */
  class Document {
    var cities: seq<City>

    constructor (cities: seq<City>)
      ensures this.cities == cities
    {
      this.cities := cities;
    }
  }

  /** Number of hotels over all cities. */
  function HotelCount(cities: seq<City>): nat {
    if cities == [] then 0 else HotelCount(cities[..|cities| - 1]) + |cities[|cities| - 1].hotels|
  }
}
