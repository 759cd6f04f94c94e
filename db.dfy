/**
 * The Postgres tables the scripts and the reset route work on, as in-memory
 * sequences of rows in the order a query returns them. SQL NULL is None.
 */
module Db {
  import opened Wrappers

  datatype CityRow = CityRow(id: string, name: string, dates: string)

  datatype HotelRow = HotelRow(
    id: string,
    cityId: string,
    name: string,
    link: Option<string>,
    price2: Option<int>,
    price3: Option<int>,
    image: Option<string>,
    notes: Option<string>)

  /** A row of the `votes` table once it holds selections (`device_id`, `is_selected`). */
  datatype VoteRow = VoteRow(
    id: int,
    hotelId: string,
    cityId: string,
    voterName: string,
    deviceId: Option<string>,
    isSelected: Option<bool>,
    occupancy: int,
    notes: Option<string>)

  class Database {
    var cities: seq<CityRow>
    var hotels: seq<HotelRow>
    var votes: seq<VoteRow>

    constructor (cities: seq<CityRow>, hotels: seq<HotelRow>, votes: seq<VoteRow>)
      ensures this.cities == cities && this.hotels == hotels && this.votes == votes
    {
      this.cities, this.hotels, this.votes := cities, hotels, votes;
    }
  }
}
