/**
 * The admin hotel routes: POST adds a hotel to a city, PUT merges updates into
 * one hotel, DELETE removes one. Each loads the document, searches it
 * linearly, changes it in place and writes it back; a failed validation or
 * search answers 400 or 404 and writes nothing.
 */
module HotelsRoute {
  import opened Wrappers
  import opened Catalog

  /** The JSON reply: `{success: true, data}` or `{success: false, error}` with an HTTP status. */
  datatype Reply = Ok(data: Hotel) | Fail(status: int, error: string)

  /** The document after a request and the reply sent. */
  datatype Outcome = Outcome(cities: seq<City>, reply: Reply)

  const MissingFields := "Missing required fields"
  const MissingParameters := "Missing required parameters"
  const CityNotFound := "City not found"
  const HotelNotFound := "Hotel not found"

  /** A JSON string field that is present and non-empty (JavaScript truthiness of a string). */
  predicate Truthy(s: Option<string>) {
    s.Some? && s.value != ""
  }

  /** `price || null`: 0 and null are falsy, so both become null. */
  function PriceOrNull(p: Option<int>): Option<int> {
    if p == Some(0) then None else p
  }

  /** The `hotel` object of a POST body; None stands for an absent or null field. */
  datatype HotelInput = HotelInput(
    name: Option<string>,
    price2: Option<int>,
    price3: Option<int>,
    image: Option<string>,
    link: Option<string>,
    notes: Option<string>)

  /**
   * The `updates` object of a PUT body: for each field, None when the key is
   * absent, Some(v) when the key is present with value v (which may itself be
   * null, except for the name, which is always a string here). Keys outside
   * these six are not modelled.
   */
  datatype HotelPatch = HotelPatch(
    name: Option<string>,
    price2: Option<Option<int>>,
    price3: Option<Option<int>>,
    image: Option<Option<string>>,
    link: Option<Option<string>>,
    notes: Option<Option<string>>)

  // ---------- the searches ----------

  /** `cities.find(c => c.id === id)`, as an index: the first city with that id, or -1. */
  function FirstCity(cities: seq<City>, id: string): (k: int)
    ensures -1 <= k < |cities|
    ensures k >= 0 ==> cities[k].id == id && forall j :: 0 <= j < k ==> cities[j].id != id
    ensures k == -1 <==> forall j :: 0 <= j < |cities| ==> cities[j].id != id
  {
    if cities == [] then -1
    else if cities[0].id == id then 0
    else var k := FirstCity(cities[1..], id); if k == -1 then -1 else k + 1
  }

  /** `hotels.findIndex(h => h.id === id)`: the first hotel with that id, or -1. */
  function FirstHotel(hotels: seq<Hotel>, id: string): (k: int)
    ensures -1 <= k < |hotels|
    ensures k >= 0 ==> hotels[k].id == id && forall j :: 0 <= j < k ==> hotels[j].id != id
    ensures k == -1 <==> forall j :: 0 <= j < |hotels| ==> hotels[j].id != id
  {
    if hotels == [] then -1
    else if hotels[0].id == id then 0
    else var k := FirstHotel(hotels[1..], id); if k == -1 then -1 else k + 1
  }

  method FindCity(cities: seq<City>, id: string) returns (k: int)
    ensures k == FirstCity(cities, id)
  {
    k := 0;
    while k < |cities| && cities[k].id != id
      invariant 0 <= k <= |cities|
      invariant forall j :: 0 <= j < k ==> cities[j].id != id
    {
      k := k + 1;
    }
    if k == |cities| {
      k := -1;
    }
  }

  method FindHotel(hotels: seq<Hotel>, id: string) returns (k: int)
    ensures k == FirstHotel(hotels, id)
  {
    k := 0;
    while k < |hotels| && hotels[k].id != id
      invariant 0 <= k <= |hotels|
      invariant forall j :: 0 <= j < k ==> hotels[j].id != id
    {
      k := k + 1;
    }
    if k == |hotels| {
      k := -1;
    }
  }

  // ---------- record building ----------

  /** The hotel POST stores: the given name, falsy prices as null, falsy strings as ''. */
  function NewHotel(id: string, h: HotelInput): Hotel
    requires h.name.Some?
  {
    Hotel(id, h.name.value, PriceOrNull(h.price2), PriceOrNull(h.price3),
          Some(h.image.GetOr("")), Some(h.link.GetOr("")), Some(h.notes.GetOr("")))
  }

  /** `{...old, ...updates, id}`: each field from `updates` when the key is present, else from `base`. */
  function Merge(base: Hotel, p: HotelPatch, id: string): Hotel {
    Hotel(id, p.name.GetOr(base.name), p.price2.GetOr(base.price2), p.price3.GetOr(base.price3),
          p.image.GetOr(base.image), p.link.GetOr(base.link), p.notes.GetOr(base.notes))
  }

  /** `hotels.splice(k, 1)` leaves this behind. */
  function RemoveAt(hotels: seq<Hotel>, k: nat): seq<Hotel>
    requires k < |hotels|
  {
    hotels[..k] + hotels[k + 1..]
  }

  // ---------- the requests, as functions of the document ----------

  function PostSpec(cities: seq<City>, cityId: Option<string>, hotel: Option<HotelInput>, newId: string): Outcome {
    if !Truthy(cityId) || hotel.None? || !Truthy(hotel.value.name) then
      Outcome(cities, Fail(400, MissingFields))
    else
      var k := FirstCity(cities, cityId.value);
      if k == -1 then Outcome(cities, Fail(404, CityNotFound))
      else
        var h := NewHotel(newId, hotel.value);
        Outcome(cities[k := cities[k].(hotels := cities[k].hotels + [h])], Ok(h))
  }

  function PutSpec(cities: seq<City>, cityId: Option<string>, hotelId: Option<string>, updates: Option<HotelPatch>): Outcome {
    if !Truthy(cityId) || !Truthy(hotelId) || updates.None? then
      Outcome(cities, Fail(400, MissingFields))
    else
      var k := FirstCity(cities, cityId.value);
      if k == -1 then Outcome(cities, Fail(404, CityNotFound))
      else
        var hs := cities[k].hotels;
        var i := FirstHotel(hs, hotelId.value);
        if i == -1 then Outcome(cities, Fail(404, HotelNotFound))
        else
          var h := Merge(hs[i], updates.value, hotelId.value);
          Outcome(cities[k := cities[k].(hotels := hs[i := h])], Ok(h))
  }

  function DeleteSpec(cities: seq<City>, cityId: Option<string>, hotelId: Option<string>): Outcome {
    if !Truthy(cityId) || !Truthy(hotelId) then
      Outcome(cities, Fail(400, MissingParameters))
    else
      var k := FirstCity(cities, cityId.value);
      if k == -1 then Outcome(cities, Fail(404, CityNotFound))
      else
        var hs := cities[k].hotels;
        var i := FirstHotel(hs, hotelId.value);
        if i == -1 then Outcome(cities, Fail(404, HotelNotFound))
        else Outcome(cities[k := cities[k].(hotels := RemoveAt(hs, i))], Ok(hs[i]))
  }

  // ---------- the handlers, changing the loaded document in place ----------

  /** POST /api/hotels. `newId` stands for the generated `hotel_<time>_<random>` id. */
  method Post(doc: Document, cityId: Option<string>, hotel: Option<HotelInput>, newId: string) returns (reply: Reply)
    modifies doc
    ensures Outcome(doc.cities, reply) == PostSpec(old(doc.cities), cityId, hotel, newId)
  {
    if !Truthy(cityId) || hotel.None? || !Truthy(hotel.value.name) {
      return Fail(400, MissingFields);
    }
    var k := FindCity(doc.cities, cityId.value);
    if k == -1 {
      return Fail(404, CityNotFound);
    }
    var h := NewHotel(newId, hotel.value);
    var city := doc.cities[k];
    doc.cities := doc.cities[k := city.(hotels := city.hotels + [h])];
    return Ok(h);
  }

  /** PUT /api/hotels. */
  method Put(doc: Document, cityId: Option<string>, hotelId: Option<string>, updates: Option<HotelPatch>) returns (reply: Reply)
    modifies doc
    ensures Outcome(doc.cities, reply) == PutSpec(old(doc.cities), cityId, hotelId, updates)
  {
    if !Truthy(cityId) || !Truthy(hotelId) || updates.None? {
      return Fail(400, MissingFields);
    }
    var k := FindCity(doc.cities, cityId.value);
    if k == -1 {
      return Fail(404, CityNotFound);
    }
    var city := doc.cities[k];
    var i := FindHotel(city.hotels, hotelId.value);
    if i == -1 {
      return Fail(404, HotelNotFound);
    }
    var h := Merge(city.hotels[i], updates.value, hotelId.value);
    doc.cities := doc.cities[k := city.(hotels := city.hotels[i := h])];
    return Ok(h);
  }

  /** DELETE /api/hotels?cityId=&hotelId= (query parameters are absent or strings). */
  method Delete(doc: Document, cityId: Option<string>, hotelId: Option<string>) returns (reply: Reply)
    modifies doc
    ensures Outcome(doc.cities, reply) == DeleteSpec(old(doc.cities), cityId, hotelId)
  {
    if !Truthy(cityId) || !Truthy(hotelId) {
      return Fail(400, MissingParameters);
    }
    var k := FindCity(doc.cities, cityId.value);
    if k == -1 {
      return Fail(404, CityNotFound);
    }
    var city := doc.cities[k];
    var i := FindHotel(city.hotels, hotelId.value);
    if i == -1 {
      return Fail(404, HotelNotFound);
    }
    var removed := city.hotels[i];
    doc.cities := doc.cities[k := city.(hotels := RemoveAt(city.hotels, i))];
    return Ok(removed);
  }

  // ---------- properties ----------

  /** Every failed request leaves the document as it was, and only 400 and 404 occur. */
  lemma {:induction false} FailuresChangeNothing(cities: seq<City>, cityId: Option<string>, hotelId: Option<string>,
                              hotel: Option<HotelInput>, updates: Option<HotelPatch>, newId: string)
    ensures PostSpec(cities, cityId, hotel, newId).reply.Fail? ==>
      PostSpec(cities, cityId, hotel, newId).cities == cities
      && PostSpec(cities, cityId, hotel, newId).reply.status in {400, 404}
    ensures PutSpec(cities, cityId, hotelId, updates).reply.Fail? ==>
      PutSpec(cities, cityId, hotelId, updates).cities == cities
      && PutSpec(cities, cityId, hotelId, updates).reply.status in {400, 404}
    ensures DeleteSpec(cities, cityId, hotelId).reply.Fail? ==>
      DeleteSpec(cities, cityId, hotelId).cities == cities
      && DeleteSpec(cities, cityId, hotelId).reply.status in {400, 404}
  {
  }

  /** POST succeeds exactly when the required fields are truthy and some city has the given id. */
  lemma {:induction false} PostSucceedsIff(cities: seq<City>, cityId: Option<string>, hotel: Option<HotelInput>, newId: string)
    ensures PostSpec(cities, cityId, hotel, newId).reply.Ok? <==>
      Truthy(cityId) && hotel.Some? && Truthy(hotel.value.name)
      && exists j :: 0 <= j < |cities| && cities[j].id == cityId.value
  {
  }

  /**
   * A successful POST appends exactly one hotel, the one it returns, at the end
   * of the first city with that id; every other city, and every hotel already there, is unchanged.
   */
  lemma {:induction false} PostAppendsOne(cities: seq<City>, cityId: Option<string>, hotel: Option<HotelInput>, newId: string)
    requires PostSpec(cities, cityId, hotel, newId).reply.Ok?
    ensures var r := PostSpec(cities, cityId, hotel, newId);
      var k := FirstCity(cities, cityId.value);
      && 0 <= k && |r.cities| == |cities|
      && r.cities[k].hotels == cities[k].hotels + [r.reply.data]
      && r.cities[k].(hotels := cities[k].hotels) == cities[k]
      && forall j :: 0 <= j < |cities| && j != k ==> r.cities[j] == cities[j]
  {
  }

  /**
   * The stored hotel carries the generated id and the given name; a price is
   * null exactly when it was null or 0, and image, link and notes are '' when
   * they were absent, null or '', otherwise the given text.
   */
  lemma {:induction false} NewHotelFields(id: string, h: HotelInput)
    requires h.name.Some?
    ensures var r := NewHotel(id, h);
      && r.id == id && r.name == h.name.value
      && (r.price2 == None <==> h.price2 in {None, Some(0)})
      && (r.price3 == None <==> h.price3 in {None, Some(0)})
      && (r.price2.Some? ==> r.price2 == h.price2)
      && (r.price3.Some? ==> r.price3 == h.price3)
      && (r.image == Some("") <==> !Truthy(h.image)) && (Truthy(h.image) ==> r.image == h.image)
      && (r.link == Some("") <==> !Truthy(h.link)) && (Truthy(h.link) ==> r.link == h.link)
      && (r.notes == Some("") <==> !Truthy(h.notes)) && (Truthy(h.notes) ==> r.notes == h.notes)
  {
  }

  /** PUT and DELETE succeed exactly when both ids are truthy (and PUT has updates) and the city holds a hotel with that id. */
  lemma {:induction false} PutDeleteSucceedIff(cities: seq<City>, cityId: Option<string>, hotelId: Option<string>, updates: Option<HotelPatch>)
    ensures DeleteSpec(cities, cityId, hotelId).reply.Ok? <==>
      Truthy(cityId) && Truthy(hotelId) && FirstCity(cities, cityId.value) >= 0
      && exists i :: 0 <= i < |cities[FirstCity(cities, cityId.value)].hotels|
                     && cities[FirstCity(cities, cityId.value)].hotels[i].id == hotelId.value
    ensures PutSpec(cities, cityId, hotelId, updates).reply.Ok? <==>
      DeleteSpec(cities, cityId, hotelId).reply.Ok? && updates.Some?
  {
  }

  /**
   * A successful PUT keeps the number of hotels and changes only the first
   * hotel with that id: each field comes from the updates when present, else
   * from the old record, and the id is the requested one.
   */
  lemma {:induction false} PutReplacesFirstMatch(cities: seq<City>, cityId: Option<string>, hotelId: Option<string>, updates: Option<HotelPatch>)
    requires PutSpec(cities, cityId, hotelId, updates).reply.Ok?
    ensures var r := PutSpec(cities, cityId, hotelId, updates);
      var k := FirstCity(cities, cityId.value);
      var i := FirstHotel(cities[k].hotels, hotelId.value);
      var h, u, was := r.reply.data, updates.value, cities[k].hotels[i];
      && |r.cities| == |cities| && |r.cities[k].hotels| == |cities[k].hotels|
      && r.cities[k].hotels[i] == h
      && (forall j :: 0 <= j < |cities| && j != k ==> r.cities[j] == cities[j])
      && (forall j :: 0 <= j < |cities[k].hotels| && j != i ==> r.cities[k].hotels[j] == cities[k].hotels[j])
      && h.id == hotelId.value == was.id
      && h.name == (if u.name.Some? then u.name.value else was.name)
      && h.price2 == (if u.price2.Some? then u.price2.value else was.price2)
      && h.price3 == (if u.price3.Some? then u.price3.value else was.price3)
      && h.image == (if u.image.Some? then u.image.value else was.image)
      && h.link == (if u.link.Some? then u.link.value else was.link)
      && h.notes == (if u.notes.Some? then u.notes.value else was.notes)
  {
  }

  /** A PUT whose `updates` is `{}` answers with the hotel as stored and changes nothing. */
  lemma {:induction false} PutEmptyUpdatesChangesNothing(cities: seq<City>, cityId: Option<string>, hotelId: Option<string>)
    requires PutSpec(cities, cityId, hotelId, Some(HotelPatch(None, None, None, None, None, None))).reply.Ok?
    ensures PutSpec(cities, cityId, hotelId, Some(HotelPatch(None, None, None, None, None, None))).cities == cities
  {
    var k := FirstCity(cities, cityId.value);
    var i := FirstHotel(cities[k].hotels, hotelId.value);
    assert cities[k].hotels[i := cities[k].hotels[i]] == cities[k].hotels;
    assert cities[k := cities[k].(hotels := cities[k].hotels)] == cities;
  }

  /** Repeating a successful PUT changes nothing further. */
  lemma {:induction false} PutIdempotent(cities: seq<City>, cityId: Option<string>, hotelId: Option<string>, updates: Option<HotelPatch>)
    requires PutSpec(cities, cityId, hotelId, updates).reply.Ok?
    ensures var once := PutSpec(cities, cityId, hotelId, updates);
      PutSpec(once.cities, cityId, hotelId, updates) == once
  {
    var once := PutSpec(cities, cityId, hotelId, updates);
    var k := FirstCity(cities, cityId.value);
    var i := FirstHotel(cities[k].hotels, hotelId.value);
    FirstCityIgnoresHotels(cities, k, once.cities[k].hotels, cityId.value);
    FirstHotelAfterUpdate(cities[k].hotels, i, once.reply.data, hotelId.value);
    var again := once.cities[k].hotels[i := once.reply.data];
    assert again == once.cities[k].hotels;
    assert once.cities[k := once.cities[k].(hotels := again)] == once.cities;
  }

  /**
   * A successful DELETE returns the first hotel with that id and removes exactly
   * it: the city's list shrinks by one, the other hotels keep their relative
   * order, and every other city is unchanged.
   */
  lemma {:induction false} DeleteRemovesFirstMatch(cities: seq<City>, cityId: Option<string>, hotelId: Option<string>)
    requires DeleteSpec(cities, cityId, hotelId).reply.Ok?
    ensures var r := DeleteSpec(cities, cityId, hotelId);
      var k := FirstCity(cities, cityId.value);
      var i := FirstHotel(cities[k].hotels, hotelId.value);
      var before, after := cities[k].hotels, r.cities[k].hotels;
      && r.reply.data == before[i] && r.reply.data.id == hotelId.value
      && |r.cities| == |cities| && |after| == |before| - 1
      && after == before[..i] + before[i + 1..]
      && multiset(after) + multiset{r.reply.data} == multiset(before)
      && r.cities[k].(hotels := before) == cities[k]
      && (forall j :: 0 <= j < |cities| && j != k ==> r.cities[j] == cities[j])
  {
    var k := FirstCity(cities, cityId.value);
    var i := FirstHotel(cities[k].hotels, hotelId.value);
    var before := cities[k].hotels;
    assert before == before[..i] + [before[i]] + before[i + 1..];
  }

  /** Deleting the hotel a POST just added restores the document, provided its id was new in that city. */
  lemma {:induction false} DeleteUndoesPost(cities: seq<City>, cityId: Option<string>, hotel: Option<HotelInput>, newId: string)
    requires PostSpec(cities, cityId, hotel, newId).reply.Ok?
    requires newId != ""
    requires forall h :: h in cities[FirstCity(cities, cityId.value)].hotels ==> h.id != newId
    ensures var posted := PostSpec(cities, cityId, hotel, newId);
      DeleteSpec(posted.cities, cityId, Some(newId)) == Outcome(cities, posted.reply)
  {
    var posted := PostSpec(cities, cityId, hotel, newId);
    var k := FirstCity(cities, cityId.value);
    var hs := cities[k].hotels;
    var h := posted.reply.data;
    FirstCityIgnoresHotels(cities, k, hs + [h], cityId.value);
    FirstHotelAppended(hs, h, newId);
    assert RemoveAt(hs + [h], |hs|) == hs;
    assert cities[k := cities[k].(hotels := hs + [h])][k := cities[k].(hotels := hs)] == cities;
  }

  // ---------- search lemmas ----------

  /** Changing the hotels of one city does not move the first city with a given id. */
  lemma {:induction false} FirstCityIgnoresHotels(cities: seq<City>, k: nat, hs: seq<Hotel>, id: string)
    requires k < |cities|
    ensures FirstCity(cities[k := cities[k].(hotels := hs)], id) == FirstCity(cities, id)
  {
    var c := cities[k := cities[k].(hotels := hs)];
    assert forall j :: 0 <= j < |cities| ==> c[j].id == cities[j].id;
  }

  /** Overwriting the first match with a record of the same id keeps it the first match. */
  lemma {:induction false} FirstHotelAfterUpdate(hs: seq<Hotel>, i: nat, h: Hotel, id: string)
    requires i < |hs| && FirstHotel(hs, id) == i && h.id == id
    ensures FirstHotel(hs[i := h], id) == i
  {
    FirstHotelIs(hs[i := h], id, i);
  }

  /** An id that none of `hs` carries is found at the end of `hs + [h]`. */
  lemma {:induction false} FirstHotelAppended(hs: seq<Hotel>, h: Hotel, id: string)
    requires h.id == id && forall x :: x in hs ==> x.id != id
    ensures FirstHotel(hs + [h], id) == |hs|
  {
    assert forall j :: 0 <= j < |hs| ==> (hs + [h])[j] in hs;
    FirstHotelIs(hs + [h], id, |hs|);
  }

  /** Position `k` is the first match when it matches and nothing before it does. */
  lemma {:induction false} FirstHotelIs(hs: seq<Hotel>, id: string, k: nat)
    requires k < |hs| && hs[k].id == id && forall j :: 0 <= j < k ==> hs[j].id != id
    ensures FirstHotel(hs, id) == k
  {
    if k > 0 {
      FirstHotelIs(hs[1..], id, k - 1);
    }
  }
}
