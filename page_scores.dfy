/**
 * The page's own ratings: a nested score map city id -> hotel id -> stars,
 * looked up with a default of 0 and updated by copying; the progress
 * counters, the list of rated hotels that "submit all" sends, and the search
 * filter over the active city's hotels.
 */
module PageScores {
  import opened Wrappers
  import opened Text
  import opened Catalog
  import VotesRoute

  type Scores = map<string, map<string, int>>

  /** `scores?.[cityId]?.[hotelId] || 0`. */
  function GetScore(scores: Scores, cityId: string, hotelId: string): int {
    if cityId in scores && hotelId in scores[cityId] then scores[cityId][hotelId] else 0
  }

  /** `{...prev, [cityId]: {...(prev[cityId] || {}), [hotelId]: v}}`. */
  function SetScore(scores: Scores, cityId: string, hotelId: string, v: int): Scores {
    scores[cityId := (if cityId in scores then scores[cityId] else map[])[hotelId := v]]
  }

  /** With nothing stored for the pair the score is 0. */
  lemma {:induction false} GetScoreDefaultsToZero(scores: Scores, cityId: string, hotelId: string)
    requires cityId !in scores || hotelId !in scores[cityId]
    ensures GetScore(scores, cityId, hotelId) == 0
  {
  }

  /**
   * Setting a score is read back by GetScore, and changes nothing else: every
   * other city's map and every other hotel's entry stays as it was.
   */
  lemma {:induction false} SetScoreChangesOneEntry(scores: Scores, cityId: string, hotelId: string, v: int)
    ensures var s := SetScore(scores, cityId, hotelId, v);
      && GetScore(s, cityId, hotelId) == v
      && s.Keys == scores.Keys + {cityId}
      && s[cityId].Keys == (if cityId in scores then scores[cityId].Keys else {}) + {hotelId}
      && (forall c :: c in scores && c != cityId ==> s[c] == scores[c])
      && (forall h :: cityId in scores && h in scores[cityId] && h != hotelId ==> s[cityId][h] == scores[cityId][h])
      && (forall c, h :: (c, h) != (cityId, hotelId) ==> GetScore(s, c, h) == GetScore(scores, c, h))
  {
  }

  // ---------- the rated hotels, in catalog order ----------

  /** One rated hotel: the city and hotel records and the stored score. */
  datatype Pick = Pick(city: City, hotel: Hotel, score: int)

  /** The picks among the first hotels of city `c`, in order. */
  function PicksIn(c: City, hotels: seq<Hotel>, scores: Scores): seq<Pick> {
    if hotels == [] then []
    else
      var h := hotels[|hotels| - 1];
      var v := GetScore(scores, c.id, h.id);
      PicksIn(c, hotels[..|hotels| - 1], scores) + (if v > 0 then [Pick(c, h, v)] else [])
  }

  /** One more hotel of a city adds its pick exactly when its score is positive. */
  lemma {:induction false} PicksInStep(c: City, hotels: seq<Hotel>, j: nat, scores: Scores)
    requires j < |hotels|
    ensures GetScore(scores, c.id, hotels[j].id) > 0 ==>
      PicksIn(c, hotels[..j + 1], scores) == PicksIn(c, hotels[..j], scores) + [Pick(c, hotels[j], GetScore(scores, c.id, hotels[j].id))]
    ensures GetScore(scores, c.id, hotels[j].id) <= 0 ==> PicksIn(c, hotels[..j + 1], scores) == PicksIn(c, hotels[..j], scores)
  {
    assert hotels[..j + 1][..j] == hotels[..j];
    var rest := PicksIn(c, hotels[..j], scores);
    assert rest + [] == rest;
  }

  /** The picks over all cities, city by city, hotel by hotel: every hotel whose score is positive. */
  function Picks(cities: seq<City>, scores: Scores): seq<Pick> {
    if cities == [] then []
    else
      var c := cities[|cities| - 1];
      Picks(cities[..|cities| - 1], scores) + PicksIn(c, c.hotels, scores)
  }

  /** One more city adds its picks after those of the cities before it. */
  lemma {:induction false} PicksStep(cities: seq<City>, i: nat, scores: Scores)
    requires i < |cities|
    ensures Picks(cities[..i + 1], scores) == Picks(cities[..i], scores) + PicksIn(cities[i], cities[i].hotels, scores)
  {
    assert cities[..i + 1][..i] == cities[..i];
  }

  lemma {:induction false} PicksInExactly(c: City, hotels: seq<Hotel>, scores: Scores)
    ensures forall p :: p in PicksIn(c, hotels, scores) <==>
      p.city == c && p.hotel in hotels && p.score == GetScore(scores, c.id, p.hotel.id) && p.score > 0
    ensures |PicksIn(c, hotels, scores)| <= |hotels|
  {
    if hotels != [] {
      PicksInExactly(c, hotels[..|hotels| - 1], scores);
      assert hotels == hotels[..|hotels| - 1] + [hotels[|hotels| - 1]];
    }
  }

  /**
   * The picks are exactly the (city, hotel, score) triples of the catalog whose
   * score is positive, and there are at most as many as there are hotels.
   */
  lemma {:induction false} PicksExactly(cities: seq<City>, scores: Scores)
    ensures forall p :: p in Picks(cities, scores) ==>
      p.city in cities && p.hotel in p.city.hotels && p.score == GetScore(scores, p.city.id, p.hotel.id) && p.score > 0
    ensures forall i, h :: 0 <= i < |cities| && h in cities[i].hotels && GetScore(scores, cities[i].id, h.id) > 0 ==>
      Pick(cities[i], h, GetScore(scores, cities[i].id, h.id)) in Picks(cities, scores)
    ensures |Picks(cities, scores)| <= HotelCount(cities)
  {
    if cities != [] {
      var init, c := cities[..|cities| - 1], cities[|cities| - 1];
      PicksExactly(init, scores);
      PicksInExactly(c, c.hotels, scores);
      assert cities == init + [c];
      forall i, h | 0 <= i < |cities| && h in cities[i].hotels && GetScore(scores, cities[i].id, h.id) > 0
        ensures Pick(cities[i], h, GetScore(scores, cities[i].id, h.id)) in Picks(cities, scores)
      {
        if i < |init| {
          assert cities[i] == init[i];
        }
      }
    }
  }

  /** Catalog order: the picks of two runs of cities are the picks of the first run followed by those of the second. */
  lemma {:induction false} PicksInCatalogOrder(a: seq<City>, b: seq<City>, scores: Scores)
    ensures Picks(a + b, scores) == Picks(a, scores) + Picks(b, scores)
    decreases |b|
  {
    if b == [] {
      assert a + b == a;
    } else {
      assert (a + b)[..|a + b| - 1] == a + b[..|b| - 1];
      PicksInCatalogOrder(a, b[..|b| - 1], scores);
    }
  }

  // ---------- progress ----------

  /** `ratingProgress` without the percentage: the hotel count and the rated count, by nested loops. */
  method RatingProgress(cities: seq<City>, scores: Scores) returns (total: nat, rated: nat)
    ensures total == HotelCount(cities)
    ensures rated == |Picks(cities, scores)|
    ensures rated <= total
  {
    total, rated := 0, 0;
    var i := 0;
    while i < |cities|
      invariant 0 <= i <= |cities|
      invariant total == HotelCount(cities[..i])
      invariant rated == |Picks(cities[..i], scores)|
    {
      var c := cities[i];
      var j := 0;
      while j < |c.hotels|
        invariant 0 <= j <= |c.hotels|
        invariant total == HotelCount(cities[..i]) + j
        invariant rated == |Picks(cities[..i], scores)| + |PicksIn(c, c.hotels[..j], scores)|
      {
        PicksInStep(c, c.hotels, j, scores);
        total := total + 1;
        if GetScore(scores, c.id, c.hotels[j].id) > 0 {
          rated := rated + 1;
        }
        j := j + 1;
      }
      assert c.hotels[..j] == c.hotels;
      assert cities[..i + 1][..i] == cities[..i];
      PicksStep(cities, i, scores);
      i := i + 1;
    }
    assert cities[..i] == cities;
    PicksExactly(cities, scores);
  }

  // ---------- submitting all ratings ----------

  /** One POST /api/votes body built by "submit all". */
  datatype VoteRequest = VoteRequest(name: string, cityId: string, hotelId: string, rating: int, occupancy: int)

  /**
   * The `rated` list of `submitAllRatings`, built by nested loops with push,
   * and the requests it sends; an empty list sends nothing.
   */
  method CollectRated(cities: seq<City>, scores: Scores, name: string, occupancy: int) returns (requests: seq<VoteRequest>)
    ensures |requests| == |Picks(cities, scores)|
    ensures forall k :: 0 <= k < |requests| ==>
      var p := Picks(cities, scores)[k];
      requests[k] == VoteRequest(name, p.city.id, p.hotel.id, p.score, occupancy)
  {
    requests := [];
    var i := 0;
    while i < |cities|
      invariant 0 <= i <= |cities|
      invariant requests == Requests(Picks(cities[..i], scores), name, occupancy)
    {
      var c := cities[i];
      var j := 0;
      while j < |c.hotels|
        invariant 0 <= j <= |c.hotels|
        invariant requests == Requests(Picks(cities[..i], scores) + PicksIn(c, c.hotels[..j], scores), name, occupancy)
      {
        var h := c.hotels[j];
        var v := GetScore(scores, c.id, h.id);
        ghost var done := Picks(cities[..i], scores) + PicksIn(c, c.hotels[..j], scores);
        PicksInStep(c, c.hotels, j, scores);
        if v > 0 {
          requests := requests + [VoteRequest(name, c.id, h.id, v, occupancy)];
          RequestsAppend(done, Pick(c, h, v), name, occupancy);
          assert Picks(cities[..i], scores) + PicksIn(c, c.hotels[..j + 1], scores) == done + [Pick(c, h, v)];
        }
        j := j + 1;
      }
      assert c.hotels[..j] == c.hotels;
      PicksStep(cities, i, scores);
      i := i + 1;
    }
    assert cities[..i] == cities;
  }

  /** The requests for a list of picks. */
  function Requests(picks: seq<Pick>, name: string, occupancy: int): seq<VoteRequest> {
    seq(|picks|, k requires 0 <= k < |picks| => VoteRequest(name, picks[k].city.id, picks[k].hotel.id, picks[k].score, occupancy))
  }

  lemma {:induction false} RequestsAppend(picks: seq<Pick>, p: Pick, name: string, occupancy: int)
    ensures Requests(picks + [p], name, occupancy)
         == Requests(picks, name, occupancy) + [VoteRequest(name, p.city.id, p.hotel.id, p.score, occupancy)]
  {
  }

  /**
   * Every request "submit all" sends carries a positive rating, so the vote
   * route accepts it whenever the two ids are non-empty.
   */
  lemma {:induction false} SubmittedRatingsPassValidation(cities: seq<City>, scores: Scores, name: string, occupancy: int, k: nat)
    requires k < |Picks(cities, scores)|
    requires Picks(cities, scores)[k].city.id != "" && Picks(cities, scores)[k].hotel.id != ""
    ensures var p := Picks(cities, scores)[k];
      VotesRoute.Accepts(Some(p.city.id), Some(p.hotel.id), Some(p.score))
  {
    PicksExactly(cities, scores);
    assert Picks(cities, scores)[k] in Picks(cities, scores);
  }

  // ---------- search ----------

  /** A hotel matches a lower-cased query when its lower-cased name or notes contain it. */
  predicate MatchesQuery(h: Hotel, q: string) {
    Contains(Lower(h.name), q) || Contains(Lower(h.notes.GetOr("")), q)
  }

  function Matching(hotels: seq<Hotel>, q: string): seq<Hotel> {
    if hotels == [] then []
    else
      var h := hotels[|hotels| - 1];
      Matching(hotels[..|hotels| - 1], q) + (if MatchesQuery(h, q) then [h] else [])
  }

  /** `filteredHotels`: the whole list for a blank query, else the hotels matching the trimmed, lower-cased query. */
  function FilteredHotels(hotels: seq<Hotel>, search: string): seq<Hotel> {
    var q := Lower(Trim(search));
    if q == "" then hotels else Matching(hotels, q)
  }

  /**
   * A blank (all-whitespace) query returns the list itself; otherwise a hotel
   * is returned exactly when its name or notes contains the query, ignoring ASCII case.
   */
  lemma {:induction false} FilteredHotelsExactly(hotels: seq<Hotel>, search: string)
    ensures Trim(search) == "" ==> FilteredHotels(hotels, search) == hotels
    ensures Trim(search) != "" ==> forall h :: h in FilteredHotels(hotels, search) <==>
      h in hotels && MatchesQuery(h, Lower(Trim(search)))
  {
    MatchingExactly(hotels, Lower(Trim(search)));
  }

  lemma {:induction false} MatchingExactly(hotels: seq<Hotel>, q: string)
    ensures forall h :: h in Matching(hotels, q) <==> h in hotels && MatchesQuery(h, q)
  {
    if hotels != [] {
      MatchingExactly(hotels[..|hotels| - 1], q);
      assert hotels == hotels[..|hotels| - 1] + [hotels[|hotels| - 1]];
    }
  }

  /** The filter keeps the catalog order: filtering two runs is filtering each, concatenated. */
  lemma {:induction false} MatchingKeepsOrder(a: seq<Hotel>, b: seq<Hotel>, q: string)
    ensures Matching(a + b, q) == Matching(a, q) + Matching(b, q)
    decreases |b|
  {
    if b == [] {
      assert a + b == a;
    } else {
      assert (a + b)[..|a + b| - 1] == a + b[..|b| - 1];
      MatchingKeepsOrder(a, b[..|b| - 1], q);
    }
  }
}
