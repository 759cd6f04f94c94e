/**
 * The results tab: `resultsData` gives every hotel of every city an entry
 * built from the vote tally fetched from GET /api/votes (a zero entry when the
 * hotel has no votes), and `getSortedHotels` orders a copy of a city's hotels
 * by number of votes, most first.
 */
module PageResults {
  import opened Catalog
  import VotesRoute

  /** One hotel's entry: `numVotes` and `votes` (the average rating is left out). */
  datatype ResultEntry = ResultEntry(numVotes: int, votes: seq<VotesRoute.Vote>)

  type Results = map<string, map<string, ResultEntry>>

  /** `realTimeVotes[c]?.[h]` turned into an entry, or the default empty entry. */
  function EntryFor(store: VotesRoute.Store, cityId: string, hotelId: string): ResultEntry {
    if cityId in store && hotelId in store[cityId] then
      ResultEntry(store[cityId][hotelId].count, store[cityId][hotelId].votes)
    else ResultEntry(0, [])
  }

  /** The entries for the first hotels of one city. */
  function CityResults(hotels: seq<Hotel>, store: VotesRoute.Store, cityId: string): map<string, ResultEntry> {
    if hotels == [] then map[]
    else
      var h := hotels[|hotels| - 1];
      CityResults(hotels[..|hotels| - 1], store, cityId)[h.id := EntryFor(store, cityId, h.id)]
  }

  /** The results object after the loop has handled `cities`; each city starts from `{}`. */
  function ResultsFor(cities: seq<City>, store: VotesRoute.Store): Results {
    if cities == [] then map[]
    else
      var c := cities[|cities| - 1];
      ResultsFor(cities[..|cities| - 1], store)[c.id := CityResults(c.hotels, store, c.id)]
  }

  /** `resultsData`: the object filled field by field in nested loops. */
  method ResultsData(cities: seq<City>, store: VotesRoute.Store) returns (results: Results)
    ensures results == ResultsFor(cities, store)
  {
    results := map[];
    var i := 0;
    while i < |cities|
      invariant 0 <= i <= |cities|
      invariant results == ResultsFor(cities[..i], store)
    {
      var c := cities[i];
      ResultsForStep(cities, i, store);
      ghost var done := results;
      results := results[c.id := map[]];
      var j := 0;
      while j < |c.hotels|
        invariant 0 <= j <= |c.hotels|
        invariant results == done[c.id := CityResults(c.hotels[..j], store, c.id)]
      {
        CityResultsStep(c.hotels, j, store, c.id);
        var h := c.hotels[j];
        results := results[c.id := results[c.id][h.id := EntryFor(store, c.id, h.id)]];
        j := j + 1;
      }
      assert c.hotels[..j] == c.hotels;
      i := i + 1;
    }
    assert cities[..i] == cities;
  }

  /** One more city adds (or overwrites) the map under its id. */
  lemma {:induction false} ResultsForStep(cities: seq<City>, i: nat, store: VotesRoute.Store)
    requires i < |cities|
    ensures ResultsFor(cities[..i + 1], store)
         == ResultsFor(cities[..i], store)[cities[i].id := CityResults(cities[i].hotels, store, cities[i].id)]
  {
    assert cities[..i + 1][..i] == cities[..i];
  }

  /** One more hotel adds (or overwrites) the entry under its id. */
  lemma {:induction false} CityResultsStep(hotels: seq<Hotel>, j: nat, store: VotesRoute.Store, cityId: string)
    requires j < |hotels|
    ensures CityResults(hotels[..j + 1], store, cityId)
         == CityResults(hotels[..j], store, cityId)[hotels[j].id := EntryFor(store, cityId, hotels[j].id)]
  {
    assert hotels[..j + 1][..j] == hotels[..j];
  }

  lemma {:induction false} CityResultsCover(hotels: seq<Hotel>, store: VotesRoute.Store, cityId: string)
    ensures forall h :: h in CityResults(hotels, store, cityId) <==> exists x :: x in hotels && x.id == h
    ensures forall x :: x in hotels ==> CityResults(hotels, store, cityId)[x.id] == EntryFor(store, cityId, x.id)
  {
    if hotels != [] {
      CityResultsCover(hotels[..|hotels| - 1], store, cityId);
      assert hotels == hotels[..|hotels| - 1] + [hotels[|hotels| - 1]];
    }
  }

  /** Distinct cities carry distinct ids. */
  predicate CityIdsDistinct(cities: seq<City>) {
    forall i, j :: 0 <= i < j < |cities| ==> cities[i].id != cities[j].id
  }

  /** The results have a key for exactly the cities' ids. */
  lemma {:induction false} ResultsKeys(cities: seq<City>, store: VotesRoute.Store)
    ensures forall k :: k in ResultsFor(cities, store) <==> exists i :: 0 <= i < |cities| && cities[i].id == k
  {
    if cities != [] {
      var init, c := cities[..|cities| - 1], cities[|cities| - 1];
      ResultsKeys(init, store);
      assert forall i :: 0 <= i < |init| ==> init[i] == cities[i];
      forall k | k in ResultsFor(cities, store) ensures exists i :: 0 <= i < |cities| && cities[i].id == k {
        if k != c.id {
          assert k in ResultsFor(init, store);
          var i :| 0 <= i < |init| && init[i].id == k;
          assert cities[i].id == k;
        } else {
          assert cities[|cities| - 1].id == k;
        }
      }
    }
  }

  /**
   * With distinct city ids, the results hold an entry for every hotel of every
   * city and for nothing else; a hotel with no tally gets 0 votes and an empty list.
   */
  lemma {:induction false} ResultsCoverEveryHotel(cities: seq<City>, store: VotesRoute.Store)
    requires CityIdsDistinct(cities)
    ensures forall i :: 0 <= i < |cities| ==> cities[i].id in ResultsFor(cities, store)
    ensures forall i, h :: 0 <= i < |cities| && h in cities[i].hotels ==>
      h.id in ResultsFor(cities, store)[cities[i].id]
      && ResultsFor(cities, store)[cities[i].id][h.id] == EntryFor(store, cities[i].id, h.id)
    ensures forall i, hid :: 0 <= i < |cities| && hid in ResultsFor(cities, store)[cities[i].id] ==>
      exists h :: h in cities[i].hotels && h.id == hid
    ensures forall i, h ::
      0 <= i < |cities| && h in cities[i].hotels && !(cities[i].id in store && h.id in store[cities[i].id]) ==>
      ResultsFor(cities, store)[cities[i].id][h.id] == ResultEntry(0, [])
  {
    forall i | 0 <= i < |cities|
      ensures cities[i].id in ResultsFor(cities, store)
      ensures ResultsFor(cities, store)[cities[i].id] == CityResults(cities[i].hotels, store, cities[i].id)
    {
      ResultsAt(cities, store, i);
    }
    forall i | 0 <= i < |cities|
      ensures forall h :: h in CityResults(cities[i].hotels, store, cities[i].id) <==> exists x :: x in cities[i].hotels && x.id == h
      ensures forall x :: x in cities[i].hotels ==> CityResults(cities[i].hotels, store, cities[i].id)[x.id] == EntryFor(store, cities[i].id, x.id)
    {
      CityResultsCover(cities[i].hotels, store, cities[i].id);
    }
  }

  /** With distinct city ids, a city's entry is the map built from its own hotels. */
  lemma {:induction false} ResultsAt(cities: seq<City>, store: VotesRoute.Store, i: nat)
    requires CityIdsDistinct(cities) && i < |cities|
    ensures cities[i].id in ResultsFor(cities, store)
    ensures ResultsFor(cities, store)[cities[i].id] == CityResults(cities[i].hotels, store, cities[i].id)
  {
    var init := cities[..|cities| - 1];
    if i < |init| {
      assert init[i] == cities[i];
      assert CityIdsDistinct(init) by {
        forall a, b | 0 <= a < b < |init| ensures init[a].id != init[b].id {
          assert init[a] == cities[a] && init[b] == cities[b];
        }
      }
      ResultsAt(init, store, i);
      assert cities[i].id != cities[|cities| - 1].id;
    }
  }

  /** Where the tally keeps `count == |votes|`, every entry's `numVotes` is the length of its list. */
  lemma {:induction false} ResultsAgreeWithTally(store: VotesRoute.Store, cityId: string, hotelId: string)
    requires VotesRoute.Consistent(store)
    ensures EntryFor(store, cityId, hotelId).numVotes == |EntryFor(store, cityId, hotelId).votes|
  {
  }

  // ---------- sorting by votes ----------

  /** `resultsData[cityId]?.[h.id]?.numVotes || 0`. */
  function VoteCount(results: Results, cityId: string, h: Hotel): int {
    if cityId in results && h.id in results[cityId] then results[cityId][h.id].numVotes else 0
  }

  /** Inserts `x` before the first element whose count is not larger: keeps a descending order, and `x` ahead of its equals. */
  function Insert(x: Hotel, t: seq<Hotel>, key: Hotel -> int): seq<Hotel> {
    if t == [] || key(t[0]) <= key(x) then [x] + t
    else [t[0]] + Insert(x, t[1..], key)
  }

  function SortDescending(s: seq<Hotel>, key: Hotel -> int): seq<Hotel> {
    if s == [] then [] else Insert(s[0], SortDescending(s[1..], key), key)
  }

  /** `getSortedHotels` with sort key 'votes': `[...hotels].sort((a, b) => votes(b) - votes(a))`. */
  function SortedByVotes(hotels: seq<Hotel>, results: Results, cityId: string): seq<Hotel> {
    SortDescending(hotels, h => VoteCount(results, cityId, h))
  }

  predicate Descending(s: seq<Hotel>, key: Hotel -> int) {
    forall i, j :: 0 <= i < j < |s| ==> key(s[i]) >= key(s[j])
  }

  /** The elements of `s` whose key is `k`, in order. */
  function WithKey(s: seq<Hotel>, key: Hotel -> int, k: int): seq<Hotel> {
    if s == [] then [] else (if key(s[0]) == k then [s[0]] else []) + WithKey(s[1..], key, k)
  }

  lemma {:induction false} InsertPermutes(x: Hotel, t: seq<Hotel>, key: Hotel -> int)
    ensures multiset(Insert(x, t, key)) == multiset(t) + multiset{x}
  {
    if t != [] && key(t[0]) > key(x) {
      InsertPermutes(x, t[1..], key);
      assert t == [t[0]] + t[1..];
    }
  }

  lemma {:induction false} InsertKeepsDescending(x: Hotel, t: seq<Hotel>, key: Hotel -> int)
    requires Descending(t, key)
    ensures Descending(Insert(x, t, key), key)
    ensures key(Insert(x, t, key)[0]) == if t == [] || key(t[0]) <= key(x) then key(x) else key(t[0])
  {
    if t != [] && key(t[0]) > key(x) {
      var rest := Insert(x, t[1..], key);
      InsertKeepsDescending(x, t[1..], key);
      var r := [t[0]] + rest;
      assert key(t[0]) >= key(rest[0]);
      forall i, j | 0 <= i < j < |r| ensures key(r[i]) >= key(r[j]) {
        if i == 0 {
          assert r[j] == rest[j - 1];
          assert j - 1 == 0 || key(rest[0]) >= key(rest[j - 1]);
        } else {
          assert r[i] == rest[i - 1] && r[j] == rest[j - 1];
        }
      }
    }
  }

  lemma {:induction false} InsertKeepsTies(x: Hotel, t: seq<Hotel>, key: Hotel -> int, k: int)
    ensures WithKey(Insert(x, t, key), key, k) == (if key(x) == k then [x] else []) + WithKey(t, key, k)
  {
    var xs := if key(x) == k then [x] else [];
    if t != [] && key(t[0]) > key(x) {
      var r := Insert(x, t[1..], key);
      var ts := if key(t[0]) == k then [t[0]] else [];
      InsertKeepsTies(x, t[1..], key, k);
      assert ([t[0]] + r)[1..] == r;
      assert WithKey(Insert(x, t, key), key, k) == ts + (xs + WithKey(t[1..], key, k));
      assert xs == [] || ts == [];
    } else {
      assert ([x] + t)[1..] == t;
    }
  }

  /**
   * Sorting by votes returns a permutation of its input, with non-increasing
   * vote counts, and is stable: the hotels with any one count keep their input order.
   */
  lemma {:induction false} SortByVotesCorrect(hotels: seq<Hotel>, results: Results, cityId: string, k: int)
    ensures var key := h => VoteCount(results, cityId, h);
      var r := SortedByVotes(hotels, results, cityId);
      && multiset(r) == multiset(hotels) && |r| == |hotels|
      && Descending(r, key)
      && WithKey(r, key, k) == WithKey(hotels, key, k)
  {
    var key := h => VoteCount(results, cityId, h);
    SortPermutes(hotels, key);
    SortDescends(hotels, key);
    SortIsStable(hotels, key, k);
  }

  lemma {:induction false} SortPermutes(s: seq<Hotel>, key: Hotel -> int)
    ensures multiset(SortDescending(s, key)) == multiset(s)
    ensures |SortDescending(s, key)| == |s|
  {
    if s != [] {
      SortPermutes(s[1..], key);
      InsertPermutes(s[0], SortDescending(s[1..], key), key);
      assert s == [s[0]] + s[1..];
      assert |SortDescending(s, key)| == |multiset(SortDescending(s, key))|;
    }
  }

  lemma {:induction false} SortDescends(s: seq<Hotel>, key: Hotel -> int)
    ensures Descending(SortDescending(s, key), key)
  {
    if s != [] {
      SortDescends(s[1..], key);
      InsertKeepsDescending(s[0], SortDescending(s[1..], key), key);
    }
  }

  lemma {:induction false} SortIsStable(s: seq<Hotel>, key: Hotel -> int, k: int)
    ensures WithKey(SortDescending(s, key), key, k) == WithKey(s, key, k)
  {
    if s != [] {
      SortIsStable(s[1..], key, k);
      InsertKeepsTies(s[0], SortDescending(s[1..], key), key, k);
    }
  }
}
