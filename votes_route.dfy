/**
 * The in-memory vote tally behind `/api/votes`: a process-wide nested map
 * city id -> hotel id -> {votes, totalRating, count}. POST appends a vote to
 * one entry, creating the entry (and its city map) on first use; GET returns
 * the whole map. Every vote is kept: there is no de-duplication by voter.
 */
module VotesRoute {
  import opened Wrappers

  /**
   * One stored vote. `occupancy` is `Number(occupancy)`; None stands for NaN
   * (an absent or non-numeric occupancy), which JSON serialises as null.
   * `timestamp` is the ISO time of the request, supplied by the caller.
   */
  datatype Vote = Vote(name: string, rating: int, occupancy: Option<int>, timestamp: string)

  datatype Tally = Tally(votes: seq<Vote>, totalRating: int, count: int)

  type Store = map<string, map<string, Tally>>

  datatype Reply = Ok(data: Vote) | Fail(status: int, error: string)

  const MissingFields := "Missing required fields"
  const Anonymous := "Anonymous"

  /** The entry a (city, hotel) pair starts from. */
  const EmptyTally := Tally([], 0, 0)

  predicate Truthy(s: Option<string>) {
    s.Some? && s.value != ""
  }

  /** `!cityId || !hotelId || !rating`: a rating of 0, like an absent one, is rejected. */
  predicate Accepts(cityId: Option<string>, hotelId: Option<string>, rating: Option<int>) {
    Truthy(cityId) && Truthy(hotelId) && rating.Some? && rating.value != 0
  }

  function SumRatings(votes: seq<Vote>): int {
    if votes == [] then 0 else votes[0].rating + SumRatings(votes[1..])
  }

  lemma {:induction false} SumRatingsAppend(votes: seq<Vote>, v: Vote)
    ensures SumRatings(votes + [v]) == SumRatings(votes) + v.rating
  {
    if votes != [] {
      assert (votes + [v])[1..] == votes[1..] + [v];
      SumRatingsAppend(votes[1..], v);
    }
  }

  /** The tally's counters agree with its list of votes. */
  predicate TallyConsistent(t: Tally) {
    t.count == |t.votes| && t.totalRating == SumRatings(t.votes)
  }

  predicate Consistent(store: Store) {
    forall c, h :: c in store && h in store[c] ==> TallyConsistent(store[c][h])
  }

  /** The entry for (c, h), or the empty one when there is none yet. */
  function EntryOf(store: Store, c: string, h: string): Tally {
    if c in store && h in store[c] then store[c][h] else EmptyTally
  }

  /** The store after `vote` is recorded for (c, h). */
  function Record(store: Store, c: string, h: string, vote: Vote): Store {
    var inner := if c in store then store[c] else map[];
    var t := EntryOf(store, c, h);
    store[c := inner[h := Tally(t.votes + [vote], t.totalRating + vote.rating, t.count + 1)]]
  }

  /** The vote a POST stores: a missing or empty name becomes 'Anonymous'. */
  function MakeVote(name: Option<string>, rating: int, occupancy: Option<int>, timestamp: string): Vote {
    Vote(if Truthy(name) then name.value else Anonymous, rating, occupancy, timestamp)
  }

  /**
   * A stored vote always has a non-empty name: the given one when it is
   * truthy, and "Anonymous" exactly when none is given or that is the name given.
   */
  lemma {:induction false} MakeVoteIsNamed(name: Option<string>, rating: int, occupancy: Option<int>, timestamp: string)
    ensures var v := MakeVote(name, rating, occupancy, timestamp);
      && v.name != ""
      && (Truthy(name) ==> v.name == name.value)
      && (v.name == Anonymous <==> !Truthy(name) || name.value == Anonymous)
      && v.rating == rating && v.occupancy == occupancy && v.timestamp == timestamp
  {
  }

  /** The module-level `votesStore`; one request is handled at a time. */
  class VoteStore {
    var store: Store

    ghost predicate Valid()
      reads this
    {
      Consistent(store)
    }

    constructor ()
      ensures Valid() && store == map[]
    {
      store := map[];
    }

    /** GET /api/votes: the whole map, and nothing changes. */
    method Get() returns (data: Store)
      requires Valid()
      ensures data == store && Consistent(data)
    {
      data := store;
    }

    /** POST /api/votes. */
    method Post(name: Option<string>, cityId: Option<string>, hotelId: Option<string>,
                rating: Option<int>, occupancy: Option<int>, timestamp: string) returns (reply: Reply)
      requires Valid()
      modifies this
      ensures Valid()
      ensures !Accepts(cityId, hotelId, rating) ==> reply == Fail(400, MissingFields) && store == old(store)
      ensures Accepts(cityId, hotelId, rating) ==>
        && reply == Ok(MakeVote(name, rating.value, occupancy, timestamp))
        && store == Record(old(store), cityId.value, hotelId.value, reply.data)
    {
      if !Truthy(cityId) || !Truthy(hotelId) || rating.None? || rating.value == 0 {
        return Fail(400, MissingFields);
      }
      var c, h := cityId.value, hotelId.value;
      ghost var before := store;
      ghost var inner := if c in store then store[c] else map[];
      if c !in store {
        store := store[c := map[]];
      }
      if h !in store[c] {
        store := store[c := store[c][h := EmptyTally]];
      }
      var vote := MakeVote(name, rating.value, occupancy, timestamp);
      assert store == before[c := store[c]] && store[c] == inner[h := EntryOf(before, c, h)];
      var t := store[c][h];
      t := t.(votes := t.votes + [vote]);
      t := t.(count := t.count + 1);
      t := t.(totalRating := t.totalRating + vote.rating);
      SumRatingsAppend(store[c][h].votes, vote);
      assert t == Tally(EntryOf(before, c, h).votes + [vote], EntryOf(before, c, h).totalRating + vote.rating, EntryOf(before, c, h).count + 1);
      assert store[c][h := t] == inner[h := t];
      store := store[c := store[c][h := t]];
      assert store == Record(before, c, h, vote);
      return Ok(vote);
    }
  }

  // ---------- properties of recording a vote ----------

  /** Recording a vote keeps `count == |votes|` and `totalRating == sum of ratings` for every entry. */
  lemma {:induction false} RecordPreservesConsistency(store: Store, c: string, h: string, vote: Vote)
    requires Consistent(store)
    ensures Consistent(Record(store, c, h, vote))
  {
    SumRatingsAppend(EntryOf(store, c, h).votes, vote);
  }

  /**
   * Recording appends exactly one vote at the end of the (c, h) entry (which
   * starts empty the first time) and changes no other entry.
   */
  lemma {:induction false} RecordAppendsToOneEntry(store: Store, c: string, h: string, vote: Vote)
    ensures var r := Record(store, c, h, vote);
      && r.Keys == store.Keys + {c}
      && r[c].Keys == (if c in store then store[c].Keys else {}) + {h}
      && r[c][h].votes == EntryOf(store, c, h).votes + [vote]
      && r[c][h].count == EntryOf(store, c, h).count + 1
      && r[c][h].totalRating == EntryOf(store, c, h).totalRating + vote.rating
      && (forall c' :: c' in store && c' != c ==> r[c'] == store[c'])
      && (forall h' :: c in store && h' in store[c] && h' != h ==> r[c][h'] == store[c][h'])
  {
  }

  /** The first vote for a pair yields the entry with just that vote. */
  lemma {:induction false} FirstVoteStartsEmpty(store: Store, c: string, h: string, vote: Vote)
    requires !(c in store && h in store[c])
    ensures Record(store, c, h, vote)[c][h] == Tally([vote], vote.rating, 1)
  {
  }

  /** Two votes by the same voter for the same hotel are both kept, in order. */
  lemma {:induction false} RepeatVotesAreKept(store: Store, c: string, h: string, v1: Vote, v2: Vote)
    requires Consistent(store)
    ensures var r := Record(Record(store, c, h, v1), c, h, v2);
      && r[c][h].votes == EntryOf(store, c, h).votes + [v1, v2]
      && r[c][h].count == EntryOf(store, c, h).count + 2
      && r[c][h].totalRating == EntryOf(store, c, h).totalRating + v1.rating + v2.rating
  {
    var once := Record(store, c, h, v1);
    assert EntryOf(once, c, h).votes == EntryOf(store, c, h).votes + [v1];
    assert EntryOf(store, c, h).votes + [v1] + [v2] == EntryOf(store, c, h).votes + [v1, v2];
  }
}
