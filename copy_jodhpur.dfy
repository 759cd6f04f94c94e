/**
 * The one-off script that copies the hotels of "Jodhpur Day 1" into
 * "Jodhpur Day 2". The SQL queries are the table reads below; their ORDER BY
 * is taken to have been applied to the rows already. `now(k)` stands for
 * `Date.now()` at the k-th insert.
 */
module CopyJodhpur {
  import opened Wrappers
  import opened Text
  import opened Db

  const Prefix := "Jodhpur Day"
  const Day1 := "Jodhpur Day 1"
  const Day2 := "Jodhpur Day 2"

  /** `WHERE name LIKE 'Jodhpur Day%'`. */
  function DayCities(cities: seq<CityRow>): (r: seq<CityRow>)
    ensures |r| <= |cities|
    ensures forall c :: c in r <==> c in cities && StartsWith(c.name, Prefix)
  {
    if cities == [] then []
    else
      var c := cities[|cities| - 1];
      DayCities(cities[..|cities| - 1]) + (if StartsWith(c.name, Prefix) then [c] else [])
  }

  /** Row `i` is the first with that name. */
  predicate FirstNamed(rows: seq<CityRow>, name: string, i: int) {
    0 <= i < |rows| && rows[i].name == name && forall j :: 0 <= j < i ==> rows[j].name != name
  }

  /** `rows.find(c => c.name === name)`: the first row with that name, or nothing when no row has it. */
  function FindByName(rows: seq<CityRow>, name: string): (r: Option<CityRow>)
    ensures r.Some? ==> exists i :: FirstNamed(rows, name, i) && rows[i] == r.value
    ensures r.None? <==> forall c :: c in rows ==> c.name != name
  {
    if rows == [] then None
    else if rows[0].name == name then
      assert FirstNamed(rows, name, 0);
      Some(rows[0])
    else
      var r := FindByName(rows[1..], name);
      assert r.Some? ==> exists i :: FirstNamed(rows, name, i) && rows[i] == r.value by {
        if r.Some? {
          var i :| FirstNamed(rows[1..], name, i) && rows[1..][i] == r.value;
          assert FirstNamed(rows, name, i + 1);
        }
      }
      assert r.None? ==> forall c :: c in rows ==> c.name != name by {
        if r.None? {
          assert rows == [rows[0]] + rows[1..];
        }
      }
      r
  }

  /**
   * The id piece made from a name has the name's length, only `[a-z0-9-]`,
   * keeps every character that lowercases into `[a-z0-9]`, and is its own piece again.
   */
  lemma {:induction false} CharSlugShape(name: string)
    ensures |CharSlug(name)| == |name|
    ensures forall i :: 0 <= i < |name| ==> IsLowerAlnum(CharSlug(name)[i]) || CharSlug(name)[i] == '-'
    ensures forall i :: 0 <= i < |name| ==> IsLowerAlnum(LowerChar(name[i])) ==> CharSlug(name)[i] == LowerChar(name[i])
    ensures CharSlug(CharSlug(name)) == CharSlug(name)
  {
    var r := CharSlug(name);
    var rr := CharSlug(r);
    assert |rr| == |r|;
    forall i | 0 <= i < |r| ensures rr[i] == r[i] {
      assert Lower(r)[i] == LowerChar(r[i]);
      assert LowerChar(r[i]) == r[i];
    }
  }

  /** `WHERE city_id = day1.id`: the rows to copy. */
  function HotelsOf(hotels: seq<HotelRow>, cityId: string): seq<HotelRow> {
    if hotels == [] then []
    else
      var h := hotels[|hotels| - 1];
      HotelsOf(hotels[..|hotels| - 1], cityId) + (if h.cityId == cityId then [h] else [])
  }

  /** `toLowerCase().replace(/[^a-z0-9]/g, '-')`: every single character outside `[a-z0-9]` becomes '-'. */
  function CharSlug(name: string): string {
    var low := Lower(name);
    seq(|low|, i requires 0 <= i < |low| => if IsLowerAlnum(low[i]) then low[i] else '-')
  }

  /** `${day2.id}-${slug}-${Date.now()}-${copiedCount}`. */
  function NewId(target: string, name: string, time: nat, k: nat): string {
    target + "-" + CharSlug(name) + "-" + NatToString(time) + "-" + NatToString(k)
  }

  /** The inserted row: the source's name, prices, image, link and notes under the new id and city. */
  function CopyOf(h: HotelRow, target: string, time: nat, k: nat): HotelRow {
    HotelRow(NewId(target, h.name, time, k), target, h.name, h.link, h.price2, h.price3, h.image, h.notes)
  }

  function Copies(source: seq<HotelRow>, target: string, now: nat -> nat): seq<HotelRow> {
    seq(|source|, k requires 0 <= k < |source| => CopyOf(source[k], target, now(k), k))
  }

  /** What the script does: its exit code and the rows it inserts, from the tables as they were. */
  function CopySpec(cities: seq<CityRow>, hotels: seq<HotelRow>, now: nat -> nat): (int, seq<HotelRow>) {
    var days := DayCities(cities);
    if |days| < 2 then (1, [])
    else
      var d1 := FindByName(days, Day1);
      var d2 := FindByName(days, Day2);
      if d1.None? || d2.None? then (1, [])
      else
        var source := HotelsOf(hotels, d1.value.id);
        if |source| == 0 then (0, [])
        else (0, Copies(source, d2.value.id, now))
  }

  /** The script, ending in `process.exit(code)`; `copiedCount` is the number of rows inserted. */
  method Copy(db: Database, now: nat -> nat) returns (code: int, copiedCount: nat)
    modifies db
    ensures db.cities == old(db.cities) && db.votes == old(db.votes)
    ensures db.hotels == old(db.hotels) + CopySpec(old(db.cities), old(db.hotels), now).1
    ensures code == CopySpec(old(db.cities), old(db.hotels), now).0
    ensures copiedCount == |CopySpec(old(db.cities), old(db.hotels), now).1|
  {
    var days := DayCities(db.cities);
    if |days| < 2 {
      return 1, 0;
    }
    var d1 := FindByName(days, Day1);
    var d2 := FindByName(days, Day2);
    if d1.None? || d2.None? {
      return 1, 0;
    }
    var source := HotelsOf(db.hotels, d1.value.id);
    if |source| == 0 {
      return 0, 0;
    }
    copiedCount := CopyAll(db, source, d2.value.id, now);
    code := 0;
  }

  /** The `for … of` loop: one INSERT per source hotel, in order; `copiedCount` counts them. */
  method CopyAll(db: Database, source: seq<HotelRow>, target: string, now: nat -> nat) returns (copiedCount: nat)
    modifies db
    ensures db.cities == old(db.cities) && db.votes == old(db.votes)
    ensures db.hotels == old(db.hotels) + Copies(source, target, now)
    ensures copiedCount == |source|
  {
    copiedCount := 0;
    while copiedCount < |source|
      invariant copiedCount <= |source|
      invariant db.cities == old(db.cities) && db.votes == old(db.votes)
      invariant db.hotels == old(db.hotels) + Copies(source, target, now)[..copiedCount]
    {
      var hotel := source[copiedCount];
      var newId := NewId(target, hotel.name, now(copiedCount), copiedCount);
      db.hotels := db.hotels + [HotelRow(newId, target, hotel.name, hotel.link, hotel.price2, hotel.price3, hotel.image, hotel.notes)];
      CopiesStep(source, target, now, copiedCount);
      copiedCount := copiedCount + 1;
    }
    assert Copies(source, target, now)[..copiedCount] == Copies(source, target, now);
  }

  /** The first `k + 1` copies are the first `k` followed by the copy of row `k`. */
  lemma {:induction false} CopiesStep(source: seq<HotelRow>, target: string, now: nat -> nat, k: nat)
    requires k < |source|
    ensures Copies(source, target, now)[..k + 1] == Copies(source, target, now)[..k] + [CopyOf(source[k], target, now(k), k)]
  {
    var c := Copies(source, target, now);
    assert c[k] == CopyOf(source[k], target, now(k), k);
    assert c[..k + 1] == c[..k] + [c[k]];
  }

  // ---------- properties ----------

  /**
   * Nothing is inserted unless two "Jodhpur Day%" rows exist and both exact
   * names are among them (exit 1 otherwise), nor when Day 1 has no hotels (exit 0).
   */
  lemma {:induction false} CopyGuards(cities: seq<CityRow>, hotels: seq<HotelRow>, now: nat -> nat)
    ensures var (code, inserted) := CopySpec(cities, hotels, now);
      var days := DayCities(cities);
      && (code == 1 <==> |days| < 2 || FindByName(days, Day1).None? || FindByName(days, Day2).None?)
      && (code == 1 ==> inserted == [])
      && (code == 0 ==> |inserted| == |HotelsOf(hotels, FindByName(days, Day1).value.id)|)
  {
  }

  /** The k-th inserted row copies the k-th Day 1 hotel into Day 2. */
  lemma {:induction false} CopiesAreFaithful(cities: seq<CityRow>, hotels: seq<HotelRow>, now: nat -> nat, k: nat)
    requires k < |CopySpec(cities, hotels, now).1|
    ensures var days := DayCities(cities);
      var source := HotelsOf(hotels, FindByName(days, Day1).value.id);
      var r := CopySpec(cities, hotels, now).1[k];
      && k < |source|
      && r.cityId == FindByName(days, Day2).value.id
      && r.name == source[k].name && r.price2 == source[k].price2 && r.price3 == source[k].price3
      && r.image == source[k].image && r.link == source[k].link && r.notes == source[k].notes
      && source[k] in hotels && source[k].cityId == FindByName(days, Day1).value.id
  {
    var days := DayCities(cities);
    var source := HotelsOf(hotels, FindByName(days, Day1).value.id);
    var target := FindByName(days, Day2).value.id;
    assert CopySpec(cities, hotels, now).1 == Copies(source, target, now);
    assert CopySpec(cities, hotels, now).1[k] == CopyOf(source[k], target, now(k), k);
    HotelsOfExactly(hotels, FindByName(days, Day1).value.id);
    assert source[k] in source;
  }

  lemma {:induction false} HotelsOfExactly(hotels: seq<HotelRow>, cityId: string)
    ensures forall h :: h in HotelsOf(hotels, cityId) <==> h in hotels && h.cityId == cityId
  {
    if hotels != [] {
      var init := hotels[..|hotels| - 1];
      HotelsOfExactly(init, cityId);
      assert hotels == init + [hotels[|hotels| - 1]];
    }
  }

  /** Index of the last '-' in `s`, or -1. */
  function LastDash(s: string): (k: int)
    ensures -1 <= k < |s|
    ensures k >= 0 ==> s[k] == '-'
    ensures forall j :: k < j < |s| ==> s[j] != '-'
    ensures k == -1 <==> '-' !in s
  {
    if s == [] then -1
    else if s[|s| - 1] == '-' then |s| - 1
    else LastDash(s[..|s| - 1])
  }

  /** The last '-' of `x + "-" + n` is the one before `n` when `n` has none. */
  lemma {:induction false} LastDashBeforeTail(x: string, n: string)
    requires '-' !in n
    ensures LastDash(x + "-" + n) == |x|
    decreases |n|
  {
    var s := x + "-" + n;
    if n != [] {
      assert s[..|s| - 1] == x + "-" + n[..|n| - 1];
      assert s[|s| - 1] == n[|n| - 1];
      LastDashBeforeTail(x, n[..|n| - 1]);
    }
  }

  /** Two ids that end in '-' and a dash-free tail agree on that tail when they are equal. */
  lemma {:induction false} SameLastSegment(a: string, n1: string, b: string, n2: string)
    requires '-' !in n1 && '-' !in n2
    requires a + "-" + n1 == b + "-" + n2
    ensures n1 == n2
  {
    var s := a + "-" + n1;
    LastDashBeforeTail(a, n1);
    LastDashBeforeTail(b, n2);
    assert n1 == s[|a| + 1..];
    assert n2 == (b + "-" + n2)[|b| + 1..];
  }

  lemma {:induction false} NoDashInNumber(n: nat)
    ensures '-' !in NatToString(n)
  {
    NatToStringDigits(n);
  }

  /** The ids of one run are pairwise distinct: each ends in '-' and its own counter value. */
  lemma {:induction false} CopyIdsDistinct(cities: seq<CityRow>, hotels: seq<HotelRow>, now: nat -> nat, i: nat, j: nat)
    requires i < j < |CopySpec(cities, hotels, now).1|
    ensures CopySpec(cities, hotels, now).1[i].id != CopySpec(cities, hotels, now).1[j].id
  {
    var inserted := CopySpec(cities, hotels, now).1;
    var days := DayCities(cities);
    var target := FindByName(days, Day2).value.id;
    var source := HotelsOf(hotels, FindByName(days, Day1).value.id);
    assert inserted == Copies(source, target, now);
    var a := target + "-" + CharSlug(source[i].name) + "-" + NatToString(now(i));
    var b := target + "-" + CharSlug(source[j].name) + "-" + NatToString(now(j));
    assert inserted[i].id == a + "-" + NatToString(i);
    assert inserted[j].id == b + "-" + NatToString(j);
    if inserted[i].id == inserted[j].id {
      NoDashInNumber(i);
      NoDashInNumber(j);
      SameLastSegment(a, NatToString(i), b, NatToString(j));
      NatToStringInjective(i, j);
    }
  }
}
