/**
 * The interactive add-hotel script: the operator picks a city by its
 * 1-based number, answers the prompts, and the new hotel is appended to that
 * city in the JSON document. The prompts' answers are the parameters.
 */
module AddHotel {
  import opened Wrappers
  import opened Text
  import opened Catalog

  // ---------- the hotel id ----------

  /** Drops the leading characters outside `[a-z0-9]`. */
  function SkipRun(s: string): (r: string)
    ensures |r| <= |s| && r == s[|s| - |r|..]
    ensures r == [] || IsLowerAlnum(r[0])
    ensures forall i :: 0 <= i < |s| - |r| ==> !IsLowerAlnum(s[i])
  {
    if s == [] || IsLowerAlnum(s[0]) then s
    else
      var r := SkipRun(s[1..]);
      assert s[1..][|s| - 1 - |r|..] == s[|s| - |r|..];
      r
  }

  /** `replace(/[^a-z0-9]+/g, '-')`: each maximal run outside `[a-z0-9]` becomes one '-'. */
  function Collapse(s: string): string
    decreases |s|
  {
    if s == [] then []
    else if IsLowerAlnum(s[0]) then [s[0]] + Collapse(s[1..])
    else "-" + Collapse(SkipRun(s[1..]))
  }

  /** `hotelName.toLowerCase().replace(/[^a-z0-9]+/g, '-')`. */
  function Slug(name: string): string {
    Collapse(Lower(name))
  }

  /** An id is made of `[a-z0-9]` and '-' only, never two '-' in a row; it starts with '-' after a leading run. */
  lemma {:induction false} CollapseShape(s: string)
    ensures var r := Collapse(s);
      && (forall i :: 0 <= i < |r| ==> IsLowerAlnum(r[i]) || r[i] == '-')
      && (forall i :: 0 <= i < |r| - 1 ==> r[i] == '-' ==> r[i + 1] != '-')
      && (s == [] <==> r == [])
      && (s != [] ==> (IsLowerAlnum(s[0]) ==> r[0] == s[0]) && (!IsLowerAlnum(s[0]) ==> r[0] == '-'))
    decreases |s|
  {
    if s != [] {
      if IsLowerAlnum(s[0]) {
        CollapseShape(s[1..]);
      } else {
        var t := SkipRun(s[1..]);
        CollapseShape(t);
        var r := Collapse(s);
        assert r == "-" + Collapse(t);
        forall i | 0 <= i < |r| - 1 && r[i] == '-'
          ensures r[i + 1] != '-'
        {
          if i == 0 {
            assert r[1] == Collapse(t)[0];
          } else {
            assert r[i] == Collapse(t)[i - 1];
          }
        }
      }
    }
  }

  /** A text that ends outside `[a-z0-9]` collapses to an id ending in '-'. */
  lemma {:induction false} CollapseLast(s: string)
    requires s != []
    ensures Collapse(s) != []
    ensures !IsLowerAlnum(s[|s| - 1]) ==> Collapse(s)[|Collapse(s)| - 1] == '-'
    ensures IsLowerAlnum(s[|s| - 1]) ==> Collapse(s)[|Collapse(s)| - 1] == s[|s| - 1]
    decreases |s|
  {
    CollapseShape(s);
    if IsLowerAlnum(s[0]) {
      if |s| > 1 {
        CollapseLast(s[1..]);
      }
    } else {
      var t := SkipRun(s[1..]);
      if t != [] {
        CollapseLast(t);
        assert t[|t| - 1] == s[|s| - 1];
      } else if |s| > 1 {
        assert !IsLowerAlnum(s[1..][|s| - 2]);
      }
    }
  }

  /** The id keeps every letter and digit of the lowercased name, in order. */
  function SlugChars(s: string): string {
    if s == [] then [] else (if IsLowerAlnum(s[0]) then [s[0]] else []) + SlugChars(s[1..])
  }

  lemma {:induction false} SkipRunDropsNoSlugChar(s: string)
    ensures SlugChars(SkipRun(s)) == SlugChars(s)
  {
    if s != [] && !IsLowerAlnum(s[0]) {
      SkipRunDropsNoSlugChar(s[1..]);
    }
  }

  lemma {:induction false} CollapseKeepsSlugChars(s: string)
    ensures SlugChars(Collapse(s)) == SlugChars(s)
    decreases |s|
  {
    if s != [] {
      if IsLowerAlnum(s[0]) {
        CollapseKeepsSlugChars(s[1..]);
        assert ([s[0]] + Collapse(s[1..]))[1..] == Collapse(s[1..]);
      } else {
        CollapseKeepsSlugChars(SkipRun(s[1..]));
        SkipRunDropsNoSlugChar(s[1..]);
        assert ("-" + Collapse(SkipRun(s[1..])))[1..] == Collapse(SkipRun(s[1..]));
      }
    }
  }

  /** An id already in that shape collapses to itself. */
  lemma {:induction false} CollapseFixed(r: string)
    requires forall i :: 0 <= i < |r| ==> IsLowerAlnum(r[i]) || r[i] == '-'
    requires forall i :: 0 <= i < |r| - 1 ==> r[i] == '-' ==> r[i + 1] != '-'
    ensures Collapse(r) == r
    decreases |r|
  {
    if r != [] {
      var t := r[1..];
      ShapeOfTail(r);
      if !IsLowerAlnum(r[0]) {
        assert SkipRun(t) == t by {
          assert t == [] || IsLowerAlnum(t[0]);
        }
      }
      CollapseFixed(t);
      assert [r[0]] + t == r;
    }
  }

  /** The shape is kept by dropping the first character; after a '-' comes a letter or digit. */
  lemma {:induction false} ShapeOfTail(r: string)
    requires r != []
    requires forall i :: 0 <= i < |r| ==> IsLowerAlnum(r[i]) || r[i] == '-'
    requires forall i :: 0 <= i < |r| - 1 ==> r[i] == '-' ==> r[i + 1] != '-'
    ensures forall i :: 0 <= i < |r[1..]| ==> IsLowerAlnum(r[1..][i]) || r[1..][i] == '-'
    ensures forall i :: 0 <= i < |r[1..]| - 1 ==> r[1..][i] == '-' ==> r[1..][i + 1] != '-'
    ensures !IsLowerAlnum(r[0]) ==> r[1..] == [] || IsLowerAlnum(r[1..][0])
  {
    var t := r[1..];
    assert forall i :: 0 <= i < |t| ==> t[i] == r[i + 1];
  }

  lemma {:induction false} LowerOfSlugShape(r: string)
    requires forall i :: 0 <= i < |r| ==> IsLowerAlnum(r[i]) || r[i] == '-'
    ensures Lower(r) == r
  {
  }

  /**
   * The id of a name: only `[a-z0-9-]`, no "--", the letters and digits of
   * the lowercased name in order, and a leading or trailing '-' exactly when
   * the lowercased name starts or ends outside `[a-z0-9]` (the id is not trimmed).
   */
  lemma {:induction false} SlugShape(name: string)
    ensures var r := Slug(name);
      && (forall i :: 0 <= i < |r| ==> IsLowerAlnum(r[i]) || r[i] == '-')
      && (forall i :: 0 <= i < |r| - 1 ==> r[i] == '-' ==> r[i + 1] != '-')
      && SlugChars(r) == SlugChars(Lower(name))
      && (name != [] ==> (r[0] == '-' <==> !IsLowerAlnum(Lower(name)[0])))
      && (name != [] ==> (r[|r| - 1] == '-' <==> !IsLowerAlnum(Lower(name)[|name| - 1])))
  {
    CollapseShape(Lower(name));
    CollapseKeepsSlugChars(Lower(name));
    if name != [] {
      CollapseLast(Lower(name));
    }
  }

  /** Making an id out of an id changes nothing. */
  lemma {:induction false} SlugIdempotent(name: string)
    ensures Slug(Slug(name)) == Slug(name)
  {
    var r := Slug(name);
    CollapseShape(Lower(name));
    LowerOfSlugShape(r);
    CollapseFixed(r);
  }

  // ---------- the new record ----------

  const ImageBase := "https://source.unsplash.com/800x600/?"

  /**
   * The hotel the script builds. `encode` stands for `encodeURIComponent`;
   * `price2`/`price3` are what `parseFloat` gave (None for NaN, which JSON writes as null).
   */
  function NewHotel(city: City, name: string, link: string, price2: Option<int>, price3: Option<int>,
                    imageUrl: string, notes: string, encode: string -> string): Hotel
  {
    Hotel(Slug(name), name, price2, price3,
          Some(if imageUrl != "" then imageUrl else ImageBase + encode(city.name + " " + name + " hotel rajasthan")),
          if link != "" then Some(link) else None,
          Some(if notes != "" then notes else ""))
  }

  /**
   * The `||` defaults of the new record: the link is null exactly when none is
   * typed; the image is the typed URL exactly when one is typed, and otherwise
   * the Unsplash query for the city and the name; the notes are kept (`notes || ""`
   * changes nothing); the id is the name's slug.
   */
  lemma {:induction false} NewHotelDefaults(city: City, name: string, link: string, price2: Option<int>, price3: Option<int>,
                                            imageUrl: string, notes: string, encode: string -> string)
    ensures var h := NewHotel(city, name, link, price2, price3, imageUrl, notes, encode);
      && h.id == Slug(name) && h.name == name && h.price2 == price2 && h.price3 == price3
      && (h.link == None <==> link == "") && (link != "" ==> h.link == Some(link))
      && h.image.Some?
      && (h.image == Some(imageUrl) <==> imageUrl != "")
      && (imageUrl == "" ==> StartsWith(h.image.value, ImageBase))
      && h.notes == Some(notes)
  {
    var h := NewHotel(city, name, link, price2, price3, imageUrl, notes, encode);
    if imageUrl == "" {
      var q := encode(city.name + " " + name + " hotel rajasthan");
      assert (ImageBase + q)[..|ImageBase|] == ImageBase;
      assert |h.image.value| >= |ImageBase| > 0;
    }
  }

  /** The document after the script, and the hotel it added (None: "Invalid city selection"). */
  function AddSpec(cities: seq<City>, cityNumber: int, name: string, link: string, price2: Option<int>,
                   price3: Option<int>, imageUrl: string, notes: string, encode: string -> string): (seq<City>, Option<Hotel>)
  {
    var k := cityNumber - 1;
    if k < 0 || k >= |cities| then (cities, None)
    else
      var h := NewHotel(cities[k], name, link, price2, price3, imageUrl, notes, encode);
      (cities[k := cities[k].(hotels := cities[k].hotels + [h])], Some(h))
  }

  /** The script from the city prompt to the write-back. */
  method Add(doc: Document, cityNumber: int, name: string, link: string, price2: Option<int>,
             price3: Option<int>, imageUrl: string, notes: string, encode: string -> string) returns (added: Option<Hotel>)
    modifies doc
    ensures (doc.cities, added) == AddSpec(old(doc.cities), cityNumber, name, link, price2, price3, imageUrl, notes, encode)
  {
    var cityIndex := cityNumber - 1;
    if cityIndex < 0 || cityIndex >= |doc.cities| {
      return None;
    }
    var selected := doc.cities[cityIndex];
    var h := NewHotel(selected, name, link, price2, price3, imageUrl, notes, encode);
    doc.cities := doc.cities[cityIndex := selected.(hotels := selected.hotels + [h])];
    return Some(h);
  }

  /**
   * The selection is accepted exactly for the numbers 1..|cities|; otherwise
   * nothing changes. When accepted, the new hotel is the last one of the
   * chosen city, every other hotel and city is unchanged, and no id check is made.
   */
  lemma {:induction false} AddAppendsToChosenCity(cities: seq<City>, cityNumber: int, name: string, link: string, price2: Option<int>,
                               price3: Option<int>, imageUrl: string, notes: string, encode: string -> string)
    ensures var (after, added) := AddSpec(cities, cityNumber, name, link, price2, price3, imageUrl, notes, encode);
      && (added.Some? <==> 1 <= cityNumber <= |cities|)
      && (added.None? ==> after == cities)
      && (added.Some? ==>
            var k := cityNumber - 1;
            && |after| == |cities|
            && (forall j :: 0 <= j < |cities| && j != k ==> after[j] == cities[j])
            && after[k].id == cities[k].id && after[k].name == cities[k].name && after[k].dates == cities[k].dates
            && after[k].hotels == cities[k].hotels + [added.value]
            && added.value.id == Slug(name))
  {
  }

  /** Two hotels with the same id can end up in one city: adding twice under one name succeeds twice. */
  lemma {:induction false} NoDuplicateCheck(cities: seq<City>, cityNumber: int, name: string, encode: string -> string)
    requires 1 <= cityNumber <= |cities|
    ensures var (once, _) := AddSpec(cities, cityNumber, name, "", None, None, "", "", encode);
      var (twice, added) := AddSpec(once, cityNumber, name, "", None, None, "", "", encode);
      && added.Some?
      && var hs := twice[cityNumber - 1].hotels;
         |hs| >= 2 && hs[|hs| - 1].id == hs[|hs| - 2].id == Slug(name)
  {
  }
}
