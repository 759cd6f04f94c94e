/**
 * `getAllData`: the rows of the `cities`, `hotels` and `app_config` tables
 * turned into the nested document the page reads. The three queries are the
 * parameters; their ORDER BY is taken to have been applied already.
 */
module DbClient {
  import opened Wrappers
  import opened Catalog
  import opened Db

  /** A JSON value as stored in the `value` column of `app_config`. */
  datatype Json =
    | JNull
    | JBool(b: bool)
    | JNum(n: int)
    | JStr(s: string)
    | JArr(items: seq<Json>)
    | JObj(fields: map<string, Json>)

  /** JavaScript truthiness of a JSON value: null, false, 0 and '' are falsy. */
  predicate JsTruthy(v: Json) {
    match v
    case JNull => false
    case JBool(b) => b
    case JNum(n) => n != 0
    case JStr(s) => s != ""
    case _ => true
  }

  const DefaultEntries: map<string, Json> := map[
    "name" := JStr("entry.REPLACE_NAME_ID"),
    "city" := JStr("entry.REPLACE_CITY_ID"),
    "hotel" := JStr("entry.REPLACE_HOTEL_ID"),
    "score" := JStr("entry.REPLACE_SCORE_ID"),
    "occupancy" := JStr("entry.REPLACE_OCCUPANCY_ID"),
    "notes" := JStr("entry.REPLACE_NOTES_ID")]

  /** The built-in configuration used when the table holds none. */
  const DefaultConfig: map<string, Json> := map[
    "tripTitle" := JStr("Rajasthan Trip \U{2014} Dec 14\U{2013}21, 2025"),
    "ctaNote" := JStr("Rate or rank stays per city. Copy the link to share your picks with the group, or export CSV."),
    "currency" := JStr("\U{20B9}"),
    "googleForm" := JObj(map[
      "enabled" := JBool(true),
      "formAction" := JStr("https://docs.google.com/forms/d/e/REPLACE_WITH_YOUR_FORM_ID/formResponse"),
      "entries" := JObj(DefaultEntries)])]

  /** The returned object: the configuration's keys other than `cities`, and the computed `cities`. */
  datatype AllData = AllData(settings: map<string, Json>, cities: seq<City>)

  /** One hotel row as the page sees it: a null (or empty) link, image or notes becomes ''. */
  function Normalize(r: HotelRow): Hotel {
    Hotel(r.id, r.name, r.price2, r.price3, Some(r.image.GetOr("")), Some(r.link.GetOr("")), Some(r.notes.GetOr("")))
  }

  /**
   * No null reaches the page: a normalised hotel has a link, image and notes;
   * each is the row's own value when there is one, and '' exactly when the row's is null or ''.
   */
  lemma {:induction false} NormalizeNeverNull(r: HotelRow)
    ensures var h := Normalize(r);
      && h.id == r.id && h.name == r.name && h.price2 == r.price2 && h.price3 == r.price3
      && h.link.Some? && h.image.Some? && h.notes.Some?
      && (r.link.Some? ==> h.link == r.link) && (h.link == Some("") <==> r.link == None || r.link == Some(""))
      && (r.image.Some? ==> h.image == r.image) && (h.image == Some("") <==> r.image == None || r.image == Some(""))
      && (r.notes.Some? ==> h.notes == r.notes) && (h.notes == Some("") <==> r.notes == None || r.notes == Some(""))
  {
  }

  /** The hotels of one city: the rows with that `city_id`, normalised, in row order. */
  function HotelsOf(cityId: string, rows: seq<HotelRow>): seq<Hotel> {
    if rows == [] then []
    else
      var r := rows[|rows| - 1];
      HotelsOf(cityId, rows[..|rows| - 1]) + (if r.cityId == cityId then [Normalize(r)] else [])
  }

  function CityOf(row: CityRow, hotelRows: seq<HotelRow>): City {
    City(row.id, row.name, row.dates, HotelsOf(row.id, hotelRows))
  }

  /** `configResult.rows[0]?.value || default`: a missing or falsy value gives the default. */
  function ConfigOf(value: Option<Json>): Json {
    if value.Some? && JsTruthy(value.value) then value.value else JObj(DefaultConfig)
  }

  /** `{...config, cities}`: an object's keys, with `cities` taken by the computed list. */
  function Settings(config: Json): map<string, Json> {
    if config.JObj? then map k | k in config.fields && k != "cities" :: config.fields[k] else map[]
  }

  /**
   * `{...config, cities}` is the config object with `cities` set to the
   * computed list, whatever `cities` the config held: the settings never carry
   * a `cities` key, and adding it back gives exactly the config with that key overridden.
   */
  lemma {:induction false} SpreadOverridesCities(config: Json, cities: Json)
    ensures "cities" !in Settings(config)
    ensures config.JObj? ==> Settings(config)["cities" := cities] == config.fields["cities" := cities]
  {
    if config.JObj? {
      var a, b := Settings(config)["cities" := cities], config.fields["cities" := cities];
      assert a.Keys == b.Keys;
      forall k | k in a ensures a[k] == b[k] {
      }
    }
  }

  function GetAllData(cityRows: seq<CityRow>, hotelRows: seq<HotelRow>, configValue: Option<Json>): AllData {
    AllData(Settings(ConfigOf(configValue)),
            seq(|cityRows|, i requires 0 <= i < |cityRows| => CityOf(cityRows[i], hotelRows)))
  }

  /** Grouping distributes over the row list, so it keeps row order. */
  lemma {:induction false} HotelsOfConcat(cityId: string, a: seq<HotelRow>, b: seq<HotelRow>)
    ensures HotelsOf(cityId, a + b) == HotelsOf(cityId, a) + HotelsOf(cityId, b)
    decreases |b|
  {
    if b == [] {
      assert a + b == a;
    } else {
      HotelsOfConcat(cityId, a, b[..|b| - 1]);
      assert (a + b)[..|a + b| - 1] == a + b[..|b| - 1];
    }
  }

  /** A city's hotels are exactly the normalised rows with its id, both ways. */
  lemma {:induction false} HotelsOfExactly(cityId: string, rows: seq<HotelRow>)
    ensures forall r :: r in rows && r.cityId == cityId ==> Normalize(r) in HotelsOf(cityId, rows)
    ensures forall h :: h in HotelsOf(cityId, rows) ==> exists r :: r in rows && r.cityId == cityId && h == Normalize(r)
    decreases |rows|
  {
    if rows != [] {
      var init := rows[..|rows| - 1];
      HotelsOfExactly(cityId, init);
      assert rows == init + [rows[|rows| - 1]];
      forall h | h in HotelsOf(cityId, rows)
        ensures exists r :: r in rows && r.cityId == cityId && h == Normalize(r)
      {
        if h in HotelsOf(cityId, init) {
          var r :| r in init && r.cityId == cityId && h == Normalize(r);
          assert r in rows;
        } else {
          assert rows[|rows| - 1] in rows;
        }
      }
    }
  }

  /** A hotel row whose `city_id` names no city row changes nothing in the result. */
  lemma {:induction false} OrphanRowsAppearNowhere(cityRows: seq<CityRow>, a: seq<HotelRow>, r: HotelRow, b: seq<HotelRow>, configValue: Option<Json>)
    requires forall c :: c in cityRows ==> c.id != r.cityId
    ensures GetAllData(cityRows, a + [r] + b, configValue) == GetAllData(cityRows, a + b, configValue)
  {
    forall i | 0 <= i < |cityRows|
      ensures HotelsOf(cityRows[i].id, a + [r] + b) == HotelsOf(cityRows[i].id, a + b)
    {
      var id := cityRows[i].id;
      assert cityRows[i] in cityRows;
      HotelsOfConcat(id, a + [r], b);
      HotelsOfConcat(id, a, [r]);
      HotelsOfConcat(id, a, b);
      assert [r][..0] == [];
    }
  }

  /**
   * There is one city per city row, in row order: the i-th city has the i-th
   * row's id, name and dates, and carries exactly the hotel rows with that id.
   */
  lemma {:induction false} CitiesCarryTheirRows(cityRows: seq<CityRow>, hotelRows: seq<HotelRow>, configValue: Option<Json>, i: int)
    requires 0 <= i < |cityRows|
    ensures |GetAllData(cityRows, hotelRows, configValue).cities| == |cityRows|
    ensures var c := GetAllData(cityRows, hotelRows, configValue).cities[i];
      && c.id == cityRows[i].id && c.name == cityRows[i].name && c.dates == cityRows[i].dates
      && (forall r :: r in hotelRows && r.cityId == cityRows[i].id ==> Normalize(r) in c.hotels)
      && (forall h :: h in c.hotels ==> exists r :: r in hotelRows && r.cityId == cityRows[i].id && h == Normalize(r))
  {
    HotelsOfExactly(cityRows[i].id, hotelRows);
  }

  /** Without a config row, or with a falsy one, the built-in configuration is returned. */
  lemma {:induction false} DefaultConfigWhenMissing(cityRows: seq<CityRow>, hotelRows: seq<HotelRow>, configValue: Option<Json>)
    requires configValue.None? || !JsTruthy(configValue.value)
    ensures GetAllData(cityRows, hotelRows, configValue).settings == DefaultConfig
  {
    assert "cities" !in DefaultConfig;
    assert Settings(JObj(DefaultConfig)) == DefaultConfig;
  }
}
