/**
 * "Export CSV": a header and one row per rated hotel, every field written as
 * a quoted field with inner quotes doubled (section 2, rule 7 of RFC 4180),
 * fields joined by ',' and records by '\n'. A reader of that format recovers
 * the rows exactly.
 */
module PageCsv {
  import opened Wrappers
  import opened Text
  import opened Catalog
  import opened PageScores

  const Header: seq<string> := ["Name", "City", "Hotel", "Score", "Occupancy", "Price/night", "Link"]

  /** `String(price)`: the number's digits, or "null" for a missing price. */
  function PriceText(p: Option<int>): string {
    if p.Some? then IntToString(p.value) else "null"
  }

  /** The row of one rated hotel: the price is `price3` exactly when occupancy is 3, a falsy link is ''. */
  function Row(name: string, p: Pick, occupancy: int): (r: seq<string>)
    ensures |r| == |Header|
  {
    [name, p.city.name, p.hotel.name, IntToString(p.score), IntToString(occupancy),
     PriceText(if occupancy == 3 then p.hotel.price3 else p.hotel.price2),
     p.hotel.link.GetOr("")]
  }

  function Rows(picks: seq<Pick>, name: string, occupancy: int): (r: seq<seq<string>>)
    ensures |r| == |picks|
  {
    if picks == [] then [] else Rows(picks[..|picks| - 1], name, occupancy) + [Row(name, picks[|picks| - 1], occupancy)]
  }

  /** Row k of the export is the row of the k-th rated hotel. */
  lemma {:induction false} RowsExactly(picks: seq<Pick>, name: string, occupancy: int)
    ensures forall k :: 0 <= k < |picks| ==> Rows(picks, name, occupancy)[k] == Row(name, picks[k], occupancy)
    decreases |picks|
  {
    if picks != [] {
      RowsExactly(picks[..|picks| - 1], name, occupancy);
    }
  }

  /** The `rows` array of `exportCSV`, built by nested loops with push. */
  method ExportRows(cities: seq<City>, scores: Scores, name: string, occupancy: int) returns (rows: seq<seq<string>>)
    ensures rows == [Header] + Rows(Picks(cities, scores), name, occupancy)
    ensures |rows| == 1 + |Picks(cities, scores)|
  {
    var body: seq<seq<string>> := [];
    var i := 0;
    while i < |cities|
      invariant 0 <= i <= |cities|
      invariant body == Rows(Picks(cities[..i], scores), name, occupancy)
    {
      var more := CityRows(cities[i], scores, name, occupancy);
      assert cities[..i + 1][..i] == cities[..i];
      RowsConcat(Picks(cities[..i], scores), PicksIn(cities[i], cities[i].hotels, scores), name, occupancy);
      body := body + more;
      i := i + 1;
    }
    assert cities[..i] == cities;
    rows := [Header] + body;
  }

  /** The inner loop of `exportCSV`: the rows of one city's rated hotels. */
  method CityRows(c: City, scores: Scores, name: string, occupancy: int) returns (rows: seq<seq<string>>)
    ensures rows == Rows(PicksIn(c, c.hotels, scores), name, occupancy)
  {
    rows := [];
    var j := 0;
    while j < |c.hotels|
      invariant 0 <= j <= |c.hotels|
      invariant rows == Rows(PicksIn(c, c.hotels[..j], scores), name, occupancy)
    {
      var h := c.hotels[j];
      var v := GetScore(scores, c.id, h.id);
      PicksInStep(c, c.hotels, j, scores);
      if v > 0 {
        RowsAppend(PicksIn(c, c.hotels[..j], scores), Pick(c, h, v), name, occupancy);
        rows := rows + [Row(name, Pick(c, h, v), occupancy)];
      }
      j := j + 1;
    }
    assert c.hotels[..j] == c.hotels;
  }

  lemma {:induction false} RowsConcat(a: seq<Pick>, b: seq<Pick>, name: string, occupancy: int)
    ensures Rows(a + b, name, occupancy) == Rows(a, name, occupancy) + Rows(b, name, occupancy)
    decreases |b|
  {
    if b == [] {
      assert a + b == a;
    } else {
      var b' := b[..|b| - 1];
      RowsConcat(a, b', name, occupancy);
      assert (a + b)[..|a + b| - 1] == a + b';
    }
  }

  lemma {:induction false} RowsAppend(picks: seq<Pick>, p: Pick, name: string, occupancy: int)
    ensures Rows(picks + [p], name, occupancy) == Rows(picks, name, occupancy) + [Row(name, p, occupancy)]
  {
    assert (picks + [p])[..|picks|] == picks;
  }

  // ---------- the text ----------

  /** `replaceAll('"', '""')`. */
  function Escape(s: string): string {
    if s == [] then [] else (if s[0] == '"' then "\"\"" else [s[0]]) + Escape(s[1..])
  }

  /** One field as written: `"` + escaped text + `"`. */
  function Quote(s: string): string {
    "\"" + Escape(s) + "\""
  }

  function QuoteAll(fields: seq<string>): (r: seq<string>)
    ensures |r| == |fields|
    ensures forall k :: 0 <= k < |fields| ==> r[k] == Quote(fields[k])
  {
    if fields == [] then [] else [Quote(fields[0])] + QuoteAll(fields[1..])
  }

  /** One record: the quoted fields joined by ','. */
  function Line(fields: seq<string>): string {
    Join(QuoteAll(fields), ",")
  }

  function Lines(rows: seq<seq<string>>): (r: seq<string>)
    ensures |r| == |rows|
    ensures forall k :: 0 <= k < |rows| ==> r[k] == Line(rows[k])
  {
    if rows == [] then [] else [Line(rows[0])] + Lines(rows[1..])
  }

  /** The whole file: the records joined by '\n'. */
  function Csv(rows: seq<seq<string>>): string {
    Join(Lines(rows), "\n")
  }

  /** `exportCSV` up to the download: the text of the file. */
  method ExportCsv(cities: seq<City>, scores: Scores, name: string, occupancy: int) returns (csv: string)
    ensures csv == Csv([Header] + Rows(Picks(cities, scores), name, occupancy))
  {
    var rows := ExportRows(cities, scores, name, occupancy);
    csv := Csv(rows);
  }

  // ---------- reading it back ----------

  /**
   * Reads the rest of a quoted field, `s` being what follows its opening quote:
   * `""` stands for one quote and a lone `"` closes the field. Gives the field
   * text and what follows the closing quote.
   */
  function ReadQuoted(s: string): (r: Option<(string, string)>)
    ensures r.Some? ==> |r.value.1| < |s|
    decreases |s|
  {
    if s == [] then None
    else if s[0] == '"' then
      if |s| >= 2 && s[1] == '"' then
        match ReadQuoted(s[2..])
        case None => None
        case Some((f, rest)) => Some(("\"" + f, rest))
      else Some(([], s[1..]))
    else
      match ReadQuoted(s[1..])
      case None => None
      case Some((f, rest)) => Some(([s[0]] + f, rest))
  }

  /**
   * Reads one record of quoted fields separated by ','. Gives the fields and,
   * when a '\n' ends the record, the text after it (None at the end of the input).
   */
  function ReadRecord(s: string): (r: Option<(seq<string>, Option<string>)>)
    ensures r.Some? && r.value.1.Some? ==> |r.value.1.value| < |s|
    decreases |s|
  {
    if s == [] || s[0] != '"' then None
    else
      match ReadQuoted(s[1..])
      case None => None
      case Some((f, rest)) =>
        if rest == [] then Some(([f], None))
        else if rest[0] == '\n' then Some(([f], Some(rest[1..])))
        else if rest[0] == ',' then
          match ReadRecord(rest[1..])
          case None => None
          case Some((fs, next)) => Some(([f] + fs, next))
        else None
  }

  /** Reads all records. */
  function ReadCsv(s: string): Option<seq<seq<string>>>
    decreases |s|
  {
    match ReadRecord(s)
    case None => None
    case Some((fs, None)) => Some([fs])
    case Some((fs, Some(next))) =>
      match ReadCsv(next)
      case None => None
      case Some(rs) => Some([fs] + rs)
  }

  lemma {:induction false} ReadDoubledQuote(t: string)
    ensures ReadQuoted("\"\"" + t) == match ReadQuoted(t)
      case None => None
      case Some((f, rest)) => Some(("\"" + f, rest))
  {
    assert ("\"\"" + t)[2..] == t;
  }

  lemma {:induction false} ReadPlainChar(c: char, t: string)
    requires c != '"'
    ensures ReadQuoted([c] + t) == match ReadQuoted(t)
      case None => None
      case Some((f, rest)) => Some(([c] + f, rest))
  {
    assert ([c] + t)[1..] == t;
  }

  /** A quoted field reads back as its text, whatever follows it (other than a quote). */
  lemma {:induction false} QuoteRoundTrip(f: string, rest: string)
    requires rest == [] || rest[0] != '"'
    ensures ReadQuoted(Escape(f) + "\"" + rest) == Some((f, rest))
  {
    if f == [] {
      assert Escape(f) + "\"" + rest == "\"" + rest;
      assert ("\"" + rest)[1..] == rest;
    } else {
      var t := Escape(f[1..]) + "\"" + rest;
      QuoteRoundTrip(f[1..], rest);
      EscapeCons(f, rest);
      if f[0] == '"' {
        ReadDoubledQuote(t);
        assert "\"" + f[1..] == f;
      } else {
        ReadPlainChar(f[0], t);
        assert [f[0]] + f[1..] == f;
      }
    }
  }

  /** Escaping a non-empty text escapes its first character, then the rest. */
  lemma {:induction false} EscapeCons(f: string, rest: string)
    requires f != []
    ensures Escape(f) + "\"" + rest == (if f[0] == '"' then "\"\"" else [f[0]]) + (Escape(f[1..]) + "\"" + rest)
  {
  }

  /** One quoted field at the head of a record, and what the reader does after it. */
  lemma {:induction false} ReadFieldThen(f: string, rest: string)
    requires rest == [] || rest[0] != '"'
    ensures rest == [] ==> ReadRecord(Quote(f) + rest) == Some(([f], None))
    ensures rest != [] && rest[0] == '\n' ==> ReadRecord(Quote(f) + rest) == Some(([f], Some(rest[1..])))
    ensures rest != [] && rest[0] == ',' && ReadRecord(rest[1..]).Some? ==>
      ReadRecord(Quote(f) + rest) == Some(([f] + ReadRecord(rest[1..]).value.0, ReadRecord(rest[1..]).value.1))
  {
    var s := Quote(f) + rest;
    QuoteRoundTrip(f, rest);
    assert s[0] == '"';
    assert s[1..] == Escape(f) + "\"" + rest;
    assert ReadQuoted(s[1..]) == Some((f, rest));
  }

  /** A record reads back as its fields; `tail` is empty or starts the next record with '\n'. */
  lemma {:induction false} LineRoundTrip(fields: seq<string>, tail: string)
    requires fields != []
    requires tail == [] || tail[0] == '\n'
    ensures ReadRecord(Line(fields) + tail) == Some((fields, if tail == [] then None else Some(tail[1..])))
    decreases |fields|
  {
    if |fields| == 1 {
      LineCons(fields);
      LastFieldRoundTrip(fields[0], tail);
      assert [fields[0]] == fields;
    } else {
      LineRoundTrip(fields[1..], tail);
      LineRoundTripStep(fields, tail, if tail == [] then None else Some(tail[1..]));
    }
  }

  /** One more field in front of a record that reads back reads back too. */
  lemma {:induction false} LineRoundTripStep(fields: seq<string>, tail: string, next: Option<string>)
    requires |fields| > 1
    requires ReadRecord(Line(fields[1..]) + tail) == Some((fields[1..], next))
    ensures ReadRecord(Line(fields) + tail) == Some((fields, next))
  {
    var l := Line(fields[1..]);
    assert Line(fields) == Quote(fields[0]) + "," + l by {
      LineCons(fields);
    }
    RecordAfterField(fields[0], l, tail, fields[1..], next);
    assert [fields[0]] + fields[1..] == fields;
  }

  /** A quoted field and a comma in front of a readable record add that field in front. */
  lemma {:induction false} RecordAfterField(f: string, l: string, tail: string, rest: seq<string>, next: Option<string>)
    requires ReadRecord(l + tail) == Some((rest, next))
    ensures ReadRecord(Quote(f) + "," + l + tail) == Some(([f] + rest, next))
  {
    AppendAssoc(Quote(f) + ",", l, tail);
    ReadFieldThenRecord(f, l + tail);
  }

  lemma {:induction false} AppendAssoc(a: string, b: string, c: string)
    ensures (a + b) + c == a + (b + c)
  {
  }

  /** The last field of a record reads back, with what follows the line break if there is one. */
  lemma {:induction false} LastFieldRoundTrip(f: string, tail: string)
    requires tail == [] || tail[0] == '\n'
    ensures ReadRecord(Quote(f) + tail) == Some(([f], if tail == [] then None else Some(tail[1..])))
  {
    ReadFieldThen(f, tail);
  }

  /** A quoted field, ',' and a readable record read back as one record with the field in front. */
  lemma {:induction false} ReadFieldThenRecord(f: string, more: string)
    requires ReadRecord(more).Some?
    ensures ReadRecord(Quote(f) + "," + more)
         == Some(([f] + ReadRecord(more).value.0, ReadRecord(more).value.1))
  {
    ReadFieldThen(f, "," + more);
    assert ("," + more)[1..] == more;
    assert Quote(f) + "," + more == Quote(f) + ("," + more);
  }

  /** A record is its first quoted field, then ',' and the rest of the record if there is more. */
  lemma {:induction false} LineCons(fields: seq<string>)
    requires fields != []
    ensures |fields| == 1 ==> Line(fields) == Quote(fields[0])
    ensures |fields| > 1 ==> Line(fields) == Quote(fields[0]) + "," + Line(fields[1..])
  {
    assert QuoteAll(fields)[1..] == QuoteAll(fields[1..]);
  }

  /** The whole file reads back as the rows it was written from (section 2 of RFC 4180, reading side). */
  lemma {:induction false} CsvRoundTrip(rows: seq<seq<string>>)
    requires rows != []
    requires forall k :: 0 <= k < |rows| ==> rows[k] != []
    ensures ReadCsv(Csv(rows)) == Some(rows)
    decreases |rows|
  {
    if |rows| == 1 {
      assert Csv(rows) == Line(rows[0]);
      LineRoundTrip(rows[0], []);
      assert Line(rows[0]) + [] == Line(rows[0]);
      assert [rows[0]] == rows;
    } else {
      var tail := "\n" + Csv(rows[1..]);
      assert Lines(rows)[1..] == Lines(rows[1..]);
      assert Csv(rows) == Line(rows[0]) + tail;
      LineRoundTrip(rows[0], tail);
      assert tail[1..] == Csv(rows[1..]);
      assert forall k :: 0 <= k < |rows[1..]| ==> rows[1..][k] == rows[k + 1];
      CsvRoundTrip(rows[1..]);
      assert [rows[0]] + rows[1..] == rows;
    }
  }

  /** The exported file has a header and one record per rated hotel, and reads back as exactly those rows. */
  lemma {:induction false} ExportReadsBack(cities: seq<City>, scores: Scores, name: string, occupancy: int)
    ensures var rows := [Header] + Rows(Picks(cities, scores), name, occupancy);
      && |rows| == 1 + |Picks(cities, scores)|
      && ReadCsv(Csv(rows)) == Some(rows)
  {
    var rows := [Header] + Rows(Picks(cities, scores), name, occupancy);
    RowsExactly(Picks(cities, scores), name, occupancy);
    assert forall k :: 0 <= k < |rows| ==> |rows[k]| == |Header|;
    CsvRoundTrip(rows);
  }
}
