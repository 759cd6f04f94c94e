/**
 * The one-off script that renames the Jaipur and Jodhpur rows of the
 * `cities` table to "… Day 1" and "… Day 2". Both groups are chosen from one
 * snapshot of the table (its ORDER BY name is taken to have been applied), and
 * each rename is an `UPDATE … WHERE id = …` on the live table.
 */
module RenameCities {
  import opened Wrappers
  import opened Text
  import opened Db

  /** `rows.filter(c => c.name.toLowerCase().includes(word))`. */
  function Matching(rows: seq<CityRow>, word: string): seq<CityRow> {
    if rows == [] then []
    else
      var c := rows[|rows| - 1];
      Matching(rows[..|rows| - 1], word) + (if Contains(Lower(c.name), word) then [c] else [])
  }

  /** The table after `UPDATE cities SET name = name WHERE id = id`. */
  function SetName(rows: seq<CityRow>, id: string, name: string): seq<CityRow> {
    seq(|rows|, i requires 0 <= i < |rows| => if rows[i].id == id then rows[i].(name := name) else rows[i])
  }

  /**
   * An UPDATE by id keeps the number of rows, every id and every date, gives
   * the rows with that id the new name and no other row any change, and
   * running it again changes nothing.
   */
  lemma {:induction false} SetNameKeepsIds(rows: seq<CityRow>, id: string, name: string)
    ensures |SetName(rows, id, name)| == |rows|
    ensures forall i :: 0 <= i < |rows| ==>
      SetName(rows, id, name)[i].id == rows[i].id && SetName(rows, id, name)[i].dates == rows[i].dates
    ensures forall i :: 0 <= i < |rows| && rows[i].id == id ==> SetName(rows, id, name)[i].name == name
    ensures forall i :: 0 <= i < |rows| && rows[i].id != id ==> SetName(rows, id, name)[i] == rows[i]
    ensures SetName(SetName(rows, id, name), id, name) == SetName(rows, id, name)
  {
  }

  /** The renames of one group: the first two matches, or only the first when there is one. */
  function RenameGroup(rows: seq<CityRow>, group: seq<CityRow>, day1: string, day2: string): seq<CityRow> {
    if |group| >= 2 then SetName(SetName(rows, group[0].id, day1), group[1].id, day2)
    else if |group| == 1 then SetName(rows, group[0].id, day1)
    else rows
  }

  /** The whole script: Jaipur's group, then Jodhpur's, both taken from the original rows. */
  function RenameSpec(rows: seq<CityRow>): seq<CityRow> {
    RenameGroup(RenameGroup(rows, Matching(rows, "jaipur"), "Jaipur Day 1", "Jaipur Day 2"),
                Matching(rows, "jodhpur"), "Jodhpur Day 1", "Jodhpur Day 2")
  }

  /** One UPDATE by id. */
  method Update(db: Database, id: string, name: string)
    modifies db
    ensures db.cities == SetName(old(db.cities), id, name)
    ensures db.hotels == old(db.hotels) && db.votes == old(db.votes)
  {
    db.cities := SetName(db.cities, id, name);
  }

  method Rename(db: Database)
    modifies db
    ensures db.cities == RenameSpec(old(db.cities))
    ensures db.hotels == old(db.hotels) && db.votes == old(db.votes)
  {
    var snapshot := db.cities;
    var jaipur := Matching(snapshot, "jaipur");
    if |jaipur| >= 2 {
      Update(db, jaipur[0].id, "Jaipur Day 1");
      Update(db, jaipur[1].id, "Jaipur Day 2");
    } else if |jaipur| == 1 {
      Update(db, jaipur[0].id, "Jaipur Day 1");
    }
    assert db.cities == RenameGroup(snapshot, jaipur, "Jaipur Day 1", "Jaipur Day 2");
    var jodhpur := Matching(snapshot, "jodhpur");
    ghost var mid := db.cities;
    if |jodhpur| >= 2 {
      Update(db, jodhpur[0].id, "Jodhpur Day 1");
      Update(db, jodhpur[1].id, "Jodhpur Day 2");
    } else if |jodhpur| == 1 {
      Update(db, jodhpur[0].id, "Jodhpur Day 1");
    }
    assert db.cities == RenameGroup(mid, jodhpur, "Jodhpur Day 1", "Jodhpur Day 2");
  }

  // ---------- properties ----------

  /** The name a group gives the row with this id, if any: Day 2 wins over Day 1, as the second UPDATE runs last. */
  function GroupName(group: seq<CityRow>, day1: string, day2: string, id: string): Option<string> {
    if |group| >= 2 && group[1].id == id then Some(day2)
    else if |group| >= 1 && group[0].id == id then Some(day1)
    else None
  }

  lemma {:induction false} RenameGroupAt(rows: seq<CityRow>, group: seq<CityRow>, day1: string, day2: string, i: int)
    requires 0 <= i < |rows|
    ensures |RenameGroup(rows, group, day1, day2)| == |rows|
    ensures RenameGroup(rows, group, day1, day2)[i]
         == rows[i].(name := GroupName(group, day1, day2, rows[i].id).GetOr(rows[i].name))
  {
  }

  /**
   * The rename rule, row by row: the ids and the number of rows are kept,
   * and a row's new name comes from the Jodhpur group if it names it, else
   * from the Jaipur group, else it is the old name. Both groups are matches
   * among the original names.
   */
  lemma {:induction false} RenameRule(rows: seq<CityRow>, i: int)
    requires 0 <= i < |rows|
    ensures |RenameSpec(rows)| == |rows|
    ensures RenameSpec(rows)[i].id == rows[i].id && RenameSpec(rows)[i].dates == rows[i].dates
    ensures RenameSpec(rows)[i].name ==
      match GroupName(Matching(rows, "jodhpur"), "Jodhpur Day 1", "Jodhpur Day 2", rows[i].id)
      case Some(n) => n
      case None => GroupName(Matching(rows, "jaipur"), "Jaipur Day 1", "Jaipur Day 2", rows[i].id).GetOr(rows[i].name)
  {
    var mid := RenameGroup(rows, Matching(rows, "jaipur"), "Jaipur Day 1", "Jaipur Day 2");
    RenameGroupAt(rows, Matching(rows, "jaipur"), "Jaipur Day 1", "Jaipur Day 2", i);
    RenameGroupAt(mid, Matching(rows, "jodhpur"), "Jodhpur Day 1", "Jodhpur Day 2", i);
  }

  /** The filter keeps exactly the rows whose lowercased name contains the word, in order. */
  lemma {:induction false} MatchingExactly(rows: seq<CityRow>, word: string)
    ensures forall c :: c in Matching(rows, word) <==> c in rows && Contains(Lower(c.name), word)
  {
    if rows != [] {
      var init := rows[..|rows| - 1];
      MatchingExactly(init, word);
      assert rows == init + [rows[|rows| - 1]];
    }
  }

  predicate IdsDistinct(rows: seq<CityRow>) {
    forall i, j :: 0 <= i < j < |rows| ==> rows[i].id != rows[j].id
  }

  /** With distinct ids (the primary key), a row whose lowercased name contains neither word keeps its name. */
  lemma {:induction false} UnmatchedRowsUnchanged(rows: seq<CityRow>, i: int)
    requires IdsDistinct(rows)
    requires 0 <= i < |rows|
    requires !Contains(Lower(rows[i].name), "jaipur") && !Contains(Lower(rows[i].name), "jodhpur")
    ensures RenameSpec(rows)[i] == rows[i]
  {
    RenameRule(rows, i);
    NotInGroup(rows, i, "jaipur");
    NotInGroup(rows, i, "jodhpur");
    NoGroupName(Matching(rows, "jaipur"), "Jaipur Day 1", "Jaipur Day 2", rows[i].id);
    NoGroupName(Matching(rows, "jodhpur"), "Jodhpur Day 1", "Jodhpur Day 2", rows[i].id);
  }

  /** A group with no row of this id gives it no name. */
  lemma {:induction false} NoGroupName(group: seq<CityRow>, day1: string, day2: string, id: string)
    requires forall c :: c in group ==> c.id != id
    ensures GroupName(group, day1, day2, id) == None
  {
    if |group| >= 1 {
      assert group[0] in group;
    }
    if |group| >= 2 {
      assert group[1] in group;
    }
  }

  lemma {:induction false} NotInGroup(rows: seq<CityRow>, i: int, word: string)
    requires IdsDistinct(rows)
    requires 0 <= i < |rows|
    requires !Contains(Lower(rows[i].name), word)
    ensures forall c :: c in Matching(rows, word) ==> c.id != rows[i].id
  {
    MatchingExactly(rows, word);
    forall c | c in Matching(rows, word)
      ensures c.id != rows[i].id
    {
      var j :| 0 <= j < |rows| && rows[j] == c;
      if j != i {
        assert j < i || i < j;
      }
    }
  }

  /** With two or more matches the first two become Day 1 and Day 2; with one match it becomes Day 1. */
  lemma {:induction false} FirstTwoMatchesRenamed(rows: seq<CityRow>, word: string, day1: string, day2: string, i: int)
    requires 0 <= i < |rows|
    ensures var g := Matching(rows, word);
      && (|g| >= 2 && g[1].id == rows[i].id ==> RenameGroup(rows, g, day1, day2)[i].name == day2)
      && (|g| >= 1 && g[0].id == rows[i].id && (|g| < 2 || g[1].id != rows[i].id) ==>
            RenameGroup(rows, g, day1, day2)[i].name == day1)
      && (|g| == 0 ==> RenameGroup(rows, g, day1, day2) == rows)
  {
    RenameGroupAt(rows, Matching(rows, word), day1, day2, i);
  }

  /** The matches of a table with distinct ids have distinct ids. */
  lemma {:induction false} MatchingIdsDistinct(rows: seq<CityRow>, word: string)
    requires IdsDistinct(rows)
    ensures IdsDistinct(Matching(rows, word))
  {
    if rows != [] {
      var init := rows[..|rows| - 1];
      var last := rows[|rows| - 1];
      assert IdsDistinct(init);
      MatchingIdsDistinct(init, word);
      MatchingExactly(init, word);
      var g := Matching(init, word);
      forall c | c in g
        ensures c.id != last.id
      {
        var j :| 0 <= j < |init| && init[j] == c;
        assert rows[j] == c;
      }
    }
  }

  /** With distinct ids, a third or later match keeps the name that group would give it. */
  lemma {:induction false} LaterMatchesUntouched(rows: seq<CityRow>, word: string, day1: string, day2: string, k: int)
    requires IdsDistinct(rows)
    requires 2 <= k < |Matching(rows, word)|
    ensures GroupName(Matching(rows, word), day1, day2, Matching(rows, word)[k].id).None?
  {
    MatchingIdsDistinct(rows, word);
  }
}
