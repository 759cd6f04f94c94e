/**
 * POST /api/votes/reset: deletes the caller's active selections. With a
 * device id the caller is (name, device); without one, the rows of that name
 * that carry no device. Answers with the number of rows deleted.
 */
module VotesReset {
  import opened Wrappers
  import opened Db

  datatype Reply = Ok(deletedCount: nat) | Fail(status: int, error: string)

  const NameRequired := "Name is required"

  predicate Truthy(s: Option<string>) {
    s.Some? && s.value != ""
  }

  /**
   * The WHERE clause. With a truthy `deviceId`: `voter_name = name AND
   * device_id = deviceId AND is_selected = true` (a NULL device never equals);
   * otherwise `voter_name = name AND device_id IS NULL AND is_selected = true`.
   */
  predicate Deletes(r: VoteRow, name: string, deviceId: Option<string>) {
    && r.voterName == name
    && r.isSelected == Some(true)
    && (if Truthy(deviceId) then r.deviceId == Some(deviceId.value) else r.deviceId.None?)
  }

  /** The rows the DELETE leaves, in table order. */
  function Survivors(rows: seq<VoteRow>, name: string, deviceId: Option<string>): seq<VoteRow> {
    if rows == [] then []
    else
      var last := rows[|rows| - 1];
      Survivors(rows[..|rows| - 1], name, deviceId) + (if Deletes(last, name, deviceId) then [] else [last])
  }

  /** Number of rows the DELETE removes. */
  function CountDeleted(rows: seq<VoteRow>, name: string, deviceId: Option<string>): nat {
    if rows == [] then 0
    else CountDeleted(rows[..|rows| - 1], name, deviceId) + (if Deletes(rows[|rows| - 1], name, deviceId) then 1 else 0)
  }

  method Reset(db: Database, name: Option<string>, deviceId: Option<string>) returns (reply: Reply)
    modifies db`votes
    ensures !Truthy(name) ==> reply == Fail(400, NameRequired) && db.votes == old(db.votes)
    ensures Truthy(name) ==>
      && db.votes == Survivors(old(db.votes), name.value, deviceId)
      && reply == Ok(CountDeleted(old(db.votes), name.value, deviceId))
      && reply.deletedCount == |old(db.votes)| - |db.votes|
  {
    if !Truthy(name) {
      return Fail(400, NameRequired);
    }
    var rows := db.votes;
    var kept: seq<VoteRow> := [];
    var deleted: nat := 0;
    var i := 0;
    while i < |rows|
      invariant 0 <= i <= |rows|
      invariant kept == Survivors(rows[..i], name.value, deviceId)
      invariant deleted == CountDeleted(rows[..i], name.value, deviceId)
      invariant deleted + |kept| == i
    {
      assert rows[..i + 1][..i] == rows[..i];
      if Deletes(rows[i], name.value, deviceId) {
        deleted := deleted + 1;
      } else {
        kept := kept + [rows[i]];
      }
      i := i + 1;
    }
    assert rows[..|rows|] == rows;
    db.votes := kept;
    return Ok(deleted);
  }

  // ---------- properties of the delete ----------

  /** A row survives exactly when it does not match; none of the survivors matches. */
  lemma {:induction false} SurvivorsAreTheNonMatching(rows: seq<VoteRow>, name: string, deviceId: Option<string>)
    ensures forall r :: r in Survivors(rows, name, deviceId) <==> r in rows && !Deletes(r, name, deviceId)
    ensures |Survivors(rows, name, deviceId)| + CountDeleted(rows, name, deviceId) == |rows|
  {
    if rows != [] {
      SurvivorsAreTheNonMatching(rows[..|rows| - 1], name, deviceId);
      assert rows == rows[..|rows| - 1] + [rows[|rows| - 1]];
    }
  }

  /** Deleting from a table split in two deletes from each part: the survivors keep their relative order. */
  lemma {:induction false} SurvivorsKeepOrder(a: seq<VoteRow>, b: seq<VoteRow>, name: string, deviceId: Option<string>)
    ensures Survivors(a + b, name, deviceId) == Survivors(a, name, deviceId) + Survivors(b, name, deviceId)
    ensures CountDeleted(a + b, name, deviceId) == CountDeleted(a, name, deviceId) + CountDeleted(b, name, deviceId)
    decreases |b|
  {
    if b == [] {
      assert a + b == a;
    } else {
      var b' := b[..|b| - 1];
      assert (a + b)[..|a + b| - 1] == a + b';
      SurvivorsKeepOrder(a, b', name, deviceId);
    }
  }

  /** The delete is idempotent: the same request again deletes 0 rows and changes nothing. */
  lemma {:induction false} ResetIsIdempotent(rows: seq<VoteRow>, name: string, deviceId: Option<string>)
    ensures Survivors(Survivors(rows, name, deviceId), name, deviceId) == Survivors(rows, name, deviceId)
    ensures CountDeleted(Survivors(rows, name, deviceId), name, deviceId) == 0
  {
    if rows != [] {
      var init := rows[..|rows| - 1];
      ResetIsIdempotent(init, name, deviceId);
      var s := Survivors(init, name, deviceId);
      var last := rows[|rows| - 1];
      if !Deletes(last, name, deviceId) {
        assert Survivors(rows, name, deviceId) == s + [last];
        assert (s + [last])[..|s|] == s;
        assert Survivors(s + [last], name, deviceId) == Survivors(s, name, deviceId) + [last];
        assert CountDeleted(s + [last], name, deviceId) == CountDeleted(s, name, deviceId);
      } else {
        assert Survivors(rows, name, deviceId) == s;
      }
    }
  }

  /**
   * What a truthy device id protects: rows of other devices and device-less
   * rows are kept; without a device id, every row that has a device is kept.
   * Rows of other names and unselected rows are kept either way.
   */
  lemma {:induction false} DeviceScopesTheDelete(r: VoteRow, name: string, deviceId: Option<string>)
    ensures r.voterName != name ==> !Deletes(r, name, deviceId)
    ensures r.isSelected != Some(true) ==> !Deletes(r, name, deviceId)
    ensures Truthy(deviceId) ==> (Deletes(r, name, deviceId) <==>
      r.voterName == name && r.isSelected == Some(true) && r.deviceId == deviceId)
    ensures !Truthy(deviceId) ==> (Deletes(r, name, deviceId) <==>
      r.voterName == name && r.isSelected == Some(true) && r.deviceId == None)
  {
  }
}
