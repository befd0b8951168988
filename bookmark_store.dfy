/**
 * The `bookmarks` table as an in-memory store. The read the validator performs (`find_by`) is a
 * search over its rows; the write the persistence layer performs refuses, as the unique index on
 * (user_id, post_id) does, a row whose user and post another row already holds.
 */
module BookmarkStore {
  import opened Options
  import opened Bookmarks

  /** What a write to the table does: the row as stored, or a violation of the unique index. */
  datatype WriteResult = Written(row: Bookmark) | UniqueViolation

  predicate HasId(rows: seq<Bookmark>, id: Option<int>)
  {
    exists k :: 0 <= k < |rows| && rows[k].id == id
  }

  ghost predicate DistinctIds(rows: seq<Bookmark>)
  {
    forall i, j :: 0 <= i < j < |rows| ==> rows[i].id != rows[j].id
  }

  /**
   * The rows after writing `row`: it replaces the stored row with its id if there is one (an
   * update), and is added otherwise (an insert). No other row changes.
   */
  function Stored(rows: seq<Bookmark>, row: Bookmark): (r: seq<Bookmark>)
    ensures row in r
    ensures HasId(rows, row.id) ==> |r| == |rows|
    ensures !HasId(rows, row.id) ==> |r| == |rows| + 1 && r[..|rows|] == rows
    ensures forall k :: 0 <= k < |rows| && rows[k].id != row.id ==> r[k] == rows[k]
  {
    if HasId(rows, row.id) then
      var p :| 0 <= p < |rows| && rows[p].id == row.id;
      var r := seq(|rows|, k requires 0 <= k < |rows| => if rows[k].id == row.id then row else rows[k]);
      assert r[p] == row;
      r
    else rows + [row]
  }

  /** Writing a row that conflicts with no other row keeps both the primary key and the unique
      (user_id, post_id) index intact. */
  lemma StoredKeepsIndexes(rows: seq<Bookmark>, row: Bookmark)
    requires DistinctIds(rows) && UniqueUserPost(rows)
    requires !Conflicts(rows, row)
    ensures DistinctIds(Stored(rows, row)) && UniqueUserPost(Stored(rows, row))
  {
  }

  class Table {
    var rows: seq<Bookmark>
    /** The next id the table assigns to a record saved without one. */
    var nextId: int

    /** Every stored row has an id below `nextId`, ids are distinct, and (user_id, post_id) is unique. */
    ghost predicate Valid()
      reads this
      ensures Valid() ==> !HasId(rows, None) && !HasId(rows, Some(nextId))
    {
      && (forall k :: 0 <= k < |rows| ==> rows[k].id.Some? && rows[k].id.value < nextId)
      && DistinctIds(rows)
      && UniqueUserPost(rows)
    }

    constructor ()
      ensures Valid() && rows == [] && nextId == 1
    {
      rows := [];
      nextId := 1;
    }

    /** `Bookmark.find_by(user_id:, post_id:)`: a read-only search of the stored rows. */
    method FindBy(userId: int, postId: int) returns (r: Option<Bookmark>)
      ensures r == FindByUserPost(rows, userId, postId)
    {
      var i := 0;
      while i < |rows|
        invariant 0 <= i <= |rows|
        invariant FindByUserPost(rows[i..], userId, postId) == FindByUserPost(rows, userId, postId)
      {
        if SameUserAndPost(rows[i], userId, postId) {
          return Some(rows[i]);
        }
        assert rows[i..][1..] == rows[i + 1..];
        i := i + 1;
      }
      r := None;
    }

    /**
     * The persistence layer's write. A record without an id gets `nextId`; one with an id
     * replaces the stored row with that id, or is added with it. The unique index refuses a
     * row whose user and post another stored row already holds, and then nothing changes.
     */
    method Write(b: Bookmark) returns (res: WriteResult)
      requires Valid()
      modifies this
      ensures Valid()
      ensures res.UniqueViolation? <==> Conflicts(old(rows), b)
      ensures res.UniqueViolation? ==> rows == old(rows) && nextId == old(nextId)
      ensures res.Written? ==> res.row == b.(id := res.row.id)
      ensures res.Written? ==> res.row.id == (if b.id.Some? then b.id else Some(old(nextId)))
      ensures res.Written? ==> rows == Stored(old(rows), res.row)
      ensures res.Written? ==>
                nextId == (if b.id.None? then old(nextId) + 1
                           else if b.id.value >= old(nextId) then b.id.value + 1
                           else old(nextId))
    {
      var existing := FindBy(b.userId, b.postId);
      LookupDecidesConflict(rows, b);
      if existing.Some? && existing.value.id != b.id {
        return UniqueViolation;
      }
      var row := b;
      if b.id.None? {
        row := b.(id := Some(nextId));
        nextId := nextId + 1;
      } else if b.id.value >= nextId {
        nextId := b.id.value + 1;
      }
      assert !Conflicts(rows, row);
      StoredKeepsIndexes(rows, row);
      rows := Stored(rows, row);
      res := Written(row);
    }
  }
}
