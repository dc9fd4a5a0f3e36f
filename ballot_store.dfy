/**
 * The `votes` table as an object whose state the store's operations update
 * in place: whether the table exists, its columns, its rows and the next
 * AUTOINCREMENT id.
 */
module BallotStore {
  import opened Votes

  /** The columns every operation of the store relies on. */
  const Required: set<string> := {"id", "voter", "candidate", "created_at"}

  class VoteTable {
    var created: bool
    var columns: set<string>
    var rows: seq<Row>
    var nextId: nat

    /** Row ids are handed out in increasing order, start at 1 and stay below the next id. */
    ghost predicate Valid()
      reads this
    {
      && 1 <= nextId
      && (!created ==> rows == [])
      && (forall i :: 0 <= i < |rows| ==> 1 <= rows[i].id < nextId)
      && (forall i, j :: 0 <= i < j < |rows| ==> rows[i].id < rows[j].id)
    }

    /** The table exists with every required column, as `init_db` leaves it. */
    predicate Ready()
      reads this
    {
      created && Required <= columns
    }

    /** The database file as found on disk: possibly no table, possibly an old schema. */
    constructor Open(created: bool, columns: set<string>, rows: seq<Row>, nextId: nat)
      requires 1 <= nextId && (!created ==> rows == [])
      requires forall i :: 0 <= i < |rows| ==> 1 <= rows[i].id < nextId
      requires forall i, j :: 0 <= i < j < |rows| ==> rows[i].id < rows[j].id
      ensures Valid()
      ensures this.created == created && this.columns == columns
      ensures this.rows == rows && this.nextId == nextId
    {
      this.created := created;
      this.columns := columns;
      this.rows := rows;
      this.nextId := nextId;
    }

    /**
     * `init_db`: creates the table if it is missing; if the table lacks a
     * required column it is dropped and recreated, losing every row and
     * restarting the id sequence. A table that is already in shape is left
     * exactly as it is, so calling this twice is the same as calling it once.
     */
    method InitDb()
      requires Valid()
      modifies this
      ensures Valid() && Ready()
      ensures old(Ready()) ==> rows == old(rows) && nextId == old(nextId) && columns == old(columns)
      ensures !old(Ready()) ==> rows == [] && nextId == 1 && columns == Required
    {
      if !created {
        created, columns, rows, nextId := true, Required, [], 1;
      }
      if !(Required <= columns) {
        columns, rows, nextId := Required, [], 1;
      }
    }

    /**
     * `add_votes`: appends one row per candidate, in order, each with this
     * voter and the same timestamp; rows already present are untouched.
     */
    method AddVotes(voter: string, candidates: seq<string>, now: int)
      requires Valid() && Ready()
      modifies this
      ensures Valid() && Ready()
      ensures rows == old(rows) + BatchRows(voter, candidates, now, old(nextId))
      ensures nextId == old(nextId) + |candidates|
      ensures created == old(created) && columns == old(columns)
    {
      for k := 0 to |candidates|
        invariant Valid() && Ready()
        invariant rows == old(rows) + BatchRows(voter, candidates[..k], now, old(nextId))
        invariant nextId == old(nextId) + k
        invariant created == old(created) && columns == old(columns)
      {
        assert BatchRows(voter, candidates[..k + 1], now, old(nextId))
            == BatchRows(voter, candidates[..k], now, old(nextId)) + [Row(nextId, voter, candidates[k], now)];
        rows := rows + [Row(nextId, voter, candidates[k], now)];
        nextId := nextId + 1;
      }
      assert candidates[..|candidates|] == candidates;
    }

    /** `reset_votes`: deletes every row; the AUTOINCREMENT sequence carries on. */
    method ResetVotes()
      requires Valid() && Ready()
      modifies this
      ensures Valid() && Ready()
      ensures rows == [] && nextId == old(nextId)
      ensures created == old(created) && columns == old(columns)
    {
      rows := [];
    }
  }
}
