/**
 * Rows of the `votes` table and the two per-row queries of the ballot
 * store: "has this voter voted" and "how many rows name this candidate".
 */
module Votes {

  /** One row of `votes(id, voter, candidate, created_at)`. */
  datatype Row = Row(id: nat, voter: string, candidate: string, createdAt: int)

  /**
   * The rows one call of `add_votes` inserts: one per chosen candidate, in
   * the order given, all stamped with the same `now`, numbered from `firstId`.
   */
  function BatchRows(voter: string, candidates: seq<string>, now: int, firstId: nat): (r: seq<Row>)
    ensures CandidateColumn(r) == candidates
    ensures forall row :: row in r ==> row.voter == voter && row.createdAt == now
    ensures forall k :: 0 <= k < |r| ==> r[k].id == firstId + k
  {
    seq(|candidates|, k requires 0 <= k < |candidates| => Row(firstId + k, voter, candidates[k], now))
  }

  /** `SELECT candidate FROM votes`, in row order. */
  function CandidateColumn(rows: seq<Row>): seq<string>
  {
    seq(|rows|, i requires 0 <= i < |rows| => rows[i].candidate)
  }

  /** `SELECT DISTINCT voter FROM votes`, as the set `not_voted_yet` builds from it. */
  function Voters(rows: seq<Row>): (r: set<string>)
    ensures forall v :: v in r <==> HasVoted(rows, v)
  {
    set i | 0 <= i < |rows| :: rows[i].voter
  }

  /**
   * `SELECT 1 FROM votes WHERE voter=? LIMIT 1`: a scan that stops at the
   * first matching row. True exactly when some row has this voter.
   */
  function HasVoted(rows: seq<Row>, voter: string): (b: bool)
    ensures b <==> exists i :: 0 <= i < |rows| && rows[i].voter == voter
  {
    if rows == [] then false
    else rows[0].voter == voter || HasVoted(rows[1..], voter)
  }

  /**
   * `COUNT(*)` of the rows in one `GROUP BY candidate` group: the number of
   * times the candidate occurs in the candidate column.
   */
  function CountFor(rows: seq<Row>, candidate: string): (n: nat)
    ensures n == multiset(CandidateColumn(rows))[candidate]
  {
    if rows == [] then 0
    else
      assert CandidateColumn(rows) == [rows[0].candidate] + CandidateColumn(rows[1..]);
      (if rows[0].candidate == candidate then 1 else 0) + CountFor(rows[1..], candidate)
  }

  /** A batch adds one vote per occurrence of a candidate among the choices; other counts stay. */
  lemma CountAfterBatch(rows: seq<Row>, voter: string, candidates: seq<string>, now: int, firstId: nat, c: string)
    ensures CountFor(rows + BatchRows(voter, candidates, now, firstId), c)
         == CountFor(rows, c) + multiset(candidates)[c]
  {
    var batch := BatchRows(voter, candidates, now, firstId);
    assert CandidateColumn(rows + batch) == CandidateColumn(rows) + candidates;
  }

  /**
   * After a batch, a person has voted exactly when they had before, or they
   * are the batch's voter and chose at least one candidate.
   */
  lemma VotedAfterBatch(rows: seq<Row>, voter: string, candidates: seq<string>, now: int, firstId: nat, v: string)
    ensures HasVoted(rows + BatchRows(voter, candidates, now, firstId), v)
        <==> HasVoted(rows, v) || (v == voter && |candidates| > 0)
  {
    var batch := BatchRows(voter, candidates, now, firstId);
    var all := rows + batch;
    if HasVoted(rows, v) {
      VotedPersists(rows, batch, v);
    } else if HasVoted(all, v) {
      var i :| 0 <= i < |all| && all[i].voter == v;
      assert i >= |rows| && all[i] == batch[i - |rows|];
    }
    if v == voter && |candidates| > 0 {
      assert all[|rows|].voter == v;
    }
  }

  /** Voting is one-way: appending rows never takes away a voter's "voted" status. */
  lemma VotedPersists(rows: seq<Row>, more: seq<Row>, v: string)
    requires HasVoted(rows, v)
    ensures HasVoted(rows + more, v)
  {
    var i :| 0 <= i < |rows| && rows[i].voter == v;
    assert (rows + more)[i] == rows[i];
  }
}
