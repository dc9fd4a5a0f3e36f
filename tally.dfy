/**
 * The results query `top_n`:
 *   SELECT candidate, COUNT(*) AS cnt FROM votes GROUP BY candidate
 *   ORDER BY cnt DESC, candidate ASC LIMIT n
 * modelled as grouping, a sort by rank and a limit.
 */
module Tally {
  import opened StringOrder
  import opened Votes

  /** One result row: a candidate and the number of votes they received. */
  datatype Entry = Entry(candidate: string, count: nat)

  predicate Distinct(s: seq<string>)
  {
    forall i, j :: 0 <= i < j < |s| ==> s[i] != s[j]
  }

  predicate DistinctNames(s: seq<Entry>)
  {
    forall i, j :: 0 <= i < j < |s| ==> s[i].candidate != s[j].candidate
  }

  /** The distinct values of a column, each once. */
  function Dedup(s: seq<string>): (r: seq<string>)
    ensures forall x :: x in r <==> x in s
    ensures Distinct(r)
  {
    if s == [] then []
    else if s[0] in s[1..] then Dedup(s[1..])
    else [s[0]] + Dedup(s[1..])
  }

  /** `GROUP BY candidate` with `COUNT(*)`: one entry per candidate that has a row, with its exact count. */
  function Groups(rows: seq<Row>): (r: seq<Entry>)
    ensures DistinctNames(r)
    ensures forall e :: e in r ==> e.count == CountFor(rows, e.candidate) && e.count >= 1
    ensures forall c :: CountFor(rows, c) >= 1 ==> Entry(c, CountFor(rows, c)) in r
  {
    var names := Dedup(CandidateColumn(rows));
    var r := seq(|names|, i requires 0 <= i < |names| => Entry(names[i], CountFor(rows, names[i])));
    assert forall e :: e in r ==> e.count == CountFor(rows, e.candidate) && e.count >= 1 by {
      forall e | e in r ensures e.count == CountFor(rows, e.candidate) && e.count >= 1 {
        var i :| 0 <= i < |r| && r[i] == e;
        assert names[i] in CandidateColumn(rows);
      }
    }
    assert forall c :: CountFor(rows, c) >= 1 ==> Entry(c, CountFor(rows, c)) in r by {
      forall c | CountFor(rows, c) >= 1 ensures Entry(c, CountFor(rows, c)) in r {
        assert c in CandidateColumn(rows);
        var i :| 0 <= i < |names| && names[i] == c;
        assert r[i] == Entry(c, CountFor(rows, c));
      }
    }
    r
  }

  /**
   * `ORDER BY cnt DESC, candidate ASC`: `a` is listed before `b`. The count
   * decides first; the name only breaks ties, and no entry precedes itself.
   */
  predicate RankBefore(a: Entry, b: Entry)
    ensures RankBefore(a, b) ==> a.count >= b.count && a != b
    ensures a.count == b.count ==> (RankBefore(a, b) <==> Less(a.candidate, b.candidate))
  {
    LessIrreflexive(a.candidate);
    a.count > b.count || (a.count == b.count && Less(a.candidate, b.candidate))
  }

  lemma RankAsymmetric(a: Entry, b: Entry)
    ensures RankBefore(a, b) ==> !RankBefore(b, a)
  {
    LessAsymmetric(a.candidate, b.candidate);
  }

  lemma RankTransitive(a: Entry, b: Entry, c: Entry)
    requires RankBefore(a, b) && RankBefore(b, c)
    ensures RankBefore(a, c)
  {
    if a.count == b.count == c.count {
      LessTransitive(a.candidate, b.candidate, c.candidate);
    }
  }

  /** Two different entries are always ranked one way or the other: the order leaves no ties. */
  lemma RankTotal(a: Entry, b: Entry)
    requires a != b
    ensures RankBefore(a, b) || RankBefore(b, a)
  {
    if a.count == b.count {
      LessTotal(a.candidate, b.candidate);
    }
  }

  /** No later entry ranks strictly before an earlier one. */
  predicate Ranked(s: seq<Entry>)
  {
    forall i, j :: 0 <= i < j < |s| ==> !RankBefore(s[j], s[i])
  }

  function InsertEntry(x: Entry, s: seq<Entry>): (r: seq<Entry>)
    requires Ranked(s)
    ensures multiset(r) == multiset(s) + multiset{x}
    ensures Ranked(r)
  {
    if s == [] then [x]
    else if RankBefore(s[0], x) then
      var rest := InsertEntry(x, s[1..]);
      assert s == [s[0]] + s[1..];
      HeadRanksFirst(s[0], x, s[1..], rest);
      [s[0]] + rest
    else
      NothingRanksBefore(x, s);
      [x] + s
  }

  lemma HeadRanksFirst(h: Entry, x: Entry, tail: seq<Entry>, rest: seq<Entry>)
    requires RankBefore(h, x)
    requires forall j :: 0 <= j < |tail| ==> !RankBefore(tail[j], h)
    requires multiset(rest) == multiset(tail) + multiset{x}
    ensures forall y :: y in rest ==> !RankBefore(y, h)
  {
    forall y | y in rest ensures !RankBefore(y, h) {
      assert y in multiset(rest);
      if y == x {
        RankAsymmetric(h, x);
      }
    }
  }

  lemma NothingRanksBefore(x: Entry, s: seq<Entry>)
    requires Ranked(s) && s != [] && !RankBefore(s[0], x)
    ensures forall j :: 0 <= j < |s| ==> !RankBefore(s[j], x)
  {
    forall j | 0 <= j < |s| ensures !RankBefore(s[j], x) {
      if RankBefore(s[j], x) && s[j] != s[0] {
        RankTotal(s[j], s[0]);
        RankTransitive(s[0], s[j], x);
      }
    }
  }

  lemma {:induction false} InsertEntryKeepsNamesDistinct(x: Entry, s: seq<Entry>)
    requires Ranked(s) && DistinctNames(s)
    requires forall e :: e in s ==> e.candidate != x.candidate
    ensures DistinctNames(InsertEntry(x, s))
  {
    if s != [] && RankBefore(s[0], x) {
      assert s == [s[0]] + s[1..];
      InsertEntryKeepsNamesDistinct(x, s[1..]);
      var rest := InsertEntry(x, s[1..]);
      forall y | y in rest ensures y.candidate != s[0].candidate {
        assert y in multiset(rest);
      }
    }
  }

  /** The sort behind `ORDER BY`: a ranked permutation of the groups. */
  function RankSort(s: seq<Entry>): (r: seq<Entry>)
    ensures multiset(r) == multiset(s)
    ensures Ranked(r)
  {
    if s == [] then []
    else
      assert s == [s[0]] + s[1..];
      InsertEntry(s[0], RankSort(s[1..]))
  }

  lemma {:induction false} RankSortKeepsNamesDistinct(s: seq<Entry>)
    requires DistinctNames(s)
    ensures DistinctNames(RankSort(s))
  {
    if s != [] {
      assert s == [s[0]] + s[1..];
      RankSortKeepsNamesDistinct(s[1..]);
      var sorted := RankSort(s[1..]);
      forall e | e in sorted ensures e.candidate != s[0].candidate {
        assert e in multiset(sorted);
      }
      InsertEntryKeepsNamesDistinct(s[0], sorted);
    }
  }

  /** With distinct names the ranking has no ties: every earlier entry ranks strictly first. */
  lemma RankedIsStrict(s: seq<Entry>)
    requires Ranked(s) && DistinctNames(s)
    ensures forall i, j :: 0 <= i < j < |s| ==> RankBefore(s[i], s[j])
  {
    forall i, j | 0 <= i < j < |s| ensures RankBefore(s[i], s[j]) {
      RankTotal(s[i], s[j]);
    }
  }

  /**
   * `LIMIT n`: a prefix of the ordered rows, no longer than `n`, cut short
   * only by the limit. In SQLite a negative limit means no limit.
   */
  function Limit(s: seq<Entry>, n: int): (r: seq<Entry>)
    ensures |r| <= |s| && r == s[..|r|]
    ensures 0 <= n ==> |r| <= n
    ensures |r| < |s| ==> |r| == n
  {
    if 0 <= n < |s| then s[..n] else s
  }

  /**
   * `top_n(n)`: at most `n` distinct candidates with their exact vote counts
   * (never zero), listed by count descending and, among equal counts, by
   * name ascending.
   */
  function TopN(rows: seq<Row>, n: int): (r: seq<Entry>)
    ensures n >= 0 ==> |r| <= n
    ensures DistinctNames(r)
    ensures forall e :: e in r ==> e.count == CountFor(rows, e.candidate) && e.count >= 1
    ensures forall i, j :: 0 <= i < j < |r| ==> RankBefore(r[i], r[j])
  {
    var groups := Groups(rows);
    var sorted := RankSort(groups);
    RankSortKeepsNamesDistinct(groups);
    var r := Limit(sorted, n);
    assert forall e :: e in r ==> e in groups by {
      forall e | e in r ensures e in groups {
        assert e in multiset(sorted);
      }
    }
    RankedIsStrict(r);
    r
  }

  /**
   * A candidate with votes is missing from `top_n(n)` only when the limit was
   * reached, and then every listed entry ranks before that candidate's.
   */
  lemma {:induction false} TopNOmitsOnlyLowerRanked(rows: seq<Row>, n: int, c: string)
    requires CountFor(rows, c) >= 1
    requires forall e :: e in TopN(rows, n) ==> e.candidate != c
    ensures 0 <= n == |TopN(rows, n)|
    ensures forall e :: e in TopN(rows, n) ==> RankBefore(e, Entry(c, CountFor(rows, c)))
  {
    var sorted := RankSort(Groups(rows));
    var r := TopN(rows, n);
    var entry := Entry(c, CountFor(rows, c));
    assert entry in multiset(sorted);
    var j :| 0 <= j < |sorted| && sorted[j] == entry;
    assert r == Limit(sorted, n);
    assert forall k :: 0 <= k < |r| ==> sorted[k].candidate != c;
    forall e | e in r ensures RankBefore(e, entry) {
      var i :| 0 <= i < |r| && r[i] == e;
      assert sorted[i] == e;
      RankTotal(e, entry);
    }
  }

  /** With no rows, the results list is empty. */
  lemma {:induction false} TopNOfEmptyTable(n: int)
    ensures TopN([], n) == []
  {
    assert Groups([]) == [];
  }

  /** Two single votes for different candidates form two groups of one, in ballot order. */
  lemma {:induction false} GroupsOfPair(v: string, x: string, y: string, now: int, firstId: nat)
    requires x != y
    ensures Groups(BatchRows(v, [x, y], now, firstId)) == [Entry(x, 1), Entry(y, 1)]
  {
    var rows := BatchRows(v, [x, y], now, firstId);
    assert [x, y][1..] == [y] && [y][1..] == [];
    assert Dedup([y]) == [y];
    assert x !in [y];
    assert Dedup([x, y]) == [x] + Dedup([y]);
    assert multiset([x, y])[x] == 1 && multiset([x, y])[y] == 1;
  }

  /** Two single votes for different candidates: `top_n(2)` lists both, by name. */
  lemma {:induction false} TopNOfPair(v: string, x: string, y: string, now: int, firstId: nat)
    requires x != y
    ensures TopN(BatchRows(v, [x, y], now, firstId), 2)
         == if Less(x, y) then [Entry(x, 1), Entry(y, 1)] else [Entry(y, 1), Entry(x, 1)]
  {
    GroupsOfPair(v, x, y, now, firstId);
    var gx, gy := Entry(x, 1), Entry(y, 1);
    assert [gx, gy][1..] == [gy];
    assert RankSort([gy]) == [gy];
    LessAsymmetric(x, y);
    LessTotal(x, y);
    assert RankSort([gx, gy]) == InsertEntry(gx, [gy]);
  }

  /**
   * Equal counts are listed by name: one ballot naming two candidates gives
   * `top_n(2)` with the alphabetically first one first, in either order of
   * the choices.
   */
  lemma {:induction false} TieBrokenByName(v: string, x: string, y: string, now: int, firstId: nat)
    requires Less(x, y)
    ensures TopN(BatchRows(v, [x, y], now, firstId), 2) == [Entry(x, 1), Entry(y, 1)]
    ensures TopN(BatchRows(v, [y, x], now, firstId), 2) == [Entry(x, 1), Entry(y, 1)]
  {
    LessIrreflexive(x);
    LessAsymmetric(x, y);
    TopNOfPair(v, x, y, now, firstId);
    TopNOfPair(v, y, x, now, firstId);
  }
}
