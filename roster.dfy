/**
 * Queries over the fixed roster of employees: the list filter that both
 * `not_voted_yet` and the ballot's candidate options are built from, and
 * `not_voted_yet` itself.
 */
module Roster {
  import opened StringOrder
  import opened Votes

  /**
   * `[e for e in roster if e not in excluded]`: the roster in its own order,
   * each name kept exactly as often as it occurs unless it is excluded.
   */
  function Without(roster: seq<string>, excluded: set<string>): (r: seq<string>)
    ensures forall e :: multiset(r)[e] == if e in excluded then 0 else multiset(roster)[e]
    ensures forall e :: e in r <==> e in roster && e !in excluded
  {
    if roster == [] then []
    else
      assert roster == [roster[0]] + roster[1..];
      var rest := Without(roster[1..], excluded);
      if roster[0] in excluded then rest else [roster[0]] + rest
  }

  /** Excluding nothing keeps the roster exactly as it is. */
  lemma {:induction false} WithoutNothing(roster: seq<string>)
    ensures Without(roster, {}) == roster
  {
    if roster != [] {
      WithoutNothing(roster[1..]);
      assert roster == [roster[0]] + roster[1..];
    }
  }

  /** The filter works name by name: filtering two lists one after the other is filtering their concatenation. */
  lemma {:induction false} WithoutAppend(a: seq<string>, b: seq<string>, excluded: set<string>)
    ensures Without(a + b, excluded) == Without(a, excluded) + Without(b, excluded)
  {
    if a != [] {
      var ab := a + b;
      assert ab[0] == a[0] && ab[1..] == a[1..] + b;
      WithoutAppend(a[1..], b, excluded);
      assert Without(ab, excluded) == (if a[0] in excluded then [] else [a[0]]) + Without(ab[1..], excluded);
      assert Without(a, excluded) == (if a[0] in excluded then [] else [a[0]]) + Without(a[1..], excluded);
    } else {
      assert a + b == b;
    }
  }

  /**
   * `not_voted_yet()`: in ascending order, the roster members who appear as
   * voter in no row, each as often as the roster lists them.
   */
  function NotVotedYet(rows: seq<Row>, roster: seq<string>): (r: seq<string>)
    ensures Ascending(r)
    ensures forall e :: e in r <==> e in roster && !HasVoted(rows, e)
    ensures forall e :: multiset(r)[e] == if HasVoted(rows, e) then 0 else multiset(roster)[e]
  {
    var r := SortNames(Without(roster, Voters(rows)));
    assert forall e :: e in r <==> e in multiset(r);
    r
  }

  /** With no rows, everyone on the roster is still to vote, listed in sorted order. */
  lemma {:induction false} NotVotedYetOfEmptyTable(roster: seq<string>)
    ensures NotVotedYet([], roster) == SortNames(roster)
  {
    assert Voters([]) == {};
    WithoutNothing(roster);
  }
}
