/**
 * The order in which the voting tool sorts names. Both places that sort
 * text compare strings character by character on code points: Python's
 * `sorted` on `str`, and SQLite's default BINARY collation on UTF-8 text
 * (byte order of UTF-8 agrees with code-point order).
 */
module StringOrder {

  /**
   * Strict lexicographic order: `a` comes before `b`. A proper prefix comes
   * first; otherwise the first differing character decides.
   */
  predicate Less(a: string, b: string)
    ensures |a| < |b| && a == b[..|a|] ==> Less(a, b)
    ensures Less(a, b) ==> |b| > 0
    ensures Less(a, b) && |a| > 0 ==> a[0] <= b[0]
  {
    if |a| == 0 then |b| > 0
    else if |b| == 0 then false
    else if a[0] != b[0] then a[0] < b[0]
    else
      assert |a| < |b| && a == b[..|a|] ==> a[1..] == b[1..][..|a| - 1];
      Less(a[1..], b[1..])
  }

  lemma {:induction false} LessIrreflexive(a: string)
    ensures !Less(a, a)
  {
    if |a| > 0 {
      LessIrreflexive(a[1..]);
    }
  }

  lemma {:induction false} LessAsymmetric(a: string, b: string)
    ensures Less(a, b) ==> !Less(b, a)
  {
    if |a| > 0 && |b| > 0 && a[0] == b[0] {
      LessAsymmetric(a[1..], b[1..]);
    }
  }

  lemma {:induction false} LessTransitive(a: string, b: string, c: string)
    requires Less(a, b) && Less(b, c)
    ensures Less(a, c)
  {
    if |a| > 0 && a[0] == b[0] && b[0] == c[0] {
      LessTransitive(a[1..], b[1..], c[1..]);
    }
  }

  /** Any two different names are ordered one way or the other. */
  lemma {:induction false} LessTotal(a: string, b: string)
    requires a != b
    ensures Less(a, b) || Less(b, a)
  {
    if |a| > 0 && |b| > 0 && a[0] == b[0] {
      assert a == [a[0]] + a[1..] && b == [b[0]] + b[1..];
      LessTotal(a[1..], b[1..]);
    }
  }

  /** No later name comes strictly before an earlier one. */
  predicate Ascending(s: seq<string>)
  {
    forall i, j :: 0 <= i < j < |s| ==> !Less(s[j], s[i])
  }

  /** Inserts `x` into an ascending sequence, after every name that precedes it. */
  function InsertName(x: string, s: seq<string>): (r: seq<string>)
    requires Ascending(s)
    ensures multiset(r) == multiset(s) + multiset{x}
    ensures Ascending(r)
  {
    if s == [] then [x]
    else if Less(s[0], x) then
      var rest := InsertName(x, s[1..]);
      assert s == [s[0]] + s[1..];
      HeadComesFirst(s[0], x, s[1..], rest);
      [s[0]] + rest
    else
      NothingComesBefore(x, s);
      [x] + s
  }

  lemma HeadComesFirst(h: string, x: string, tail: seq<string>, rest: seq<string>)
    requires Less(h, x)
    requires forall j :: 0 <= j < |tail| ==> !Less(tail[j], h)
    requires multiset(rest) == multiset(tail) + multiset{x}
    ensures forall y :: y in rest ==> !Less(y, h)
  {
    forall y | y in rest ensures !Less(y, h) {
      assert y in multiset(rest);
      if y == x {
        LessAsymmetric(h, x);
      }
    }
  }

  lemma NothingComesBefore(x: string, s: seq<string>)
    requires Ascending(s) && s != [] && !Less(s[0], x)
    ensures forall j :: 0 <= j < |s| ==> !Less(s[j], x)
  {
    forall j | 0 <= j < |s| ensures !Less(s[j], x) {
      if Less(s[j], x) && s[j] != s[0] {
        LessTotal(s[j], s[0]);
        LessTransitive(s[0], s[j], x);
      }
    }
  }

  /** Python's `sorted` on a list of names: an ascending permutation of the input. */
  function SortNames(s: seq<string>): (r: seq<string>)
    ensures multiset(r) == multiset(s)
    ensures Ascending(r)
  {
    if s == [] then []
    else
      assert s == [s[0]] + s[1..];
      InsertName(s[0], SortNames(s[1..]))
  }

  /** Sorting a list that is already ascending gives it back unchanged. */
  lemma {:induction false} SortNamesKeepsAscending(s: seq<string>)
    requires Ascending(s)
    ensures SortNames(s) == s
  {
    if s != [] {
      assert Ascending(s[1..]);
      SortNamesKeepsAscending(s[1..]);
      if |s| > 1 {
        assert !Less(s[1], s[0]);
      }
    }
  }
}
