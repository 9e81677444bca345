/**
 * The similarity ranking shared by both versions of the application:
 * `sorted(list(enumerate(distances)), reverse=True, key=lambda x: x[1])[1:6]`.
 *
 * Python's sort is stable, and `reverse=True` keeps that stability, so the
 * order it produces on the indices of a row is the strict total order
 * "higher score first, equal scores by ascending index". Ranked gives that
 * order by insertion; Candidates takes sorted positions 1 to 5.
 */
module Ranking {

  /** Index `i` is listed before index `j` when ranking `row`. */
  predicate Precedes(row: seq<real>, i: nat, j: nat)
    requires i < |row| && j < |row|
  {
    row[i] > row[j] || (row[i] == row[j] && i < j)
  }

  /** Every entry indexes `row`, and the entries are in ranking order
      (strictly, so no index appears twice). */
  predicate RankOrdered(row: seq<real>, s: seq<nat>)
  {
    && (forall k :: 0 <= k < |s| ==> s[k] < |row|)
    && (forall a, b :: 0 <= a < b < |s| ==> Precedes(row, s[a], s[b]))
  }

  /** Inserts index `x` into the ranked sequence `s` at its place. */
  function Insert(row: seq<real>, x: nat, s: seq<nat>): (r: seq<nat>)
    requires x < |row|
    requires forall k :: 0 <= k < |s| ==> s[k] < |row|
    ensures |r| == |s| + 1
    ensures forall y :: y in r <==> y == x || y in s
    ensures RankOrdered(row, s) && x !in s ==> RankOrdered(row, r)
  {
    if s == [] then [x]
    else if Precedes(row, x, s[0]) then
      assert forall y :: y in [x] + s <==> y == x || y in s;
      [x] + s
    else
      var rest := Insert(row, x, s[1..]);
      assert forall y :: y in s <==> y == s[0] || y in s[1..];
      assert forall y :: y in [s[0]] + rest <==> y == s[0] || y in rest;
      assert RankOrdered(row, s) && x !in s ==> RankOrdered(row, [s[0]] + rest) by {
        if RankOrdered(row, s) && x !in s {
          assert Precedes(row, s[0], x);
          forall y | y in s[1..] ensures Precedes(row, s[0], y) {
            var i :| 0 <= i < |s[1..]| && s[1..][i] == y;
            assert s[i + 1] == y;
          }
          assert RankOrdered(row, s[1..]);
        }
      }
      [s[0]] + rest
  }

  /** The indices `0 .. k-1` of `row` in ranking order. */
  function RankPrefix(row: seq<real>, k: nat): (r: seq<nat>)
    requires k <= |row|
    ensures |r| == k
    ensures forall y :: y in r <==> 0 <= y < k
    ensures RankOrdered(row, r)
  {
    if k == 0 then [] else Insert(row, k - 1, RankPrefix(row, k - 1))
  }

  /** All indices of `row`, best score first; the stable descending sort. */
  function Ranked(row: seq<real>): (r: seq<nat>)
    ensures |r| == |row|
    ensures forall y :: y in r <==> 0 <= y < |row|
    ensures RankOrdered(row, r)
  {
    RankPrefix(row, |row|)
  }

  /** Sorted positions 1 to 5, as the slice `[1:6]` takes them (shorter when the row is). */
  function Candidates(row: seq<real>): (c: seq<nat>)
    ensures |c| == if |row| <= 1 then 0 else if |row| - 1 < 5 then |row| - 1 else 5
  {
    var r := Ranked(row);
    if |r| <= 1 then [] else r[1..if |r| < 6 then |r| else 6]
  }

  /** The head of a rank-ordered sequence precedes each of its other elements. */
  lemma HeadPrecedesRest(row: seq<real>, s: seq<nat>)
    requires RankOrdered(row, s) && s != []
    ensures forall y :: y in s && y != s[0] ==> s[0] < |row| && y < |row| && Precedes(row, s[0], y)
  {
    forall y | y in s && y != s[0] ensures y < |row| && Precedes(row, s[0], y) {
      var i :| 0 <= i < |s| && s[i] == y;
    }
  }

  /** The order of RankOrdered is determined: two rank-ordered sequences
      with the same elements are equal. */
  lemma {:induction false} RankOrderedUnique(row: seq<real>, s: seq<nat>, t: seq<nat>)
    requires RankOrdered(row, s) && RankOrdered(row, t)
    requires forall y :: y in s <==> y in t
    ensures s == t
    decreases |s|
  {
    assert s != [] ==> s[0] in s && s[0] in t;
    assert t != [] ==> t[0] in t && t[0] in s;
    if s != [] && t != [] {
      HeadPrecedesRest(row, s);
      HeadPrecedesRest(row, t);
      assert s[0] == t[0];
      forall y ensures y in s[1..] <==> y in t[1..] {
        if y in s[1..] {
          var i :| 1 <= i < |s| && s[i] == y;
          assert Precedes(row, s[0], s[i]);
          assert y in t;
        }
        if y in t[1..] {
          var i :| 1 <= i < |t| && t[i] == y;
          assert Precedes(row, t[0], t[i]);
          assert y in s;
        }
      }
      RankOrderedUnique(row, s[1..], t[1..]);
    }
  }

  /** Ranked is the only ordering of all indices that RankOrdered accepts:
      the stable descending sort is unique. */
  lemma RankedCharacterized(row: seq<real>, s: seq<nat>)
    requires RankOrdered(row, s)
    requires forall y :: y in s <==> 0 <= y < |row|
    ensures s == Ranked(row)
  {
    RankOrderedUnique(row, s, Ranked(row));
  }

  /** Every index other than the top of a ranking is ranked below it. */
  lemma TopPrecedesAll(row: seq<real>)
    requires |row| > 0
    ensures forall j :: 0 <= j < |row| && j != Ranked(row)[0] ==> Precedes(row, Ranked(row)[0], j)
  {
    var r := Ranked(row);
    forall j | 0 <= j < |row| && j != r[0] ensures Precedes(row, r[0], j) {
      assert j in r;
      var p :| 0 <= p < |r| && r[p] == j;
    }
  }

  /** The candidates are rank ordered and leave the top out. */
  lemma CandidatesRankOrdered(row: seq<real>)
    requires |row| > 0
    ensures RankOrdered(row, Candidates(row))
    ensures Ranked(row)[0] !in Candidates(row)
  {
    var r, c := Ranked(row), Candidates(row);
    assert c == r[1..|c| + 1];
    forall a, b | 0 <= a < b < |c| ensures Precedes(row, c[a], c[b]) {
      assert c[a] == r[a + 1] && c[b] == r[b + 1];
    }
    forall q | 0 <= q < |c| ensures c[q] != r[0] {
      assert c[q] == r[q + 1];
      assert Precedes(row, r[0], r[q + 1]);
    }
  }

  /** An index that is neither the top nor a candidate ranks below every candidate. */
  lemma ExcludedBelowCandidates(row: seq<real>, j: nat)
    requires j < |row| && j != Ranked(row)[0] && j !in Candidates(row)
    ensures forall x :: x in Candidates(row) ==> Precedes(row, x, j)
  {
    var r, c := Ranked(row), Candidates(row);
    assert c == r[1..|c| + 1];
    assert j in r;
    var p :| 0 <= p < |r| && r[p] == j;
    assert p >= |c| + 1;
    forall x | x in c ensures Precedes(row, x, j) {
      var q :| 0 <= q < |c| && c[q] == x;
      assert r[q + 1] == x;
    }
  }

  /** What the candidate slice is: a rank-ordered list of distinct indices of
      the row that leaves out exactly the best-ranked index (whatever row it
      is) and otherwise the best of the rest, so that every other index left
      out ranks below every candidate. */
  lemma CandidatesAreNextBest(row: seq<real>)
    requires |row| > 0
    ensures var c, top := Candidates(row), Ranked(row)[0];
      && RankOrdered(row, c)
      && top !in c
      && (forall j :: 0 <= j < |row| && j != top ==> Precedes(row, top, j))
      && (forall j :: 0 <= j < |row| && j != top && j !in c ==>
            forall x :: x in c ==> Precedes(row, x, j))
  {
    TopPrecedesAll(row);
    CandidatesRankOrdered(row);
    forall j | 0 <= j < |row| && j != Ranked(row)[0] && j !in Candidates(row)
      ensures forall x :: x in Candidates(row) ==> Precedes(row, x, j)
    {
      ExcludedBelowCandidates(row, j);
    }
  }

  /** When the query's own score beats every other entry (strictly, or ties
      only later indices) the slice leaves the query out. */
  lemma SelfExcludedWhenBest(row: seq<real>, q: nat)
    requires q < |row|
    requires forall j :: 0 <= j < |row| && j != q ==> Precedes(row, q, j)
    ensures Ranked(row)[0] == q
    ensures q !in Candidates(row)
  {
    var r := Ranked(row);
    CandidatesAreNextBest(row);
    assert r[0] != q ==> Precedes(row, r[0], q) && Precedes(row, q, r[0]);
  }

  /** The slice does not exclude the query's own index as such: an earlier
      row with an equal score sorts first and the query stays in. */
  lemma SelfKeptAfterEarlierTie()
    ensures Ranked([1.0, 1.0, 0.5]) == [0, 1, 2]
    ensures Candidates([1.0, 1.0, 0.5]) == [1, 2]
  {
    RankedCharacterized([1.0, 1.0, 0.5], [0, 1, 2]);
  }

  /** A row of seven strictly falling scores, such as 1.0, 0.9, ..., 0.4,
      gives candidates 1 to 5 in that order. */
  lemma FallingScoresExample(row: seq<real>)
    requires |row| == 7
    requires forall i, j :: 0 <= i < j < 7 ==> row[i] > row[j]
    ensures Candidates(row) == [1, 2, 3, 4, 5]
  {
    var s: seq<nat> := [0, 1, 2, 3, 4, 5, 6];
    assert RankOrdered(row, s);
    RankedCharacterized(row, s);
  }
}
