/**
 * Index-level views of sequences: the positions an `Array.prototype.filter` keeps,
 * the position a first-match loop returns, and the position of a value.
 */
module Seqs {

  /** Strictly increasing: a sequence of distinct positions listed in order. */
  ghost predicate Increasing(s: seq<nat>) {
    forall i, j :: 0 <= i < j < |s| ==> s[i] < s[j]
  }

  /** Distinct increasing positions spread at least one apart. */
  lemma {:induction false} IncreasingSpread(s: seq<nat>)
    requires Increasing(s) && |s| > 0
    ensures s[|s| - 1] - s[0] >= |s| - 1
  {
    if |s| > 1 {
      IncreasingSpread(s[..|s| - 1]);
    }
  }

  /** The positions of `s` whose element satisfies `p`, in order. */
  function IndicesWhere<T>(s: seq<T>, p: T -> bool): (r: seq<nat>)
    ensures Increasing(r)
    ensures forall k :: 0 <= k < |r| ==> r[k] < |s| && p(s[r[k]])
    ensures forall i :: 0 <= i < |s| && p(s[i]) ==> i in r
    ensures r == [] <==> forall i :: 0 <= i < |s| ==> !p(s[i])
  {
    if s == [] then []
    else
      var r := IndicesWhere(s[..|s| - 1], p);
      if p(s[|s| - 1]) then r + [|s| - 1] else r
  }

  /** The first position whose element satisfies `p`, or -1 when there is none. */
  function FirstWhere<T>(s: seq<T>, p: T -> bool): (r: int)
    ensures -1 <= r < |s|
    ensures r >= 0 ==> p(s[r]) && forall j :: 0 <= j < r ==> !p(s[j])
    ensures r == -1 ==> forall j :: 0 <= j < |s| ==> !p(s[j])
  {
    if s == [] then -1
    else if p(s[0]) then 0
    else
      var r := FirstWhere(s[1..], p);
      assert forall j :: 1 <= j < |s| ==> s[j] == s[1..][j - 1];
      if r == -1 then -1 else r + 1
  }

  /** The first position holding `x`, or -1 when `x` does not occur (JavaScript's `indexOf`). */
  function Position(s: seq<nat>, x: int): (r: int)
    ensures -1 <= r < |s|
    ensures r >= 0 ==> s[r] == x && forall j :: 0 <= j < r ==> s[j] != x
    ensures r == -1 ==> x !in s
  {
    if s == [] then -1
    else if s[0] == x then 0
    else
      var r := Position(s[1..], x);
      assert forall j :: 1 <= j < |s| ==> s[j] == s[1..][j - 1];
      if r == -1 then -1 else r + 1
  }

  /** When exactly one position satisfies `p`, the filter keeps exactly that position. */
  lemma IndicesWhereSingle<T>(s: seq<T>, p: T -> bool, i: nat)
    requires i < |s| && p(s[i])
    requires forall j :: 0 <= j < |s| && j != i ==> !p(s[j])
    ensures IndicesWhere(s, p) == [i]
  {
    var r := IndicesWhere(s, p);
    assert i in r;
    assert forall k :: 0 <= k < |r| ==> r[k] == i;
    IncreasingSpread(r);
  }

  /** The first position a first-match loop finds is the head of the filtered positions. */
  lemma FirstWhereIsHeadOfIndices<T>(s: seq<T>, p: T -> bool)
    ensures var r := IndicesWhere(s, p);
      FirstWhere(s, p) == if |r| == 0 then -1 else r[0]
  {
    var r := IndicesWhere(s, p);
    var f := FirstWhere(s, p);
    if f >= 0 {
      assert f in r;
      assert r[0] <= f by {
        var k :| 0 <= k < |r| && r[k] == f;
        if k > 0 { assert r[0] < r[k]; }
      }
    }
  }
}
