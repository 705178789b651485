// What the tables and the graph need to say about sequences.
module Sequences {
  // No element occurs twice.
  predicate Distinct<T(==)>(s: seq<T>) {
    forall i, j :: 0 <= i < j < |s| ==> s[i] != s[j]
  }

  // Positions of a sequence of length n, from left to right.
  predicate Rising(at: seq<nat>, n: nat) {
    && (forall k :: 0 <= k < |at| ==> at[k] < n)
    && (forall j, k :: 0 <= j < k < |at| ==> at[j] < at[k])
  }

  // The elements of one sequence stand in the other in the same order.
  ghost predicate Subsequence<T>(part: seq<T>, whole: seq<T>) {
    exists at: seq<nat> :: |at| == |part| && Rising(at, |whole|) && forall k :: 0 <= k < |at| ==> part[k] == whole[at[k]]
  }

  lemma EmptySubsequence<T>(whole: seq<T>)
    ensures Subsequence([], whole)
  {
    var at: seq<nat> := [];
    assert Rising(at, |whole|);
  }

  // One more element of the whole is left out, or kept.
  lemma OneMoreElement<T>(part: seq<T>, whole: seq<T>, x: T)
    requires Subsequence(part, whole)
    ensures Subsequence(part, whole + [x]) && Subsequence(part + [x], whole + [x])
  {
    var at: seq<nat> :| |at| == |part| && Rising(at, |whole|) && forall k :: 0 <= k < |at| ==> part[k] == whole[at[k]];
    assert Rising(at, |whole + [x]|);
    var more := at + [|whole|];
    assert Rising(more, |whole + [x]|);
    assert forall k :: 0 <= k < |more| ==> (part + [x])[k] == (whole + [x])[more[k]];
    assert forall k :: 0 <= k < |at| ==> part[k] == (whole + [x])[at[k]];
  }

  // Rising positions are determined by which they are.
  lemma {:induction false} RisingUnique(a: seq<nat>, b: seq<nat>, n: nat)
    requires Rising(a, n) && Rising(b, n) && forall i: nat :: i in a <==> i in b
    ensures a == b
    decreases |a|
  {
    if b != [] {
      assert b[|b| - 1] in a;
    }
    if a != [] {
      assert a[|a| - 1] in b;
      var x, y := a[|a| - 1], b[|b| - 1];
      assert x == y;
      var c, d := a[..|a| - 1], b[..|b| - 1];
      assert a == c + [x] && b == d + [x];
      forall i: nat ensures i in c <==> i in d {
        assert i in c ==> i in a && i != x;
        assert i in d ==> i in b && i != x;
      }
      RisingUnique(c, d, n);
    }
  }
}
