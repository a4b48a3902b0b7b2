/**
 * Ordered sequences of identifiers: the shape of the element's option lists
 * (`allOptions`, `visibleOptions`, `availableOptions`) and of the host's options
 * in document order.
 */
module Seqs {

  /** Strictly increasing, hence also free of duplicates. */
  predicate Increasing(s: seq<nat>)
  {
    forall i, j :: 0 <= i < j < |s| ==> s[i] < s[j]
  }

  /** `a` is `b` with some elements left out, the rest in `b`'s order. */
  predicate Sub(a: seq<nat>, b: seq<nat>)
    decreases |b|
  {
    a == [] || (b != [] && ((a[0] == b[0] && Sub(a[1..], b[1..])) || Sub(a, b[1..])))
  }

  /** `n` consecutive identifiers starting at `base`. */
  function Ids(base: nat, n: nat): (r: seq<nat>)
    ensures |r| == n
    ensures forall i :: 0 <= i < n ==> r[i] == base + i
  {
    seq(n, i requires 0 <= i < n => base + i)
  }

  /** Consecutive identifiers are increasing, all at least `base` and below `base + n`. */
  lemma IdsIncreasing(base: nat, n: nat)
    ensures Increasing(Ids(base, n))
    ensures forall id :: id in Ids(base, n) <==> base <= id < base + n
  {
    var r := Ids(base, n);
    forall id | base <= id < base + n ensures id in r {
      assert r[id - base] == id;
    }
  }

  lemma IdsSnoc(base: nat, n: nat)
    ensures Ids(base, n + 1) == Ids(base, n) + [base + n]
  {
  }

  lemma ConcatAssoc<T>(a: seq<T>, b: seq<T>, c: seq<T>)
    ensures a + b + c == a + (b + c)
  {
  }

  /** For increasing sequences, being a subsequence is being a subset. */
  lemma {:induction false} IncreasingSubsetIsSub(a: seq<nat>, b: seq<nat>)
    requires Increasing(a) && Increasing(b)
    requires forall x :: x in a ==> x in b
    ensures Sub(a, b)
    decreases |b|
  {
    if a != [] {
      assert a[0] in b;
      var k :| 0 <= k < |b| && b[k] == a[0];
      if a[0] == b[0] {
        forall x | x in a[1..] ensures x in b[1..] {
          var i :| 1 <= i < |a| && a[i] == x;
          assert x in a;
          var j :| 0 <= j < |b| && b[j] == x;
          assert j != 0;
        }
        IncreasingSubsetIsSub(a[1..], b[1..]);
      } else {
        assert k > 0;
        forall x | x in a ensures x in b[1..] {
          var i :| 0 <= i < |a| && a[i] == x;
          var j :| 0 <= j < |b| && b[j] == x;
          assert b[0] < b[k] && a[0] <= a[i];
          assert j != 0;
        }
        IncreasingSubsetIsSub(a, b[1..]);
      }
    }
  }

  /** Appending larger elements keeps a sequence increasing. */
  lemma ConcatIncreasing(a: seq<nat>, b: seq<nat>)
    requires Increasing(a) && Increasing(b)
    requires forall x, y :: x in a && y in b ==> x < y
    ensures Increasing(a + b)
  {
    forall i, j | 0 <= i < j < |a + b| ensures (a + b)[i] < (a + b)[j] {
      if j >= |a| && i < |a| {
        assert a[i] in a && b[j - |a|] in b;
      }
    }
  }

  /** In an increasing sequence, every element of a prefix is below every later element. */
  lemma IncreasingSplit(a: seq<nat>, b: seq<nat>)
    requires Increasing(a + b)
    ensures Increasing(a) && Increasing(b)
    ensures forall x, y :: x in a && y in b ==> x < y
  {
    assert forall i :: 0 <= i < |a| ==> (a + b)[i] == a[i];
    assert forall i :: 0 <= i < |b| ==> (a + b)[|a| + i] == b[i];
    forall x, y | x in a && y in b ensures x < y {
      var i :| 0 <= i < |a| && a[i] == x;
      var j :| 0 <= j < |b| && b[j] == y;
      assert (a + b)[i] < (a + b)[|a| + j];
    }
  }
}
