/**
 * Generic facts about sequences: putting a sequence of sequences together, and
 * sequences without repeated elements, used to show that the reorder rewrite only
 * permutes lines.
 */
module Seqs {

  /** The pieces one after the other: the lines of a file as its text, or the lines of several files as one list. */
  function Flatten<T>(xs: seq<seq<T>>): seq<T> {
    if |xs| == 0 then [] else xs[0] + Flatten(xs[1..])
  }

  /** A non-empty sequence is its head followed by its tail. */
  lemma HeadTail<T>(s: seq<T>)
    requires |s| > 0
    ensures [s[0]] + s[1..] == s
  {
  }

  /** Dropping the head of a cons leaves its tail. */
  lemma DropCons<T>(x: T, s: seq<T>)
    ensures ([x] + s)[1..] == s
  {
  }

  /** A prefix of a sequence with a head added is the head followed by a prefix of the tail. */
  lemma TakeCons<T>(x: T, rest: seq<T>, i: nat)
    requires 0 < i <= |rest| + 1
    ensures ([x] + rest)[..i] == [x] + rest[..i - 1]
  {
  }

  /** A prefix reaching past a fixed front is that front followed by a prefix of the rest. */
  lemma TakeAppend<T>(a: seq<T>, x: seq<T>, n: nat)
    requires n <= |x|
    ensures (a + x)[..|a| + n] == a + x[..n]
  {
  }

  /** Flattening a piece followed by more pieces. */
  lemma FlattenCons<T>(x: seq<T>, rest: seq<seq<T>>)
    ensures Flatten([x] + rest) == x + Flatten(rest)
  {
    assert ([x] + rest)[1..] == rest;
  }

  /** Flattening distributes over concatenation. */
  lemma {:induction false} FlattenAppend<T>(a: seq<seq<T>>, b: seq<seq<T>>)
    ensures Flatten(a + b) == Flatten(a) + Flatten(b)
    decreases |a|
  {
    if |a| == 0 {
      assert a + b == b;
    } else {
      assert (a + b)[1..] == a[1..] + b;
      FlattenAppend(a[1..], b);
    }
  }

  /** No element occurs twice. */
  predicate Distinct<T(==)>(s: seq<T>) {
    forall i, j :: 0 <= i < j < |s| ==> s[i] != s[j]
  }

  /** The elements of `s`. */
  function Elems<T>(s: seq<T>): set<T> {
    set x | x in s
  }

  /** A sequence without repeats has as many elements as its set. */
  lemma {:induction false} DistinctCard<T>(s: seq<T>)
    requires Distinct(s)
    ensures |Elems(s)| == |s|
  {
    if |s| > 0 {
      var p := s[..|s| - 1];
      var x := s[|s| - 1];
      assert Distinct(p);
      DistinctCard(p);
      assert s == p + [x];
      assert Elems(s) == Elems(p) + {x};
      assert x !in Elems(p);
    }
  }

  /** Two sequences without repeats and with the same elements have the same length. */
  lemma SameElemsSameLength<T>(a: seq<T>, b: seq<T>)
    requires Distinct(a) && Distinct(b) && Elems(a) == Elems(b)
    ensures |a| == |b|
  {
    DistinctCard(a);
    DistinctCard(b);
  }

  /** Where `x` first occurs in `s`. */
  function IndexOf<T(==)>(s: seq<T>, x: T): (i: nat)
    requires x in s
    ensures i < |s| && s[i] == x && forall j :: 0 <= j < i ==> s[j] != x
  {
    if s[0] == x then 0 else 1 + IndexOf(s[1..], x)
  }

  /**
   * If `a[k]` is `b[p[k]]` for an index sequence `p` that never repeats and points into
   * `b`, and `a` and `b` have the same length, then `a` is a rearrangement of `b`.
   */
  lemma {:induction false} PermutationByIndex<T>(a: seq<T>, b: seq<T>, p: seq<int>)
    requires |a| == |b| == |p| && Distinct(p)
    requires forall k :: 0 <= k < |p| ==> 0 <= p[k] < |b| && a[k] == b[p[k]]
    ensures multiset(a) == multiset(b)
  {
    if |a| > 0 {
      var n := |a|;
      var j := p[n - 1];
      var b' := b[..j] + b[j + 1..];
      var p' := seq(n - 1, k requires 0 <= k < n - 1 => if p[k] < j then p[k] else p[k] - 1);
      var a' := a[..n - 1];
      forall k | 0 <= k < n - 1
        ensures 0 <= p'[k] < |b'| && a'[k] == b'[p'[k]]
      {
        assert p[k] != j;
      }
      forall k1, k2 | 0 <= k1 < k2 < n - 1 ensures p'[k1] != p'[k2] {
        assert p[k1] != p[k2] && p[k1] != j && p[k2] != j;
      }
      PermutationByIndex(a', b', p');
      assert a == a' + [a[n - 1]];
      assert b == b[..j] + [b[j]] + b[j + 1..];
    }
  }
}
