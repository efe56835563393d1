/**
 * Folding one value per rank with the reduction operator. The engine folds
 * at the root, the root's own contribution first; these lemmas show that for
 * a lawful operator the order of the fold is irrelevant, so every root gets
 * the same answer as a plain fold in rank order.
 */
module Folds {
  import opened Operators

  /** Left fold of a non-empty sequence of contributions, in sequence order. */
  function Fold<T>(op: (T, T) -> T, xs: seq<T>): T
    requires |xs| > 0
    decreases |xs|
  {
    if |xs| == 1 then xs[0] else op(Fold(op, xs[..|xs| - 1]), xs[|xs| - 1])
  }

  /** The order in which the root folds: its own contribution, then every other rank in rank order. */
  function RootOrder<T>(xs: seq<T>, root: nat): (ys: seq<T>)
    requires root < |xs|
    ensures |ys| == |xs| && ys[0] == xs[root]
    ensures multiset(ys) == multiset(xs)
  {
    assert xs == xs[..root] + [xs[root]] + xs[root + 1..];
    [xs[root]] + xs[..root] + xs[root + 1..]
  }

  lemma {:induction false} FoldAppend<T(!new)>(op: (T, T) -> T, xs: seq<T>, ys: seq<T>)
    requires Associative(op) && |xs| > 0 && |ys| > 0
    ensures Fold(op, xs + ys) == op(Fold(op, xs), Fold(op, ys))
    decreases |ys|
  {
    var zs := xs + ys;
    if |ys| == 1 {
      assert zs[..|zs| - 1] == xs;
    } else {
      var ys' := ys[..|ys| - 1];
      assert zs[..|zs| - 1] == xs + ys';
      FoldAppend(op, xs, ys');
    }
  }

  /** Any single contribution may be folded in last. */
  lemma {:induction false} FoldExtract<T(!new)>(op: (T, T) -> T, ys: seq<T>, j: nat)
    requires Lawful(op) && j < |ys| && |ys| >= 2
    ensures Fold(op, ys) == op(Fold(op, ys[..j] + ys[j + 1..]), ys[j])
    decreases |ys|
  {
    var n := |ys|;
    if j == n - 1 {
      assert ys[..j] + ys[j + 1..] == ys[..n - 1];
    } else if n == 2 {
      assert ys[..j] + ys[j + 1..] == [ys[1]];
      assert ys[..n - 1] == [ys[0]];
    } else {
      var init := ys[..n - 1];
      var z := ys[n - 1];
      FoldExtract(op, init, j);
      var rest := init[..j] + init[j + 1..];
      assert ys[..j] + ys[j + 1..] == rest + [z];
      assert (rest + [z])[..|rest|] == rest;
      calc {
        Fold(op, ys);
        op(Fold(op, init), z);
        op(op(Fold(op, rest), ys[j]), z);
        op(Fold(op, rest), op(ys[j], z));
        op(Fold(op, rest), op(z, ys[j]));
        op(op(Fold(op, rest), z), ys[j]);
        op(Fold(op, rest + [z]), ys[j]);
      }
    }
  }

  /** Dropping element j removes one occurrence of it from the multiset. */
  lemma RemoveAt<T>(s: seq<T>, j: nat)
    requires j < |s|
    ensures multiset(s[..j] + s[j + 1..]) == multiset(s) - multiset{s[j]}
  {
    assert s == s[..j] + [s[j]] + s[j + 1..];
  }

  lemma RemoveLast<T>(s: seq<T>)
    requires |s| > 0
    ensures multiset(s[..|s| - 1]) == multiset(s) - multiset{s[|s| - 1]}
  {
    assert s == s[..|s| - 1] + [s[|s| - 1]];
  }

  /** A lawful operator folds any permutation of the contributions to the same value. */
  lemma {:induction false} FoldPermutation<T(!new)>(op: (T, T) -> T, xs: seq<T>, ys: seq<T>)
    requires Lawful(op) && |xs| > 0 && multiset(xs) == multiset(ys)
    ensures |ys| == |xs| && Fold(op, xs) == Fold(op, ys)
    decreases |xs|
  {
    assert |ys| == |multiset(ys)| == |xs|;
    var n := |xs|;
    var x := xs[n - 1];
    assert x in multiset(xs);
    assert x in ys;
    var j :| 0 <= j < |ys| && ys[j] == x;
    if n == 1 {
      assert ys == [x];
    } else {
      var ys' := ys[..j] + ys[j + 1..];
      RemoveAt(ys, j);
      RemoveLast(xs);
      FoldPermutation(op, xs[..n - 1], ys');
      FoldExtract(op, ys, j);
    }
  }

  /** Folding at the root, its own value first, equals the fold in rank order. */
  lemma {:induction false} RootFoldIsFold<T(!new)>(op: (T, T) -> T, xs: seq<T>, root: nat)
    requires Lawful(op) && root < |xs|
    ensures Fold(op, RootOrder(xs, root)) == Fold(op, xs)
  {
    FoldPermutation(op, xs, RootOrder(xs, root));
  }
}
