/**
 Order-preserving subsequences: what is left of a list once some of its
 positions have been removed one by one, front to back.
 */
module Subsequences {

  /** The elements of `xs` whose `drop` flag is clear, in their original order. */
  function Filter<T>(xs: seq<T>, drop: seq<bool>): (ys: seq<T>)
    requires |drop| == |xs|
    ensures |ys| == |KeptIndices(drop)| <= |xs|
    decreases |xs|
  {
    if xs == [] then []
    else
      var n := |xs| - 1;
      Filter(xs[..n], drop[..n]) + (if drop[n] then [] else [xs[n]])
  }

  /** The positions whose `drop` flag is clear, in increasing order. */
  function KeptIndices(drop: seq<bool>): (ks: seq<nat>)
    ensures |ks| <= |drop|
    ensures forall k :: 0 <= k < |ks| ==> ks[k] < |drop|
    decreases |drop|
  {
    if drop == [] then []
    else
      var n := |drop| - 1;
      KeptIndices(drop[..n]) + (if drop[n] then [] else [n])
  }

  /** Each kept element is the element at the matching kept position. */
  lemma {:induction false} FilterAt<T>(xs: seq<T>, drop: seq<bool>)
    requires |drop| == |xs|
    ensures forall k :: 0 <= k < |Filter(xs, drop)| ==> Filter(xs, drop)[k] == xs[KeptIndices(drop)[k]]
    decreases |xs|
  {
    if xs != [] {
      var n := |xs| - 1;
      FilterAt(xs[..n], drop[..n]);
      var ys, ks := Filter(xs[..n], drop[..n]), KeptIndices(drop[..n]);
      assert Filter(xs, drop) == ys + (if drop[n] then [] else [xs[n]]);
      assert KeptIndices(drop) == ks + (if drop[n] then [] else [n]);
      forall k | 0 <= k < |Filter(xs, drop)| ensures Filter(xs, drop)[k] == xs[KeptIndices(drop)[k]] {
        if k < |ys| {
          assert ys[k] == xs[..n][ks[k]];
        }
      }
    }
  }

  /** The kept positions are strictly increasing. */
  lemma {:induction false} KeptIndicesIncrease(drop: seq<bool>)
    ensures forall k, l :: 0 <= k < l < |KeptIndices(drop)| ==> KeptIndices(drop)[k] < KeptIndices(drop)[l]
    decreases |drop|
  {
    if drop != [] {
      var n := |drop| - 1;
      KeptIndicesIncrease(drop[..n]);
      var ks := KeptIndices(drop[..n]);
      assert KeptIndices(drop) == ks + (if drop[n] then [] else [n]);
    }
  }

  /** A position is kept exactly when its flag is clear. */
  lemma {:induction false} KeptIndicesExactly(drop: seq<bool>)
    ensures forall i :: 0 <= i < |drop| ==> (i in KeptIndices(drop) <==> !drop[i])
    decreases |drop|
  {
    if drop != [] {
      var n := |drop| - 1;
      KeptIndicesExactly(drop[..n]);
      var ks := KeptIndices(drop[..n]);
      assert KeptIndices(drop) == ks + (if drop[n] then [] else [n]);
      assert forall i :: 0 <= i < n ==> drop[..n][i] == drop[i];
      assert n !in ks;
    }
  }

  /**
   The filtered list is exactly the elements at the clear positions, taken in
   increasing order of position.
   */
  lemma FilterKeepsExactly<T>(xs: seq<T>, drop: seq<bool>)
    requires |drop| == |xs|
    ensures |Filter(xs, drop)| == |KeptIndices(drop)|
    ensures forall k :: 0 <= k < |Filter(xs, drop)| ==> Filter(xs, drop)[k] == xs[KeptIndices(drop)[k]]
    ensures forall k, l :: 0 <= k < l < |KeptIndices(drop)| ==> KeptIndices(drop)[k] < KeptIndices(drop)[l]
    ensures forall i :: 0 <= i < |xs| ==> (i in KeptIndices(drop) <==> !drop[i])
  {
    FilterAt(xs, drop);
    KeptIndicesIncrease(drop);
    KeptIndicesExactly(drop);
  }

  /** Dropping nothing keeps the whole list. */
  lemma {:induction false} FilterNothing<T>(xs: seq<T>, drop: seq<bool>)
    requires |drop| == |xs| && forall i :: 0 <= i < |drop| ==> !drop[i]
    ensures Filter(xs, drop) == xs
    decreases |xs|
  {
    if xs != [] {
      var n := |xs| - 1;
      FilterNothing(xs[..n], drop[..n]);
      assert xs[..n] + [xs[n]] == xs;
    }
  }

  /** The list while it is being filtered in place: the positions `done` decides filtered, the rest untouched. */
  function Pending<T>(xs: seq<T>, done: seq<bool>): (p: seq<T>)
    requires |done| <= |xs|
    ensures |p| == |Filter(xs[..|done|], done)| + |xs| - |done|
  {
    Filter(xs[..|done|], done) + xs[|done|..]
  }

  /** Before the first step nothing is done. */
  lemma PendingStart<T>(xs: seq<T>)
    ensures Pending(xs, []) == xs
  {
    assert xs[..0] == [];
  }

  /** After the last step the list is filtered. */
  lemma PendingDone<T>(xs: seq<T>, drop: seq<bool>)
    requires |drop| == |xs|
    ensures Pending(xs, drop) == Filter(xs, drop)
  {
    assert xs[..|xs|] == xs;
  }

  /** The next step of the in-place filter finds its element at the first undone position and removes it there when it is dropped. */
  lemma PendingStep<T>(xs: seq<T>, done: seq<bool>, d: bool)
    requires |done| < |xs|
    ensures var i, pos := |done|, |Filter(xs[..|done|], done)|;
            && pos <= i && pos < |Pending(xs, done)| && Pending(xs, done)[pos] == xs[i]
            && |Filter(xs[..i + 1], done + [d])| == pos + (if d then 0 else 1)
            && Pending(xs, done + [d]) == if d then Pending(xs, done)[..pos] + Pending(xs, done)[pos + 1..]
                                          else Pending(xs, done)
  {
    var i := |done|;
    var drop := done + [d];
    assert drop[..i] == done;
    assert xs[..i + 1][..i] == xs[..i];
    var done' := Filter(xs[..i], done);
    assert Filter(xs[..i + 1], drop) == done' + (if d then [] else [xs[i]]);
    assert xs[i..] == [xs[i]] + xs[i + 1..];
    var p := Pending(xs, done);
    if d {
      assert p[..|done'|] == done';
      assert p[|done'| + 1..] == xs[i + 1..];
    }
  }
}
