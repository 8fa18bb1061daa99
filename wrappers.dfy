/** Option and Result, standing for Rust's `Option` and `Result`, and flattening a sequence of options. */
module Wrappers {

  datatype Option<+T> = None | Some(value: T)

  datatype Result<+T, +E> = Ok(value: T) | Err(error: E)

  /** The elements of the `Some`s, in order: what `flat_map` over `Option`s yields. */
  function Somes<T>(xs: seq<Option<T>>): (ys: seq<T>)
    ensures |ys| <= |xs|
    decreases |xs|
  {
    if xs == [] then []
    else if xs[|xs| - 1].Some? then Somes(xs[..|xs| - 1]) + [xs[|xs| - 1].value]
    else Somes(xs[..|xs| - 1])
  }

  /** Flattening `Some`s followed by `None`s keeps exactly the `Some`s. */
  lemma {:induction false} SomesPrefix<T>(xs: seq<Option<T>>, k: nat)
    requires k <= |xs|
    requires forall i :: 0 <= i < k ==> xs[i].Some?
    requires forall i :: k <= i < |xs| ==> xs[i].None?
    ensures |Somes(xs)| == k
    ensures forall i :: 0 <= i < k ==> Somes(xs)[i] == xs[i].value
    decreases |xs|
  {
    if xs != [] {
      var pre := xs[..|xs| - 1];
      if k == |xs| {
        SomesPrefix(pre, k - 1);
      } else {
        SomesPrefix(pre, k);
      }
    }
  }

  /** The positions of the `Some`s, in increasing order. */
  function SomePositions<T>(xs: seq<Option<T>>): (ks: seq<nat>)
    ensures forall k :: 0 <= k < |ks| ==> ks[k] < |xs| && xs[ks[k]].Some?
    ensures forall k, l :: 0 <= k < l < |ks| ==> ks[k] < ks[l]
    decreases |xs|
  {
    if xs == [] then []
    else
      var rest := SomePositions(xs[..|xs| - 1]);
      assert forall k :: 0 <= k < |rest| ==> xs[..|xs| - 1][rest[k]] == xs[rest[k]];
      if xs[|xs| - 1].Some? then rest + [|xs| - 1] else rest
  }

  /** Every `Some` has its position listed. */
  lemma {:induction false} SomePositionsComplete<T>(xs: seq<Option<T>>)
    ensures forall i :: 0 <= i < |xs| && xs[i].Some? ==> i in SomePositions(xs)
    decreases |xs|
  {
    if xs != [] {
      var pre := xs[..|xs| - 1];
      SomePositionsComplete(pre);
      forall i | 0 <= i < |xs| - 1 && xs[i].Some?
        ensures i in SomePositions(xs)
      {
        assert pre[i] == xs[i];
      }
    }
  }

  /** The flattened values are the values at the `Some` positions, in order. */
  lemma {:induction false} SomesAtPositions<T>(xs: seq<Option<T>>)
    ensures var ks := SomePositions(xs);
            && |Somes(xs)| == |ks|
            && forall k :: 0 <= k < |ks| ==> Somes(xs)[k] == xs[ks[k]].value
    decreases |xs|
  {
    if xs != [] {
      var pre := xs[..|xs| - 1];
      SomesAtPositions(pre);
      var kp, sp := SomePositions(pre), Somes(pre);
      assert forall k :: 0 <= k < |kp| ==> pre[kp[k]] == xs[kp[k]];
      if xs[|xs| - 1].Some? {
        var n := |xs| - 1;
        assert SomePositions(xs) == kp + [n] && Somes(xs) == sp + [xs[n].value];
        forall k | 0 <= k < |kp| + 1
          ensures (sp + [xs[n].value])[k] == xs[(kp + [n])[k]].value
        {
          if k < |kp| {
            assert (sp + [xs[n].value])[k] == sp[k] && (kp + [n])[k] == kp[k];
          }
        }
      }
    }
  }

  /** Flattening a concatenation flattens each part. */
  lemma {:induction false} SomesOfConcat<T>(a: seq<Option<T>>, b: seq<Option<T>>)
    ensures Somes(a + b) == Somes(a) + Somes(b)
    decreases |b|
  {
    if b != [] {
      var b' := b[..|b| - 1];
      assert (a + b)[..|a + b| - 1] == a + b';
      SomesOfConcat(a, b');
    } else {
      assert a + b == a;
    }
  }
}
