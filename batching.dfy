/**
  The `ibatch` helper: cuts a sequence into consecutive batches of at most
  `size` elements, which the store's bulk writes then execute one batch
  (one transaction) at a time.
 */
module Batching {

  /** The batches laid end to end. */
  function Flatten<T>(batches: seq<seq<T>>): (xs: seq<T>)
    decreases |batches|
  {
    if batches == [] then []
    else Flatten(batches[..|batches| - 1]) + batches[|batches| - 1]
  }

  /**
    `ibatch(xs, size)`. Each round slices the next `size` elements off the
    shared source; the generator stops at the first empty slice, because
    `next` on it raises StopIteration. So a positive size partitions `xs`
    into full batches and one last, possibly shorter, batch; a size of
    zero, or an empty input, yields no batch at all.
   */
  method IBatch<T>(xs: seq<T>, size: nat) returns (batches: seq<seq<T>>)
    ensures size == 0 ==> batches == []
    ensures size > 0 ==> Flatten(batches) == xs
    ensures forall i :: 0 <= i < |batches| ==> 0 < |batches[i]| <= size
    ensures forall i :: 0 <= i < |batches| - 1 ==> |batches[i]| == size
  {
    batches := [];
    if size == 0 {
      return;
    }
    var pos := 0;
    while pos < |xs|
      invariant 0 <= pos <= |xs|
      invariant Flatten(batches) == xs[..pos]
      invariant forall i :: 0 <= i < |batches| ==> 0 < |batches[i]| <= size
      invariant forall i :: 0 <= i < |batches| - 1 ==> |batches[i]| == size
      invariant |batches| > 0 && |batches[|batches| - 1]| < size ==> pos == |xs|
    {
      var n := if |xs| - pos < size then |xs| - pos else size;
      var batch := xs[pos..pos + n];
      assert Flatten(batches + [batch]) == Flatten(batches) + batch by {
        assert (batches + [batch])[..|batches|] == batches;
      }
      batches := batches + [batch];
      pos := pos + n;
    }
    assert xs[..pos] == xs;
  }
}
