/** `split_into_batches`: consecutive order-preserving slices of a list. */
module Batches {
  import opened Common

  /**
   * The slices `lst[i:i + size]` for `i` in `range(0, len(lst), size)`.
   * None is empty and all but the last hold exactly `size` items; they
   * concatenate back to `lst` (`SplitFlattens`) and there are
   * `ceil(len(lst) / size)` of them (`BatchCount`).
   */
  function SplitIntoBatches<T>(lst: seq<T>, size: nat): (batches: seq<seq<T>>)
    requires size >= 1
    ensures forall k :: 0 <= k < |batches| ==> 0 < |batches[k]| <= size
    ensures forall k :: 0 <= k < |batches| - 1 ==> |batches[k]| == size
    decreases |lst|
  {
    if lst == [] then []
    else if |lst| <= size then [lst]
    else
      var rest := SplitIntoBatches(lst[size..], size);
      var batches := [lst[..size]] + rest;
      assert batches[1..] == rest;
      batches
  }

  /** The batches concatenate back to the list: no item is lost, repeated or moved. */
  lemma {:induction false} SplitFlattens<T>(lst: seq<T>, size: nat)
    requires size >= 1
    ensures Flatten(SplitIntoBatches(lst, size)) == lst
    decreases |lst|
  {
    if lst == [] {
    } else if |lst| <= size {
      assert Flatten([lst]) == lst + Flatten([lst][1..]);
    } else {
      var rest := lst[size..];
      var batches := SplitIntoBatches(lst, size);
      assert batches[0] == lst[..size] && batches[1..] == SplitIntoBatches(rest, size);
      SplitFlattens(rest, size);
      assert lst[..size] + rest == lst;
    }
  }

  /** There are just enough batches to hold every item: `ceil(len(lst) / size)` of them. */
  lemma {:induction false} BatchCount<T>(lst: seq<T>, size: nat)
    requires size >= 1
    ensures var m := |SplitIntoBatches(lst, size)|; (m - 1) * size < |lst| <= m * size
    decreases |lst|
  {
    if |lst| > size {
      var rest := lst[size..];
      assert SplitIntoBatches(lst, size) == [lst[..size]] + SplitIntoBatches(rest, size);
      BatchCount(rest, size);
      var m := |SplitIntoBatches(rest, size)|;
      assert (m + 1) * size == m * size + size;
      assert (m - 1) * size == m * size - size;
    }
  }

  /** Python's `(n + size - 1) // size` is the batch count. */
  lemma BatchCountFormula<T>(lst: seq<T>, size: nat)
    requires size >= 1
    ensures |SplitIntoBatches(lst, size)| == (|lst| + size - 1) / size
  {
    var m := |SplitIntoBatches(lst, size)|;
    BatchCount(lst, size);
    assert (m - 1) * size == m * size - size;
    DivUnique(|lst| + size - 1, size, m);
  }

  /** Floor division is determined by the bounds `q * d <= a < q * d + d`. */
  lemma DivUnique(a: int, d: int, q: int)
    requires d > 0
    requires q * d <= a < q * d + d
    ensures a / d == q
  {
    var q0, r0 := a / d, a % d;
    assert a == q0 * d + r0 && 0 <= r0 < d;
    if q0 > q {
      assert (q + 1) * d == q * d + d;
      MulMono(q + 1, q0, d);
    } else if q0 < q {
      assert (q0 + 1) * d == q0 * d + d;
      MulMono(q0 + 1, q, d);
    }
  }

  lemma MulMono(x: int, y: int, d: int)
    requires x <= y && d >= 0
    ensures x * d <= y * d
  {
    assert y * d - x * d == (y - x) * d;
  }

  /** Batch `k` is the slice that starts at `k * size`, as the generator's index `i` runs. */
  lemma BatchAt<T>(lst: seq<T>, size: nat, k: nat)
    requires size >= 1
    requires k < |SplitIntoBatches(lst, size)|
    ensures k * size < |lst|
    ensures SplitIntoBatches(lst, size)[k] == lst[k * size .. Min(k * size + size, |lst|)]
  {
    BatchAtOffset(lst, size, k);
    OffsetIsProduct(k, size);
  }

  /**
   * The first `k + 1` batches are the first `k` followed by the slice
   * `lst[start:start + size]`, for `start == k * size`, as the generator takes it.
   */
  lemma BatchPrefixStep<T>(lst: seq<T>, size: nat, k: nat, start: nat, end: nat)
    requires size >= 1
    requires k < |SplitIntoBatches(lst, size)|
    requires start == k * size && end == Min(start + size, |lst|)
    ensures start < end <= |lst|
    ensures var batches := SplitIntoBatches(lst, size);
      batches[..k + 1] == batches[..k] + [lst[start..end]]
  {
    BatchAt(lst, size, k);
    var batches := SplitIntoBatches(lst, size);
    assert batches[..k + 1] == batches[..k] + [batches[k]];
  }

  /** `k * size`, spelled as the generator's index reaches it: `size` added `k` times. */
  function Offset(k: nat, size: nat): nat
  {
    if k == 0 then 0 else Offset(k - 1, size) + size
  }

  lemma {:induction false} OffsetIsProduct(k: nat, size: nat)
    ensures Offset(k, size) == k * size
  {
    if k > 0 {
      OffsetIsProduct(k - 1, size);
      assert (k - 1) * size + size == k * size;
    }
  }

  /** A list longer than one batch splits into its first `size` items and the batches of the rest. */
  lemma SplitUnfold<T>(lst: seq<T>, size: nat)
    requires size >= 1 && |lst| > size
    ensures SplitIntoBatches(lst, size) == [lst[..size]] + SplitIntoBatches(lst[size..], size)
  {
  }

  /** A list of at most one batch's length splits into at most one batch. */
  lemma SplitShort<T>(lst: seq<T>, size: nat)
    requires size >= 1 && |lst| <= size
    ensures SplitIntoBatches(lst, size) == if lst == [] then [] else [lst]
  {
  }

  lemma {:induction false} BatchAtOffset<T>(lst: seq<T>, size: nat, k: nat)
    requires size >= 1
    requires k < |SplitIntoBatches(lst, size)|
    ensures Offset(k, size) < |lst|
    ensures SplitIntoBatches(lst, size)[k] == lst[Offset(k, size) .. Min(Offset(k, size) + size, |lst|)]
    decreases |lst|
  {
    if |lst| <= size {
      SplitShort(lst, size);
    } else {
      var rest := lst[size..];
      SplitUnfold(lst, size);
      if k > 0 {
        BatchAtOffset(rest, size, k - 1);
        var j := Offset(k - 1, size);
        var e := Min(j + size, |rest|);
        assert e + size == Min(j + size + size, |lst|);
        SliceOfSuffix(lst, size, j, e);
      }
    }
  }

  lemma SliceOfSuffix<T>(lst: seq<T>, d: nat, a: nat, b: nat)
    requires d <= |lst| && a <= b <= |lst| - d
    ensures lst[d..][a..b] == lst[d + a .. d + b]
  {
  }
}
