/** The two numpy primitives `filter_optimum` leans on: boolean-mask indexing
    (`a[mask]`) and `np.argmin`. */
module Arrays {

  /** `k` is the position `np.argmin(xs)` reports: a minimum of `xs`, and the
      first position that reaches it. */
  predicate IsFirstArgMin(xs: seq<real>, k: int)
  {
    && 0 <= k < |xs|
    && (forall j :: 0 <= j < |xs| ==> xs[k] <= xs[j])
    && (forall j :: 0 <= j < k ==> xs[j] > xs[k])
  }

  /** `np.argmin` on a non-empty one-dimensional array (numpy raises on an
      empty one; callers model that case themselves). */
  function ArgMin(xs: seq<real>): (k: nat)
    requires |xs| > 0
    ensures IsFirstArgMin(xs, k)
  {
    if |xs| == 1 then 0
    else
      var front := xs[..|xs| - 1];
      var k := ArgMin(front);
      assert forall j :: 0 <= j < |front| ==> front[j] == xs[j];
      if xs[|xs| - 1] < xs[k] then |xs| - 1 else k
  }

  /** The first-argmin of a sequence is unique, so `IsFirstArgMin` is an
      independent definition of what `ArgMin` computes. */
  lemma ArgMinIsUnique(xs: seq<real>, k: int)
    requires |xs| > 0
    ensures IsFirstArgMin(xs, k) <==> k == ArgMin(xs)
  {
  }

  /** The positions at which `mask` is true, in increasing order: the index
      list that numpy's `a[mask]` gathers. */
  function TrueIndices(mask: seq<bool>): (r: seq<nat>)
    ensures forall k :: 0 <= k < |r| ==> r[k] < |mask| && mask[r[k]]
    ensures forall i :: 0 <= i < |mask| && mask[i] ==> i in r
    ensures forall k, l :: 0 <= k < l < |r| ==> r[k] < r[l]
  {
    if |mask| == 0 then []
    else
      var front := TrueIndices(mask[..|mask| - 1]);
      if mask[|mask| - 1] then front + [|mask| - 1] else front
  }

  /** The mask selects nothing exactly when it holds nowhere. */
  lemma TrueIndicesEmpty(mask: seq<bool>)
    ensures |TrueIndices(mask)| == 0 <==> forall i :: 0 <= i < |mask| ==> !mask[i]
  {
    var r := TrueIndices(mask);
    if |r| > 0 {
      assert mask[r[0]];
    }
  }
}
