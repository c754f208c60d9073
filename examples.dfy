/** Clients of the ScanB adapter: the documented example and the consumption guarantees. */
module ScanBExamples {
  import opened Iter
  import opened IterScanB

  /** The running product, negated: `*state *= x; -*state`. */
  function NegatedProduct(state: int, x: int): (int, int)
  {
    (state * x, -(state * x))
  }

  /** The documented example: [1, 2, 3, 4] from state 1 yields -1, -2, -6, -24, then None. */
  method DocExample() returns (r1: Option<int>, r2: Option<int>, r3: Option<int>, r4: Option<int>, r5: Option<int>)
    ensures r1 == Some(-1) && r2 == Some(-2) && r3 == Some(-6) && r4 == Some(-24)
    ensures r5 == None
  {
    var it := new ScanB(Source([Some(1), Some(2), Some(3), Some(4)], true), 1, NegatedProduct);
    r1 := it.Next();
    assert it.iter.answers == [Some(2), Some(3), Some(4)] && it.state == 1;
    r2 := it.Next();
    assert it.iter.answers == [Some(3), Some(4)] && it.state == 2;
    r3 := it.Next();
    assert it.iter.answers == [Some(4)] && it.state == 6;
    r4 := it.Next();
    assert it.iter.answers == [];
    r5 := it.Next();
  }

  /** An empty source ends the adapter on the first pull, and the state is never touched. */
  method EmptySource<S, B>(s0: S, f: (S, int) -> (S, B), exact: bool) returns (r: Option<B>, s: S)
    ensures r == None && s == s0
  {
    var it := new ScanB(Source([], exact), s0, f);
    r := it.Next();
    s := it.state;
  }

  /**
    Folding a fresh adapter gives the accumulator that pulling with `next`
    until None and then folding gives, and applies f as many times as the
    pulls yield items.
   */
  method FoldAgreesWithPulls<T, S, B, A>(source: Source<T>, s0: S, f: (S, T) -> (S, B), init: A, g: (A, B) -> A)
    returns (viaFold: A, viaNext: A, pulled: nat, ghost applied: nat)
    ensures viaFold == viaNext
    ensures pulled == |Elements(source.answers)|
    ensures applied == pulled
  {
    var a := new ScanB(source, s0, f);
    viaFold, applied := a.Fold(init, g);
    var b := new ScanB(source, s0, f);
    var bs := b.PullUntilNone();
    viaNext := FoldLeft(g, init, bs);
    pulled := |bs|;
  }

  /** Over a fused source, once `next` has answered None it answers None on every later pull. */
  method PullsAfterExhaustion<T, S, B>(it: ScanB<T, S, B>, k: nat) returns (rs: seq<Option<B>>)
    requires it.Valid() && it.Exhausted()
    modifies it
    ensures it.Valid() && it.Exhausted()
    ensures |rs| == k && forall i :: 0 <= i < k ==> rs[i] == None
    ensures it.state == old(it.state) && it.outputs == old(it.outputs)
  {
    rs := [];
    while |rs| < k
      invariant it.Valid() && it.Exhausted()
      invariant |rs| <= k && forall i :: 0 <= i < |rs| ==> rs[i] == None
      invariant it.state == old(it.state) && it.outputs == old(it.outputs)
    {
      FusedStaysExhausted(it.iter);
      var r := it.Next();
      rs := rs + [r];
    }
  }

  /** After k pulls on a source of known length n, `len` reports n - k. */
  method LenAfterPulls<T, S, B>(source: Source<T>, s0: S, f: (S, T) -> (S, B), k: nat)
    returns (before: nat, after: nat)
    requires source.exact && k <= source.Len()
    ensures before == source.Len() && after == before - k
  {
    var it := new ScanB(source, s0, f);
    before := it.Len();
    var i := 0;
    while i < k
      invariant it.Valid() && it.iter.exact
      invariant i <= k && it.Len() == before - i
    {
      var r := it.Next();
      i := i + 1;
    }
    after := it.Len();
  }
}
