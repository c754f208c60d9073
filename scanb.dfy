/**
  The ScanB iterator adapter: like `Iterator::scan`, but the closure returns an
  item rather than an optional item, so the adapter yields exactly one item per
  source item and updates its state exactly once per source item.

  The closure `f: (&mut S, T) -> B` is modelled as a pure function from the old
  state and the item to the new state and the output; anything the closure
  captures is part of `S`.
 */
module IterScanB {
  import opened Iter

  /**
    The reference scan: the outputs for `xs`, threading the state strictly left
    to right, and the state after the last item.
   */
  function Scan<S, T, B>(f: (S, T) -> (S, B), s: S, xs: seq<T>): (r: (seq<B>, S))
    ensures |r.0| == |xs|
  {
    if xs == [] then ([], s)
    else
      var step := f(s, xs[0]);
      var rest := Scan(f, step.0, xs[1..]);
      ([step.1] + rest.0, rest.1)
  }

  /** Scanning a concatenation scans the second part from the state the first part leaves. */
  lemma {:induction false} ScanAppend<S, T, B>(f: (S, T) -> (S, B), s: S, xs: seq<T>, ys: seq<T>)
    ensures var first := Scan(f, s, xs);
            var second := Scan(f, first.1, ys);
            Scan(f, s, xs + ys) == (first.0 + second.0, second.1)
  {
    if xs == [] {
      assert xs + ys == ys;
      assert Scan(f, s, xs) == ([], s);
      assert [] + Scan(f, s, ys).0 == Scan(f, s, ys).0;
    } else {
      var step := f(s, xs[0]);
      assert (xs + ys)[0] == xs[0] && (xs + ys)[1..] == xs[1..] + ys;
      ScanAppend(f, step.0, xs[1..], ys);
      var tail := Scan(f, step.0, xs[1..]);
      var second := Scan(f, tail.1, ys);
      assert Scan(f, s, xs) == ([step.1] + tail.0, tail.1);
      assert Scan(f, s, xs + ys) == ([step.1] + (tail.0 + second.0), second.1);
      assert [step.1] + (tail.0 + second.0) == ([step.1] + tail.0) + second.0;
    }
  }

  /** Scanning one item applies f once. */
  lemma ScanOne<S, T, B>(f: (S, T) -> (S, B), s: S, x: T)
    ensures Scan(f, s, [x]) == ([f(s, x).1], f(s, x).0)
  {
    assert [x][1..] == [];
    assert [f(s, x).1] + [] == [f(s, x).1];
  }

  /** The outputs for the first k items are the first k outputs. */
  lemma ScanPrefix<S, T, B>(f: (S, T) -> (S, B), s: S, xs: seq<T>, k: nat)
    requires k <= |xs|
    ensures Scan(f, s, xs[..k]).0 == Scan(f, s, xs).0[..k]
  {
    assert xs == xs[..k] + xs[k..];
    ScanAppend(f, s, xs[..k], xs[k..]);
  }

  /**
    Output i is f applied to the state left by items 0..i-1 and item i, and the
    state after item i is the state f returns for it.
   */
  lemma ScanAt<S, T, B>(f: (S, T) -> (S, B), s: S, xs: seq<T>, i: nat)
    requires i < |xs|
    ensures var before := Scan(f, s, xs[..i]).1;
            Scan(f, s, xs).0[i] == f(before, xs[i]).1 &&
            Scan(f, s, xs[..i + 1]).1 == f(before, xs[i]).0
  {
    assert xs == xs[..i] + xs[i..];
    ScanAppend(f, s, xs[..i], xs[i..]);
    assert xs[..i + 1] == xs[..i] + [xs[i]];
    ScanAppend(f, s, xs[..i], [xs[i]]);
  }

  /**
    A pull that answers None once the first i answers of a script have been
    used up, i being the number of items before the script's first None,
    leaves the source where pulling until None leaves it.
   */
  lemma PulledToNone<T>(script: seq<Option<T>>, i: nat, here: seq<Option<T>>, after: seq<Option<T>>)
    requires i == |Elements(script)| && i <= |script| && here == script[i..]
    requires after == Source(here, false).Next().1.answers
    ensures after == script[UntilNone(script)..]
  {
  }

  /**
    The adapter.  `iter`, `f` and `state` are the three fields of the source
    struct.  The ghost fields record its history: the state it was built with,
    the source's answers at construction, the answers pulled since, and the
    items yielded since.
   */
  class ScanB<T, S, B> {
    var iter: Source<T>
    const f: (S, T) -> (S, B)
    var state: S

    ghost const initialState: S
    ghost const origin: seq<Option<T>>
    ghost var taken: seq<Option<T>>
    ghost var outputs: seq<B>

    /** The source has advanced exactly over `taken`, and outputs and state are
        the scan of the items it delivered. */
    ghost predicate Valid()
      reads this
    {
      origin == taken + iter.answers &&
      Scan(f, initialState, Delivered(taken)) == (outputs, state)
    }

    /** The items a consumer pulling until None still receives. */
    ghost function Remaining(): seq<B>
      reads this
    {
      Scan(f, state, Elements(iter.answers)).0
    }

    /** The state once a consumer has pulled until None. */
    ghost function FinalState(): S
      reads this
    {
      Scan(f, state, Elements(iter.answers)).1
    }

    /** Fused and already answering None: every later pull answers None too. */
    ghost predicate Exhausted()
      reads this
    {
      Fused(iter.answers) && iter.Next().0.None?
    }

    /** `IterScanB::scanb`: stores the source, the state and the closure;
        nothing is pulled and `f` is not called. */
    constructor (source: Source<T>, initState: S, f: (S, T) -> (S, B))
      ensures Valid()
      ensures iter == source && state == initState && this.f == f
      ensures initialState == initState && origin == source.answers
      ensures taken == [] && outputs == []
    {
      iter := source;
      this.f := f;
      state := initState;
      initialState := initState;
      origin := source.answers;
      taken := [];
      outputs := [];
    }

    /** `Iterator::next`: pull the source once and, if it yields, apply f once. */
    method Next() returns (r: Option<B>)
      requires Valid()
      modifies this
      ensures Valid()
      ensures iter == old(iter.Next().1)
      ensures old(iter.Next().0).None? ==>
                r == None && state == old(state) && outputs == old(outputs)
      ensures old(iter.Next().0).Some? ==>
                var step := f(old(state), old(iter.Next().0.value));
                r == Some(step.1) && state == step.0 && outputs == old(outputs) + [step.1]
      ensures r.Some? ==> |iter.answers| < old(|iter.answers|)
      ensures r.None? ==> old(Remaining()) == [] && state == old(FinalState())
      ensures r.Some? ==> old(Remaining()) != [] && r.value == old(Remaining())[0] &&
                          Remaining() == old(Remaining())[1..]
      ensures r.Some? ==> FinalState() == old(FinalState())
    {
      var (e, rest) := iter.Next();
      if iter.answers != [] {
        var a := iter.answers[0];
        DeliveredAppend(taken, [a]);
        assert [a][1..] == [];
        assert Delivered([a]) == if a.Some? then [a.value] else [];
        assert a.None? ==> Delivered(taken + [a]) == Delivered(taken);
        assert taken + iter.answers == (taken + [a]) + rest.answers;
        taken := taken + [a];
      }
      iter := rest;
      match e {
        case None =>
          r := None;
        case Some(x) =>
          var step := f(state, x);
          ScanAppend(f, initialState, old(Delivered(taken)), [x]);
          ScanOne(f, state, x);
          assert Delivered(taken) == old(Delivered(taken)) + [x];
          state := step.0;
          outputs := outputs + [step.1];
          r := Some(step.1);
      }
    }

    /**
      `Iterator::fold`: the source's fold, with a callback that passes each item
      through f with the shared state before folding it with g.  The adapter is
      consumed by value, so its own fields are left as they are; `applied`
      counts the calls to f.
     */
    method Fold<A>(init: A, g: (A, B) -> A) returns (acc: A, ghost applied: nat)
      ensures acc == FoldLeft(g, init, Remaining())
      ensures applied == |Elements(iter.answers)|
    {
      var src, st := iter, state;
      acc, applied := init, 0;
      while true
        invariant FoldLeft(g, acc, Scan(f, st, Elements(src.answers)).0) == FoldLeft(g, init, Remaining())
        invariant applied + |Elements(src.answers)| == |Elements(iter.answers)|
        decreases |src.answers|
      {
        var (e, rest) := src.Next();
        if e.None? {
          break;
        }
        var step := f(st, e.value);
        st, acc, src, applied := step.0, g(acc, step.1), rest, applied + 1;
      }
    }

    /** `Iterator::size_hint`: the source's hint, which bounds the adapter's remaining items. */
    function SizeHint(): (h: Bounds)
      reads this
      ensures h == iter.SizeHint()
      ensures h.0 <= |Remaining()|
      ensures h.1.Some? ==> |Remaining()| <= h.1.value
    {
      iter.SizeHint()
    }

    /** `ExactSizeIterator::len`: the source's length, which is the adapter's number of remaining items. */
    function Len(): (n: nat)
      reads this
      requires iter.exact
      ensures n == iter.Len()
      ensures n == |Remaining()|
    {
      iter.Len()
    }

    /** Pull with `next` until it answers None, collecting the items.  The
        source is left just past that None (or at its end). */
    method PullUntilNone() returns (bs: seq<B>)
      requires Valid()
      modifies this
      ensures Valid()
      ensures bs == old(Remaining())
      ensures state == old(FinalState())
      ensures outputs == old(outputs) + bs
      ensures iter.answers == old(iter.answers)[UntilNone(old(iter.answers))..]
      ensures iter.exact == old(iter.exact)
    {
      ghost var rem, script := Remaining(), iter.answers;
      bs := [];
      while true
        invariant Valid()
        invariant |bs| <= |rem| && bs == rem[..|bs|]
        invariant Remaining() == rem[|bs|..]
        invariant FinalState() == old(FinalState())
        invariant outputs == old(outputs) + bs
        invariant |bs| <= |script| && iter.answers == script[|bs|..]
        invariant iter.exact == old(iter.exact)
        decreases |iter.answers|
      {
        ghost var here := iter.answers;
        var r := Next();
        if r.None? {
          assert rem[..|bs|] == rem;
          PulledToNone(script, |bs|, here, iter.answers);
          break;
        }
        assert rem[..|bs| + 1] == bs + [r.value];
        assert iter.answers == script[|bs| + 1..];
        bs := bs + [r.value];
      }
    }

    /**
      `Iterator::advance_by` left at its default: up to n pulls, stopping at the
      first None; `missing` is how many of the n pulls found nothing.  Every item
      the source gives up passes through f.
     */
    method AdvanceBy(n: nat) returns (missing: nat)
      requires Valid()
      modifies this
      ensures Valid()
      ensures var rem := old(Remaining());
              if n <= |rem| then
                missing == 0 && outputs == old(outputs) + rem[..n] &&
                Remaining() == rem[n..] && FinalState() == old(FinalState())
              else
                missing == n - |rem| && outputs == old(outputs) + rem && state == old(FinalState())
      ensures var script := old(iter.answers);
              iter.answers == if n <= old(|Remaining()|) then script[n..] else script[UntilNone(script)..]
      ensures iter.exact == old(iter.exact)
    {
      ghost var rem, script := Remaining(), iter.answers;
      var i := 0;
      while i < n
        invariant Valid()
        invariant i <= n && i <= |rem|
        invariant Remaining() == rem[i..]
        invariant outputs == old(outputs) + rem[..i]
        invariant FinalState() == old(FinalState())
        invariant i <= |script| && iter.answers == script[i..]
        invariant iter.exact == old(iter.exact)
      {
        ghost var here := iter.answers;
        var x := Next();
        if x.None? {
          assert rem[..i] == rem;
          PulledToNone(script, i, here, iter.answers);
          return n - i;
        }
        assert rem[..i + 1] == rem[..i] + [rem[i]];
        i := i + 1;
      }
      missing := 0;
    }

    /**
      `Iterator::nth` left at its default: `advance_by(n)`, then one more pull.
      No item is skipped: all n earlier items pass through f.
     */
    method Nth(n: nat) returns (r: Option<B>)
      requires Valid()
      modifies this
      ensures Valid()
      ensures var rem := old(Remaining());
              if n < |rem| then
                r == Some(rem[n]) && outputs == old(outputs) + rem[..n + 1] &&
                Remaining() == rem[n + 1..] && FinalState() == old(FinalState())
              else
                r == None && outputs == old(outputs) + rem && state == old(FinalState())
      ensures var script := old(iter.answers);
              iter.answers == if n < old(|Remaining()|) then script[n + 1..] else script[UntilNone(script)..]
      ensures iter.exact == old(iter.exact)
      ensures iter.exact && n < old(|Remaining()|) ==> Len() == old(Len()) - (n + 1)
    {
      ghost var rem, script := Remaining(), iter.answers;
      var missing := AdvanceBy(n);
      if missing > 0 {
        return None;
      }
      ghost var here := iter.answers;
      r := Next();
      if r.Some? {
        assert rem[..n + 1] == rem[..n] + [rem[n]];
        assert here[1..] == script[n + 1..];
      } else {
        assert rem[..n] == rem;
        PulledToNone(script, n, here, iter.answers);
      }
    }

    /** On a fused source the outputs so far are the first outputs of the scan of
        all the source's items, and the state is the scan's state after them. */
    lemma OutputsFollowSource()
      requires Valid() && Fused(origin)
      ensures var all := Elements(origin);
              |outputs| <= |all| &&
              outputs == Scan(f, initialState, all).0[..|outputs|] &&
              state == Scan(f, initialState, all[..|outputs|]).1
    {
      FusedDeliveredIsPrefix(taken, iter.answers);
      ScanPrefix(f, initialState, Elements(origin), |Delivered(taken)|);
    }
  }
}
