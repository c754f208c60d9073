/**
  The host iterator protocol, as the ScanB adapter sees its source.

  A source is described by the answers it gives to successive `next` calls:
  `answers[0]` is the answer to the first call, `answers[1]` to the second, and
  once the script is used up every further call answers None.  A script that
  answers Some after a None is a source that is not fused; `exact` says whether
  the source knows its remaining count (as a slice iterator does) or only an
  upper bound on it (as a filtering iterator does).
 */
module Iter {

  datatype Option<+T> = None | Some(value: T)

  /** (lower bound, optional upper bound) on the number of items still to come */
  type Bounds = (nat, Option<nat>)

  /** What a consumer that pulls until the first None receives. */
  function Elements<T>(answers: seq<Option<T>>): (xs: seq<T>)
    ensures |xs| <= |answers|
  {
    if answers == [] || answers[0].None? then []
    else [answers[0].value] + Elements(answers[1..])
  }

  /**
    How many answers a consumer that pulls until the first None uses up: the
    items before that None and the None itself, or the whole script when it
    holds no None.
   */
  function UntilNone<T>(answers: seq<Option<T>>): (k: nat)
    ensures |Elements(answers)| <= k <= |answers|
    ensures k == |Elements(answers)| ==> k == |answers|
    ensures k > |Elements(answers)| ==> k == |Elements(answers)| + 1 && answers[k - 1].None?
  {
    if answers == [] then 0
    else if answers[0].None? then 1
    else 1 + UntilNone(answers[1..])
  }

  /** Every item carried by a Some answer, in order, including any after a None. */
  function Delivered<T>(answers: seq<Option<T>>): seq<T>
  {
    if answers == [] then []
    else (if answers[0].Some? then [answers[0].value] else []) + Delivered(answers[1..])
  }

  /** Once a None has been answered, every later answer is None. */
  ghost predicate Fused<T>(answers: seq<Option<T>>)
  {
    forall i, j :: 0 <= i < j < |answers| && answers[i].None? ==> answers[j].None?
  }

  /** The accumulator of a left fold, as `Iterator::fold` computes it. */
  function FoldLeft<A, B>(g: (A, B) -> A, acc: A, xs: seq<B>): A
  {
    if xs == [] then acc else FoldLeft(g, g(acc, xs[0]), xs[1..])
  }

  datatype Source<T> = Source(answers: seq<Option<T>>, exact: bool)
  {
    /**
      One pull: the answer and the source after it.  The two case clauses
      below repeat the body on purpose: stated by index, they give the
      adapter's loops the facts they need without unfolding `Next`, which
      keeps those proofs well inside the verifier's resource limit.
     */
    function Next(): (r: (Option<T>, Source<T>))
      ensures r.1.exact == exact
      ensures answers == [] ==> r.0 == None && r.1 == this
      ensures answers != [] ==> r.0 == answers[0] && r.1.answers == answers[1..]
    {
      if answers == [] then (None, this)
      else (answers[0], Source(answers[1..], exact))
    }

    /** The source's own size hint: exact when the source knows its length,
        otherwise a lower bound of 0 (a filtering source). */
    function SizeHint(): (h: Bounds)
      ensures h.0 <= |Elements(answers)|
      ensures h.1.Some? ==> |Elements(answers)| <= h.1.value
      ensures exact ==> h == (|Elements(answers)|, Some(|Elements(answers)|))
    {
      var n := |Elements(answers)|;
      if exact then (n, Some(n)) else (0, Some(n))
    }

    /** `ExactSizeIterator::len`: the lower bound of a hint whose upper bound equals it. */
    function Len(): (n: nat)
      requires exact
      ensures SizeHint() == (n, Some(n))
      ensures n == |Elements(answers)|
    {
      SizeHint().0
    }
  }

  lemma {:induction false} DeliveredAppend<T>(xs: seq<Option<T>>, ys: seq<Option<T>>)
    ensures Delivered(xs + ys) == Delivered(xs) + Delivered(ys)
  {
    if xs == [] {
      assert xs + ys == ys;
    } else {
      assert (xs + ys)[0] == xs[0] && (xs + ys)[1..] == xs[1..] + ys;
      DeliveredAppend(xs[1..], ys);
      var head := if xs[0].Some? then [xs[0].value] else [];
      assert Delivered(xs) == head + Delivered(xs[1..]);
      assert Delivered(xs + ys) == head + (Delivered(xs[1..]) + Delivered(ys));
      assert head + (Delivered(xs[1..]) + Delivered(ys)) == (head + Delivered(xs[1..])) + Delivered(ys);
    }
  }

  lemma {:induction false} NoneOnlyDeliversNothing<T>(xs: seq<Option<T>>)
    requires forall i :: 0 <= i < |xs| ==> xs[i].None?
    ensures Delivered(xs) == []
  {
    if xs != [] {
      NoneOnlyDeliversNothing(xs[1..]);
    }
  }

  /** Pulling from a fused source keeps it fused. */
  lemma NextKeepsFused<T>(src: Source<T>)
    requires Fused(src.answers)
    ensures Fused(src.Next().1.answers)
  {
  }

  /** A fused source that has answered None stays fused and answers None again. */
  lemma FusedStaysExhausted<T>(src: Source<T>)
    requires Fused(src.answers) && src.Next().0.None?
    ensures Fused(src.Next().1.answers) && src.Next().1.Next().0.None?
  {
  }

  /**
    On a fused script, whatever has been delivered so far is a prefix of what a
    consumer pulling until None receives from the whole script.
   */
  lemma {:induction false} FusedDeliveredIsPrefix<T>(xs: seq<Option<T>>, ys: seq<Option<T>>)
    requires Fused(xs + ys)
    ensures |Delivered(xs)| <= |Elements(xs + ys)|
    ensures Delivered(xs) == Elements(xs + ys)[..|Delivered(xs)|]
  {
    if xs == [] {
    } else if xs[0].None? {
      forall i | 0 <= i < |xs| ensures xs[i].None? {
        if i > 0 {
          assert (xs + ys)[0].None? && (xs + ys)[i] == xs[i];
        }
      }
      NoneOnlyDeliversNothing(xs);
    } else {
      var tail := xs[1..] + ys;
      assert (xs + ys)[1..] == tail;
      NextKeepsFused(Source(xs + ys, false));
      FusedDeliveredIsPrefix(xs[1..], ys);
      assert Delivered(xs) == [xs[0].value] + Delivered(xs[1..]);
      assert Elements(xs + ys) == [xs[0].value] + Elements(tail);
    }
  }
}
