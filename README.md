# iter-scanb in Dafny

A model of `ScanB`, the iterator adapter of the `iter-scanb` crate. It works like
`Iterator::scan`, except that its closure returns `B` rather than `Option<B>`.
So the adapter yields exactly one item per source item, and it updates its state
exactly once per source item. Only the source running out ends it.

Files:

- `iter.dfy` (module `Iter`) holds the host iterator protocol as the adapter sees it.
  A source is a `Source<T>`: the script of answers its successive `next` calls give,
  with None forever after the script. A script that answers Some after a None is a
  source that is not fused. `exact` says whether the source knows its remaining
  count, like a slice iterator, or gives a lower bound of 0, like a filtering
  iterator. The module also holds the source's `next`, `size_hint` and `len`, and
  `FoldLeft`, which is what `Iterator::fold` computes.
- `scanb.dfy` (module `IterScanB`) holds the reference scan `Scan` and its lemmas.
  It also holds the class `ScanB`, which has the struct's three fields `iter`, `f`
  and `state`. The closure `FnMut(&mut S, T) -> B` is a pure function
  `(S, T) -> (S, B)`: it takes the old state and the item and returns the new state
  and the output. Anything the closure captures is part of `S`. Ghost fields record
  the history: the initial state, the source's script at construction, the answers
  pulled since then, and the items yielded since then. `Valid()` says that the
  yielded items and the current state are the scan of the delivered items.
- `examples.dfy` (module `ScanBExamples`) holds clients: the documented example and
  the consumption guarantees stated over fresh adapters.

## Model

| member | source | states |
|---|---|---|
| `IterScanB.Scan` | src/lib.rs:78-81 | the reference scan yields exactly one output per input item (output count equals input count) |
| `IterScanB.ScanAppend` | src/lib.rs:78-81 | scanning `xs + ys` is scanning `xs`, then scanning `ys` from the state `xs` leaves: the state is threaded strictly left to right |
| `IterScanB.ScanPrefix` | src/lib.rs:78-81 | the outputs for the first k items are the first k outputs of the whole scan |
| `IterScanB.ScanAt` | src/lib.rs:78-81 | output i is `f(s_i, e_i)`'s item, where `s_i` is the state after items 0..i-1; the state after item i is `f(s_i, e_i)`'s state |
| `IterScanB.ScanB.constructor` | src/lib.rs:42-50 | `scanb` stores the source, the closure and the initial state unchanged; nothing is pulled and nothing is yielded |
| `IterScanB.ScanB.Next` | src/lib.rs:78-81 | pulls the source exactly once. If the source answers None, it returns None, leaves state and outputs unchanged, and the state is already the scan's final state. If the source answers `Some(e)`, it returns `Some(b)`, sets the state to `s'` where `(s', b) = f(state, e)`, and appends `b` to the outputs. It keeps `Valid()`. The returned item is the head of the remaining scan and the rest of that scan is what remains |
| `IterScanB.ScanB.Fold` | src/lib.rs:87-95 | `fold(init, g)` returns `g` folded over the outputs a consumer pulling until None would receive, and it applies `f` once per remaining source item |
| `IterScanB.ScanB.SizeHint` | src/lib.rs:97-99 | the hint is the source's hint unchanged, and it is a sound lower and upper bound on the number of items the adapter still yields |
| `IterScanB.ScanB.Len` | src/lib.rs:108-114 | `len` is the source's `len`, and it equals the number of items the adapter still yields |
| `IterScanB.ScanB.PullUntilNone` | src/lib.rs:78-81 | pulling with `next` until None yields exactly the remaining scan outputs, in order, and leaves the scan's final state. The source is left just past the None that ended the pulls, or at the end of its script when it holds no None. The source's exactness never changes, so `len` stays callable on an exact source |
| `IterScanB.ScanB.AdvanceBy` | src/lib.rs:83-85 | the default `advance_by(n)` behind `nth`: up to n pulls, stopping at the first None. Every item pulled passes through `f`. It reports how many of the n pulls found nothing, and the outputs grow by exactly the items pulled. When n items remain it consumes exactly n answers and the rest of the scan is what remains; otherwise it stops just past the first None |
| `IterScanB.ScanB.Nth` | src/lib.rs:83-85 | `nth(n)` left at its default: the n-th remaining scan output, after all n earlier items have passed through `f`; the source then has consumed exactly n+1 answers and the rest of the scan is what remains. None, with every remaining item passed through `f` and the source left just past the first None, when fewer than n+1 remain. The source's exactness never changes, and over an exact source with more than n items remaining `len` drops by n+1 |
| `IterScanB.ScanB.OutputsFollowSource` | src/lib.rs:78-81 | over a fused source, after any number of pulls the outputs are the first k outputs of the scan of all the source's items, and the state is the scan's state after the first k items |
| `Iter.FusedStaysExhausted` | src/lib.rs:102-106 | a fused source that has answered None stays fused and answers None again |
| `ScanBExamples.DocExample` | src/lib.rs:27-38 | source `[1, 2, 3, 4]`, state 1 and `*state *= x; -*state` yield -1, -2, -6, -24, then None |
| `ScanBExamples.EmptySource` | src/lib.rs:78-81 | over an empty source the first pull answers None and the state is untouched |
| `ScanBExamples.FoldAgreesWithPulls` | src/lib.rs:87-95 | on equal fresh adapters, `fold` gives the accumulator that pulling until None and then folding gives, with as many applications of `f` as items pulled |
| `ScanBExamples.PullsAfterExhaustion` | src/lib.rs:102-106 | over a fused source, once `next` has answered None, every later pull answers None and the state and outputs stay unchanged |
| `ScanBExamples.LenAfterPulls` | src/lib.rs:108-114 | over a source of exact length n, `len` is n - k after k pulls (k <= n) |

## Left out

- The `Debug` impl (src/lib.rs:63-70) is text formatting, and the derived `Clone`, `PartialEq`, `Eq` and `Hash` (src/lib.rs:56) are generated by the compiler. Neither has logic of its own.
- The `no_std` and documentation attributes (src/lib.rs:1-2), `#[must_use]` and the blanket impl of `IterScanB` for every iterator (src/lib.rs:52) are build and trait plumbing.
- The `FusedIterator` and `ExactSizeIterator` impls (src/lib.rs:102-114) bound the closure as `FnMut(&mut S, I::Item)` with no `-> B`. As written, they therefore apply only to closures that return `()`. Here the model follows the crate's documentation rather than the bounds as written: it gives `Len` and the fused guarantee for every closure, which is the evident intent. Rust's trait bounds are not modelled.
- Closures are pure functions: `f` of (state, item), and the combining closure `g` that `fold` takes is a pure `(A, B) -> A`. Side effects that either closure has outside its arguments, panics and the borrowing of `&mut S` are not modelled.
- A source is a finite script of answers. Infinite sources and a size hint with no upper bound are not modelled. Sizes are unbounded `nat`, not `usize`.
- Iter.Source.SizeHint: a source that does not know its length reports a lower bound of 0 and the true count of items before the first None as its upper bound. Sources whose upper bound is loose (larger than that count) are not modelled; the adapter passes any hint through unchanged, so its contract does not depend on this.
- The source's own `fold` is modelled as the default one: `next` until the first None. `ScanB.Fold` runs that loop itself and threads the state through it, as the callback at src/lib.rs:91-94 does. A source's specialised fold is assumed to agree with its `next`.
- IterScanB.ScanB.Fold: in Rust `fold` consumes the adapter by value. The model leaves the object's fields as they were and works on local copies, so the object's state after `fold` is not modelled.
