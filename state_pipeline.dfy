/** The state stream of a component (`getStateStream`, src/recycle.js:218-242)
    read as a computation over a finite, already merged sequence of
    deliveries: the stream starts with `{state: initialState}` and each
    delivered `{reducer, action}` pair yields
    `{state: reducer(last.state, action), reducer, action}`. */
module StatePipeline {
  import opened Wrappers

  /** What `.reducer(fn)` makes of one action: the pair `{reducer, action}`. */
  datatype Delivery<!S, !A> = Delivery(reducer: (S, A) -> S, action: A)

  /** One element of the state stream: the state, and the delivery that
      produced it (none for the initial element). */
  datatype Emitted<!S, !A> = Emitted(state: S, cause: Option<Delivery<S, A>>)

  /** The `scan` step: the delivered reducer applied to the last state. */
  function Apply<S, A>(state: S, d: Delivery<S, A>): S
  {
    d.reducer(state, d.action)
  }

  /** `startWith({state: initialState})` followed by `scan`: one element per
      delivery after the initial one, each computed from its predecessor. */
  function StateStream<S, A>(init: S, ds: seq<Delivery<S, A>>): (r: seq<Emitted<S, A>>)
    ensures |r| == |ds| + 1
    ensures r[0] == Emitted(init, None)
    ensures forall i :: 0 <= i < |ds| ==> r[i + 1] == Emitted(Apply(r[i].state, ds[i]), Some(ds[i]))
    decreases |ds|
  {
    if ds == [] then [Emitted(init, None)]
    else
      var front := ds[..|ds| - 1];
      var prev := StateStream(init, front);
      var d := ds[|ds| - 1];
      assert forall i :: 0 <= i < |front| ==> front[i] == ds[i];
      prev + [Emitted(Apply(prev[|prev| - 1].state, d), Some(d))]
  }

  /** The left fold of the deliveries, starting from `init`. */
  function Fold<S, A>(init: S, ds: seq<Delivery<S, A>>): S
    decreases |ds|
  {
    if ds == [] then init else Fold(Apply(init, ds[0]), ds[1..])
  }

  /** Folding one more delivery applies it to the folded state. */
  lemma {:induction false} FoldSnoc<S, A>(init: S, ds: seq<Delivery<S, A>>, d: Delivery<S, A>)
    ensures Fold(init, ds + [d]) == Apply(Fold(init, ds), d)
    decreases |ds|
  {
    if ds == [] {
      assert [d][1..] == [];
    } else {
      assert (ds + [d])[1..] == ds[1..] + [d];
      FoldSnoc(Apply(init, ds[0]), ds[1..], d);
    }
  }

  /** Folding a concatenation folds the second part from where the first
      part left off. */
  lemma {:induction false} FoldConcat<S, A>(init: S, xs: seq<Delivery<S, A>>, ys: seq<Delivery<S, A>>)
    ensures Fold(init, xs + ys) == Fold(Fold(init, xs), ys)
    decreases |xs|
  {
    if xs == [] {
      assert xs + ys == ys;
    } else {
      assert (xs + ys)[1..] == xs[1..] + ys;
      FoldConcat(Apply(init, xs[0]), xs[1..], ys);
    }
  }

  /** The n-th state of the stream is the fold of the first n deliveries. */
  lemma {:induction false} StateIsFold<S, A>(init: S, ds: seq<Delivery<S, A>>, n: nat)
    requires n <= |ds|
    ensures StateStream(init, ds)[n].state == Fold(init, ds[..n])
    decreases n
  {
    if n == 0 {
      assert ds[..0] == [];
    } else {
      StateIsFold(init, ds, n - 1);
      assert ds[..n] == ds[..n - 1] + [ds[n - 1]];
      FoldSnoc(init, ds[..n - 1], ds[n - 1]);
    }
  }

  /** The last state of the stream is the fold of all deliveries. */
  lemma LastStateIsFold<S, A>(init: S, ds: seq<Delivery<S, A>>)
    ensures StateStream(init, ds)[|ds|].state == Fold(init, ds)
  {
    StateIsFold(init, ds, |ds|);
    assert ds[..|ds|] == ds;
  }

  /** A stream extended by one delivery extends the old stream by one element:
      earlier emissions never change. */
  lemma StreamPrefix<S, A>(init: S, ds: seq<Delivery<S, A>>, d: Delivery<S, A>)
    ensures StateStream(init, ds + [d])[..|ds| + 1] == StateStream(init, ds)
  {
    var e := ds + [d];
    assert e[..|e| - 1] == ds;
  }

  /** `setState(newState, action)` (src/recycle.js:254-259): an outside delivery
      whose reducer ignores the state it is given. */
  function SetState<S(!new), A>(newState: S, action: A): (d: Delivery<S, A>)
    ensures d.action == action
    ensures forall s :: Apply(s, d) == newState
  {
    Delivery((_, _) => newState, action)
  }

  /** After a `setState`, the stream carries exactly the new state, and later
      deliveries continue from it whatever came before. */
  lemma SetStateOverrides<S(!new), A>(init: S, ds: seq<Delivery<S, A>>, newState: S, action: A,
                                rest: seq<Delivery<S, A>>)
    ensures StateStream(init, ds + [SetState(newState, action)])[|ds| + 1].state == newState
    ensures Fold(init, ds + [SetState(newState, action)] + rest) == Fold(newState, rest)
  {
    var d := SetState(newState, action);
    FoldConcat(init, ds + [d], rest);
    FoldSnoc(init, ds, d);
  }
}
