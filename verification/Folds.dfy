/** Left folds, for whatever happens step by step. */
module Folds {
  import opened Sequences

  function Fold<S, T>(step: (S, T) -> S, s: S, events: seq<T>): S {
    if events == [] then s else step(Fold(step, s, events[..|events| - 1]), events[|events| - 1])
  }

  lemma FoldLast<S, T>(step: (S, T) -> S, s: S, init: seq<T>, last: T)
    ensures Fold(step, s, init + [last]) == step(Fold(step, s, init), last)
  {
    InitLast(init, last);
  }

  lemma {:induction false} FoldAppend<S, T>(step: (S, T) -> S, s: S, a: seq<T>, b: seq<T>)
    ensures Fold(step, s, a + b) == Fold(step, Fold(step, s, a), b)
  {
    if b == [] {
      Neutral(a);
    } else {
      var init, last := b[..|b| - 1], b[|b| - 1];
      FoldAppend(step, s, a, init);
      FoldLast(step, s, a + init, last);
      TakeLast(b, |b|);
      TakeAll(b);
      Assoc(a, init, [last]);
    }
  }
}
