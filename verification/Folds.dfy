/** Folding a state machine with outputs over a sequence of inputs. */
module Folds {
  /** The state reached and the outputs produced so far. */
  datatype Outcome<S, O> = Outcome(c: S, out: seq<O>)

  function Fold<S, I, O>(step: (S, I) -> Outcome<S, O>, c: S, s: seq<I>): Outcome<S, O>
    decreases |s|
  {
    if s == [] then Outcome(c, [])
    else
      var first := step(c, s[0]);
      var rest := Fold(step, first.c, s[1..]);
      Outcome(rest.c, first.out + rest.out)
  }

  lemma {:induction false} FoldConcat<S, I, O>(step: (S, I) -> Outcome<S, O>, c: S, a: seq<I>, b: seq<I>)
    ensures Fold(step, c, a + b) ==
            Outcome(Fold(step, Fold(step, c, a).c, b).c, Fold(step, c, a).out + Fold(step, Fold(step, c, a).c, b).out)
    decreases |a|
  {
    if a == [] {
      assert a + b == b;
    } else {
      var first := step(c, a[0]);
      assert (a + b)[1..] == a[1..] + b;
      FoldConcat(step, first.c, a[1..], b);
      var left, right := Fold(step, first.c, a[1..]), Fold(step, Fold(step, c, a).c, b);
      assert first.out + (left.out + right.out) == (first.out + left.out) + right.out;
    }
  }

  lemma FoldOne<S, I, O>(step: (S, I) -> Outcome<S, O>, c: S, i: I)
    ensures Fold(step, c, [i]) == step(c, i)
  {
    var first := step(c, i);
    assert Fold(step, first.c, [i][1..]) == Outcome(first.c, []);
    assert first.out + [] == first.out;
  }
}
