/** Going through a list of tokens, one step each. */
module Folds {
  function Fold<S>(step: (S, string) -> S, s: S, tokens: seq<string>): S {
    if tokens == [] then s else step(Fold(step, s, tokens[..|tokens| - 1]), tokens[|tokens| - 1])
  }

  lemma FoldNone<S>(step: (S, string) -> S, s: S)
    ensures Fold(step, s, []) == s
  {
  }

  lemma FoldOne<S>(step: (S, string) -> S, s: S, token: string)
    ensures Fold(step, s, [token]) == step(s, token)
  {
    assert [token][..0] == [] && Fold(step, s, []) == s;
  }

  /** Taking one token more of a list. */
  lemma FoldNext<S>(step: (S, string) -> S, s: S, tokens: seq<string>, i: nat)
    requires i < |tokens|
    ensures Fold(step, s, tokens[..i + 1]) == step(Fold(step, s, tokens[..i]), tokens[i])
  {
    assert tokens[..i + 1][..i] == tokens[..i];
  }

  lemma {:induction false} FoldAppend<S>(step: (S, string) -> S, s: S, a: seq<string>, b: seq<string>)
    ensures Fold(step, s, a + b) == Fold(step, Fold(step, s, a), b)
  {
    if b == [] {
      assert a + b == a;
    } else {
      assert (a + b)[..|a + b| - 1] == a + b[..|b| - 1];
      FoldAppend(step, s, a, b[..|b| - 1]);
    }
  }
}
