/** Choosing the next guess: a fixed opening, any candidate when few are
    left, and otherwise a best-scoring candidate by a heuristic that
    favours common equation layouts, unseen symbols and variety. */
module Selector {
  import opened Shape

  /** The hard-coded opening guess. */
  const StartGuess: string := "3*4+5=17"

  /** At or below this many candidates the heuristic is skipped. */
  const SmallPool: nat := 10

  /** The distinct characters of an equation. */
  function Symbols(eq: string): set<char> {
    set ch | ch in eq
  }

  /** How many candidates have the given form key. */
  function FormCount(cs: seq<string>, key: string): (n: nat)
    ensures n <= |cs|
  {
    if cs == [] then 0
    else FormCount(cs[..|cs| - 1], key) + (if FormKey(cs[|cs| - 1]) == key then 1 else 0)
  }

  /** The share of candidates whose form key is that of `eq` (0 for no
      candidates, where the source never asks). */
  function FormShare(cs: seq<string>, eq: string): (r: real)
    ensures 0.0 <= r <= 1.0
  {
    if cs == [] then 0.0
    else
      var n, t := FormCount(cs, FormKey(eq)) as real, |cs| as real;
      assert n <= t;
      n / t
  }

  /** The heuristic score of `eq` among the candidates `cs`, given the
      symbols already seen in earlier guesses: three times the share of its
      layout, twice its number of unseen symbols, once its number of
      distinct symbols. */
  function Score(cs: seq<string>, seen: set<char>, eq: string): (r: real)
    ensures |Symbols(eq)| as real <= r <= 3.0 + 3.0 * |Symbols(eq)| as real
  {
    SubsetCard(Symbols(eq) - seen, Symbols(eq));
    3.0 * FormShare(cs, eq) + 2.0 * |Symbols(eq) - seen| as real + 1.0 * |Symbols(eq)| as real
  }

  /** `g` scores at least as high as every candidate. */
  predicate Maximizes(cs: seq<string>, seen: set<char>, g: string) {
    forall c :: c in cs ==> Score(cs, seen, c) <= Score(cs, seen, g)
  }

  /** A pick choose_guess may make on turn `turn`: a candidate, the opening
      guess on the first turn when it is a candidate, and after the first
      turn, with more than `SmallPool` candidates, one of maximal score. */
  predicate Admissible(candidates: seq<string>, turn: int, seen: set<char>, g: string) {
    && g in candidates
    && (turn == 1 && StartGuess in candidates ==> g == StartGuess)
    && (turn != 1 && |candidates| > SmallPool ==> Maximizes(candidates, seen, g))
  }

  /** Every candidate that has the given key is counted. */
  lemma {:induction false} FormCountPositive(cs: seq<string>, eq: string)
    requires eq in cs
    ensures FormCount(cs, FormKey(eq)) >= 1
  {
    var init, last := cs[..|cs| - 1], cs[|cs| - 1];
    if last != eq {
      assert cs == init + [last];
      FormCountPositive(init, eq);
    }
  }

  /** A candidate's layout share lies in (0, 1]. */
  lemma FormShareBounds(cs: seq<string>, eq: string)
    requires eq in cs
    ensures 0.0 < FormShare(cs, eq) <= 1.0
  {
    FormCountPositive(cs, eq);
    var n, t := FormCount(cs, FormKey(eq)) as real, |cs| as real;
    assert 1.0 <= n <= t;
  }

  lemma {:induction false} SubsetCard(a: set<char>, b: set<char>)
    requires a <= b
    ensures |a| <= |b|
  {
    if a != {} {
      var x :| x in a;
      SubsetCard(a - {x}, b - {x});
    }
  }

  /** The best score so far: minus infinity before any candidate was
      scored. */
  datatype Best = MinusInfinity | Finite(value: real)

  /** `x` lies strictly above the bound. */
  predicate Above(x: real, b: Best) {
    b.MinusInfinity? || x > b.value
  }

  /** choose_guess.  The opening guess on the first turn when it is still a
      candidate; any candidate on the first turn otherwise, or when at most
      `SmallPool` remain; otherwise a candidate of maximal score.  Which
      candidate a random pick yields is left open. */
  method ChooseGuess(candidates: seq<string>, turn: int, seen: set<char>) returns (g: string)
    requires |candidates| > 0
    ensures Admissible(candidates, turn, seen, g)
  {
    assert candidates[0] in candidates;
    if turn == 1 {
      if StartGuess in candidates {
        return StartGuess;
      }
      g :| g in candidates;
      return;
    }
    if |candidates| <= SmallPool {
      g :| g in candidates;
      return;
    }
    var bestEqs := BestScoring(candidates, eq => Score(candidates, seen, eq));
    assert bestEqs[0] in bestEqs;
    g :| g in bestEqs;
  }

  /** The scoring loop of choose_guess, for any scoring of the candidates:
      a candidate scoring strictly above the best so far restarts the list
      of best equations, one scoring equal to it joins the list.  The result
      is non-empty and holds exactly the candidates of maximal score. */
  method BestScoring(candidates: seq<string>, score: string -> real) returns (bestEqs: seq<string>)
    requires |candidates| > 0
    ensures bestEqs != []
    ensures forall e :: e in bestEqs ==>
      e in candidates && forall c :: c in candidates ==> score(c) <= score(e)
    ensures forall c :: c in candidates && (forall d :: d in candidates ==> score(d) <= score(c)) ==>
      c in bestEqs
  {
    var bestScore := MinusInfinity;
    bestEqs := [];
    for k := 0 to |candidates|
      invariant k == 0 <==> bestScore.MinusInfinity?
      invariant k == 0 <==> bestEqs == []
      invariant forall e :: e in bestEqs ==> e in candidates && score(e) == bestScore.value
      invariant forall j :: 0 <= j < k ==> score(candidates[j]) <= bestScore.value
      invariant forall j :: 0 <= j < k && score(candidates[j]) == bestScore.value ==>
        candidates[j] in bestEqs
    {
      var eq := candidates[k];
      var s := score(eq);
      if Above(s, bestScore) {
        bestScore := Finite(s);
        bestEqs := [eq];
      } else if s == bestScore.value {
        bestEqs := bestEqs + [eq];
      }
    }
    forall e | e in bestEqs
      ensures forall c :: c in candidates ==> score(c) <= score(e)
    {
      forall c | c in candidates
        ensures score(c) <= score(e)
      {
        var j :| 0 <= j < |candidates| && candidates[j] == c;
      }
    }
    forall c | c in candidates && (forall d :: d in candidates ==> score(d) <= score(c))
      ensures c in bestEqs
    {
      var j :| 0 <= j < |candidates| && candidates[j] == c;
      assert bestEqs[0] in bestEqs;
    }
  }
}
