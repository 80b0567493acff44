/** Narrowing the candidate list: keep, in order, the equations that would
    have produced the observed feedback had they been the secret. */
module Candidates {
  import opened Scoring

  /** Every candidate can be scored against the guess (it is not longer). */
  predicate Scorable(candidates: seq<string>, guess: string) {
    forall c :: c in candidates ==> |c| <= |guess|
  }

  /** Candidate c, had it been the secret, would have produced `fb` for
      `guess` (a candidate longer than the guess cannot be scored, and is
      never kept). */
  predicate Reproduces(c: string, guess: string, fb: string) {
    |c| <= |guess| && Feedback(c, guess) == fb
  }

  /** The candidates, in order, whose feedback against `guess` is `fb`. */
  function Filter(candidates: seq<string>, guess: string, fb: string): (kept: seq<string>)
    ensures |kept| <= |candidates|
  {
    if candidates == [] then []
    else
      var last := candidates[|candidates| - 1];
      var rest := Filter(candidates[..|candidates| - 1], guess, fb);
      if Reproduces(last, guess, fb) then rest + [last] else rest
  }

  /** filter_candidates: one pass over the candidates, appending each one
      whose computed feedback equals the observed one. */
  method FilterCandidates(candidates: seq<string>, guess: string, feedbackStr: string)
    returns (newCandidates: seq<string>)
    requires Scorable(candidates, guess)
    ensures newCandidates == Filter(candidates, guess, feedbackStr)
  {
    newCandidates := [];
    for k := 0 to |candidates|
      invariant newCandidates == Filter(candidates[..k], guess, feedbackStr)
    {
      var secret := candidates[k];
      var fb := ComputeFeedback(secret, guess);
      if fb == feedbackStr {
        newCandidates := newCandidates + [secret];
      }
      assert candidates[..k + 1][..k] == candidates[..k];
    }
    assert candidates[..|candidates|] == candidates;
  }

  /** A candidate survives exactly when its feedback against the guess is the
      observed feedback. */
  lemma {:induction false} FilterMembership(candidates: seq<string>, guess: string, fb: string, x: string)
    ensures x in Filter(candidates, guess, fb) <==> x in candidates && Reproduces(x, guess, fb)
  {
    if candidates != [] {
      var init := candidates[..|candidates| - 1];
      FilterMembership(init, guess, fb, x);
      assert candidates == init + [candidates[|candidates| - 1]];
    }
  }

  /** Filtering keeps the order: filtering a concatenation is concatenating
      the filtered parts. */
  lemma {:induction false} FilterAppend(a: seq<string>, b: seq<string>, guess: string, fb: string)
    ensures Filter(a + b, guess, fb) == Filter(a, guess, fb) + Filter(b, guess, fb)
  {
    if b == [] {
      assert a + b == a;
    } else {
      var init, last := b[..|b| - 1], b[|b| - 1];
      FilterAppend(a, init, guess, fb);
      assert (a + b)[..|a + b| - 1] == a + init;
      assert (a + b)[|a + b| - 1] == last;
      var fa, fi := Filter(a, guess, fb), Filter(init, guess, fb);
      assert Filter(a + b, guess, fb) == if Reproduces(last, guess, fb) then (fa + fi) + [last] else fa + fi;
      assert Filter(b, guess, fb) == if Reproduces(last, guess, fb) then fi + [last] else fi;
      assert (fa + fi) + [last] == fa + (fi + [last]);
    }
  }

  /** Filtering a second time with the same guess and feedback changes
      nothing. */
  lemma {:induction false} FilterIdempotent(candidates: seq<string>, guess: string, fb: string)
    ensures Filter(Filter(candidates, guess, fb), guess, fb) == Filter(candidates, guess, fb)
  {
    if candidates != [] {
      var init := candidates[..|candidates| - 1];
      var last := candidates[|candidates| - 1];
      var rest := Filter(init, guess, fb);
      FilterIdempotent(init, guess, fb);
      if Reproduces(last, guess, fb) {
        FilterAppend(rest, [last], guess, fb);
      }
    }
  }

  /** A candidate that does not reproduce the feedback is dropped, so the
      list gets strictly shorter. */
  lemma {:induction false} FilterDrops(candidates: seq<string>, guess: string, fb: string, x: string)
    requires x in candidates && !Reproduces(x, guess, fb)
    ensures |Filter(candidates, guess, fb)| < |candidates|
  {
    var init := candidates[..|candidates| - 1];
    var last := candidates[|candidates| - 1];
    if x != last {
      assert candidates == init + [last];
      FilterDrops(init, guess, fb, x);
    }
  }
}
