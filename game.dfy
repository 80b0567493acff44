/** One automatic game: the solver plays against a known secret, computing
    the feedback of each guess itself, until a guess is all green or no
    candidate is left. */
module Game {
  import opened Scoring
  import opened Candidates
  import opened Selector

  datatype Option<T> = None | Some(value: T)

  /** All equations of the answer list have the same length. */
  predicate SameWidth(answers: seq<string>) {
    forall a, b :: a in answers && b in answers ==> |a| == |b|
  }

  /** The secret can be scored against every answer. */
  predicate Fits(secret: string, answers: seq<string>) {
    forall a :: a in answers ==> |secret| <= |a|
  }

  /** The symbols of all guesses made so far. */
  function SymbolsOf(guesses: seq<string>): set<char> {
    if guesses == [] then {}
    else SymbolsOf(guesses[..|guesses| - 1]) + Symbols(guesses[|guesses| - 1])
  }

  /** Playing one more guess adds exactly its symbols. */
  lemma SymbolsSnoc(guesses: seq<string>, guess: string)
    ensures SymbolsOf(guesses + [guess]) == SymbolsOf(guesses) + Symbols(guess)
  {
  }

  /** The candidates left after the given guesses: the answer list filtered,
      guess after guess, by the feedback each guess earned against the
      secret. */
  function Narrowed(answers: seq<string>, secret: string, guesses: seq<string>): (left: seq<string>)
    requires forall k :: 0 <= k < |guesses| ==> |secret| <= |guesses[k]|
    ensures |left| <= |answers|
  {
    if guesses == [] then answers
    else
      var last := guesses[|guesses| - 1];
      Filter(Narrowed(answers, secret, guesses[..|guesses| - 1]), last, Feedback(secret, last))
  }

  /** An answer is still a candidate exactly when, for every guess so far,
      it would have earned the feedback the secret earned. */
  lemma {:induction false} NarrowedMembership(answers: seq<string>, secret: string, guesses: seq<string>, c: string)
    requires forall k :: 0 <= k < |guesses| ==> |secret| <= |guesses[k]|
    ensures c in Narrowed(answers, secret, guesses) <==>
      c in answers && forall k :: 0 <= k < |guesses| ==> Reproduces(c, guesses[k], Feedback(secret, guesses[k]))
  {
    if guesses != [] {
      var init, last := guesses[..|guesses| - 1], guesses[|guesses| - 1];
      var before, fb := Narrowed(answers, secret, init), Feedback(secret, last);
      NarrowedMembership(answers, secret, init, c);
      FilterMembership(before, last, fb, c);
      if c in Narrowed(answers, secret, guesses) {
        forall k | 0 <= k < |guesses|
          ensures Reproduces(c, guesses[k], Feedback(secret, guesses[k]))
        {
          if k < |init| {
            assert init[k] == guesses[k];
          }
        }
      }
      if c in answers && forall k :: 0 <= k < |guesses| ==> Reproduces(c, guesses[k], Feedback(secret, guesses[k])) {
        forall k | 0 <= k < |init|
          ensures Reproduces(c, init[k], Feedback(secret, init[k]))
        {
          assert init[k] == guesses[k];
        }
      }
    }
  }

  /** The secret always survives the filtering: it earns its own feedback. */
  lemma SecretKept(answers: seq<string>, secret: string, guesses: seq<string>)
    requires forall k :: 0 <= k < |guesses| ==> |secret| <= |guesses[k]|
    requires secret in answers
    ensures secret in Narrowed(answers, secret, guesses)
  {
    NarrowedMembership(answers, secret, guesses, secret);
  }

  /** A guess that is not all green cannot itself reproduce the feedback it
      earned, so filtering removes it. */
  lemma GuessEliminated(secret: string, guess: string)
    requires |secret| <= |guess| && Feedback(secret, guess) != AllGreen(|secret|)
    ensures !Reproduces(guess, guess, Feedback(secret, guess))
  {
  }

  /** The guesses of a game that is still going on: each is an answer that
      can be scored against the secret and did not earn all green, and each
      earns, as a would-be secret, the feedback every earlier guess earned
      against the real secret. */
  ghost predicate Played(secret: string, answers: seq<string>, guesses: seq<string>) {
    (forall k :: 0 <= k < |guesses| ==>
      guesses[k] in answers && |secret| <= |guesses[k]| && Feedback(secret, guesses[k]) != AllGreen(|secret|)) &&
    (forall k, l :: 0 <= k < l < |guesses| ==> Reproduces(guesses[l], guesses[k], Feedback(secret, guesses[k])))
  }

  /** Playing a remaining candidate that is not all green extends the
      history. */
  lemma PlayStep(secret: string, answers: seq<string>, guesses: seq<string>, guess: string)
    requires Played(secret, answers, guesses)
    requires guess in Narrowed(answers, secret, guesses)
    requires |secret| <= |guess| && Feedback(secret, guess) != AllGreen(|secret|)
    ensures Played(secret, answers, guesses + [guess])
  {
    NarrowedMembership(answers, secret, guesses, guess);
    var next := guesses + [guess];
    forall k, l | 0 <= k < l < |next|
      ensures Reproduces(next[l], next[k], Feedback(secret, next[k]))
    {
      assert next[k] == guesses[k];
      if l < |guesses| {
        assert next[l] == guesses[l];
      }
    }
  }

  /** No equation is guessed twice: a guess that is not all green does not
      reproduce its own feedback, so it cannot be guessed again. */
  lemma PlayedDistinct(secret: string, answers: seq<string>, guesses: seq<string>)
    requires Played(secret, answers, guesses)
    ensures forall k, l :: 0 <= k < l < |guesses| ==> guesses[k] != guesses[l]
  {
  }

  /** Every remaining candidate is an answer of the same width as the
      guesses, so it can be scored against any of them. */
  lemma NarrowedScorable(secret: string, answers: seq<string>, guesses: seq<string>, guess: string)
    requires SameWidth(answers) && Played(secret, answers, guesses) && guess in answers
    ensures Scorable(Narrowed(answers, secret, guesses), guess)
  {
    forall c | c in Narrowed(answers, secret, guesses)
      ensures |c| <= |guess|
    {
      NarrowedMembership(answers, secret, guesses, c);
    }
  }

  /** Every guess was a pick choose_guess may make: the guess of turn k + 1
      is admissible among the candidates the first k guesses left, with
      their symbols as the symbols seen. */
  ghost predicate FollowsPolicy(secret: string, answers: seq<string>, guesses: seq<string>) {
    guesses == [] ||
    var prior := guesses[..|guesses| - 1];
    && FollowsPolicy(secret, answers, prior)
    && (forall k :: 0 <= k < |prior| ==> |secret| <= |prior[k]|)
    && Admissible(Narrowed(answers, secret, prior), |guesses|, SymbolsOf(prior), guesses[|guesses| - 1])
  }

  /** In a game that follows the policy, the guess of every turn k + 1 was
      admissible among the candidates left by the first k guesses, with the
      symbols of those guesses as the symbols seen. */
  lemma {:induction false} PolicyAt(secret: string, answers: seq<string>, guesses: seq<string>, k: nat)
    requires FollowsPolicy(secret, answers, guesses) && k < |guesses|
    ensures forall l :: 0 <= l < k ==> |secret| <= |guesses[..k][l]|
    ensures Admissible(Narrowed(answers, secret, guesses[..k]), k + 1, SymbolsOf(guesses[..k]), guesses[k])
  {
    var prior := guesses[..|guesses| - 1];
    if k < |prior| {
      PolicyAt(secret, answers, prior, k);
      assert prior[..k] == guesses[..k];
    } else {
      assert guesses[..k] == prior;
    }
  }

  /** A game that follows the policy opens with `StartGuess` whenever that
      is an answer. */
  lemma {:induction false} PolicyOpening(secret: string, answers: seq<string>, guesses: seq<string>)
    requires FollowsPolicy(secret, answers, guesses) && |guesses| > 0 && StartGuess in answers
    ensures guesses[0] == StartGuess
  {
    var prior := guesses[..|guesses| - 1];
    if prior != [] {
      PolicyOpening(secret, answers, prior);
    }
  }

  /** An admissible pick extends a history that follows the policy. */
  lemma PolicyStep(secret: string, answers: seq<string>, prior: seq<string>, guess: string)
    requires forall k :: 0 <= k < |prior| ==> |secret| <= |prior[k]|
    requires |secret| <= |guess| && FollowsPolicy(secret, answers, prior)
    requires Admissible(Narrowed(answers, secret, prior), |prior| + 1, SymbolsOf(prior), guess)
    ensures FollowsPolicy(secret, answers, prior + [guess])
  {
    assert (prior + [guess])[..|prior|] == prior;
  }

  /** The game ended with its last guess all green, every earlier guess
      having been played by the rules. */
  ghost predicate SolvedBy(secret: string, answers: seq<string>, guesses: seq<string>) {
    |guesses| > 0 &&
    var prior, last := guesses[..|guesses| - 1], guesses[|guesses| - 1];
    Played(secret, answers, prior) && last in Narrowed(answers, secret, prior) &&
    |secret| <= |last| && Feedback(secret, last) == AllGreen(|secret|)
  }

  /** The game was abandoned: the guesses were played by the rules and left
      no candidate. */
  ghost predicate GaveUp(secret: string, answers: seq<string>, guesses: seq<string>) {
    Played(secret, answers, guesses) && Narrowed(answers, secret, guesses) == []
  }

  /** When the answer list holds the secret and all answers have one width,
      a solved game ends by guessing the secret itself. */
  lemma SolvedWithSecret(secret: string, answers: seq<string>, guesses: seq<string>)
    requires SameWidth(answers) && secret in answers && SolvedBy(secret, answers, guesses)
    ensures guesses[|guesses| - 1] == secret
  {
    var prior, last := guesses[..|guesses| - 1], guesses[|guesses| - 1];
    NarrowedMembership(answers, secret, prior, last);
    AllGreenIff(secret, last);
  }

  /** When the answer list holds the secret, the game is never abandoned. */
  lemma NeverGivesUp(secret: string, answers: seq<string>, guesses: seq<string>)
    requires secret in answers
    ensures !GaveUp(secret, answers, guesses)
  {
    if Played(secret, answers, guesses) {
      SecretKept(answers, secret, guesses);
    }
  }

  /** One turn, played with a remaining candidate: an all-green guess solves
      the game; any other guess extends the history, and filtering by its
      feedback strictly shrinks the candidates to those of the longer
      history. */
  lemma Turn(secret: string, answers: seq<string>, prior: seq<string>, guess: string)
    requires SameWidth(answers) && Fits(secret, answers)
    requires Played(secret, answers, prior) && guess in Narrowed(answers, secret, prior)
    ensures |secret| <= |guess|
    ensures Feedback(secret, guess) == AllGreen(|secret|) ==> SolvedBy(secret, answers, prior + [guess])
    ensures Feedback(secret, guess) != AllGreen(|secret|) ==>
      var before, fb := Narrowed(answers, secret, prior), Feedback(secret, guess);
      && Played(secret, answers, prior + [guess])
      && Scorable(before, guess)
      && |Filter(before, guess, fb)| < |before|
      && Narrowed(answers, secret, prior + [guess]) == Filter(before, guess, fb)
  {
    NarrowedMembership(answers, secret, prior, guess);
    var next := prior + [guess];
    assert next[..|prior|] == prior;
    if Feedback(secret, guess) != AllGreen(|secret|) {
      PlayStep(secret, answers, prior, guess);
      GuessEliminated(secret, guess);
      FilterDrops(Narrowed(answers, secret, prior), guess, Feedback(secret, guess), guess);
      NarrowedScorable(secret, answers, prior, guess);
    }
  }

  /** simulate_single_game.  The candidates start as the whole answer list;
      each turn picks a guess by choose_guess, records its symbols, computes
      its feedback against the secret, stops with the turn number when it is
      all green and otherwise narrows the candidates by it.  With no
      candidate left the game gives up.  `guesses` is the sequence of guesses
      played, each one a pick choose_guess may make on its turn.  A solved game takes at most as many turns as there are
      answers. */
  method SimulateSingleGame(secret: string, allAnswers: seq<string>)
    returns (solvedAt: Option<nat>, ghost guesses: seq<string>)
    requires SameWidth(allAnswers) && Fits(secret, allAnswers)
    ensures solvedAt.None? ==> GaveUp(secret, allAnswers, guesses)
    ensures solvedAt.Some? ==>
      solvedAt.value == |guesses| <= |allAnswers| && SolvedBy(secret, allAnswers, guesses)
    ensures |guesses| > 0 && StartGuess in allAnswers ==> guesses[0] == StartGuess
    ensures secret in allAnswers ==> solvedAt.Some?
    ensures allAnswers == [] ==> solvedAt.None?
    ensures FollowsPolicy(secret, allAnswers, guesses)
  {
    var candidates := allAnswers;
    var turn: nat := 1;
    var seen: set<char> := {};
    guesses := [];
    while true
      invariant turn == |guesses| + 1
      invariant seen == SymbolsOf(guesses)
      invariant Played(secret, allAnswers, guesses)
      invariant candidates == Narrowed(allAnswers, secret, guesses)
      invariant |candidates| + |guesses| <= |allAnswers|
      invariant FollowsPolicy(secret, allAnswers, guesses)
      decreases |candidates|
    {
      if candidates == [] {
        assert secret !in allAnswers by {
          if secret in allAnswers {
            SecretKept(allAnswers, secret, guesses);
          }
        }
        if guesses != [] && StartGuess in allAnswers {
          PolicyOpening(secret, allAnswers, guesses);
        }
        return None, guesses;
      }
      var guess := ChooseGuess(candidates, turn, seen);
      Turn(secret, allAnswers, guesses, guess);
      PolicyStep(secret, allAnswers, guesses, guess);
      seen := seen + Symbols(guess);
      SymbolsSnoc(guesses, guess);
      var feedbackStr := ComputeFeedback(secret, guess);
      ghost var prior := guesses;
      guesses := guesses + [guess];
      if feedbackStr == AllGreen(|secret|) {
        if StartGuess in allAnswers {
          PolicyOpening(secret, allAnswers, guesses);
        }
        return Some(turn), guesses;
      }
      candidates := FilterCandidates(candidates, guess, feedbackStr);
      turn := turn + 1;
    }
  }
}
