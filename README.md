# Nerdle solver engine, modelled in Dafny

This project models the solving engine of `Nerdle_Solver.py`, a helper for Nerdle, the
Wordle-style puzzle over 8-character arithmetic equations. The engine has five parts:

- **`form_key`** (module `Shape`, `shape.dfy`). It gives an equation's layout, with every
  digit turned into `'D'`.
- **`compute_feedback`** (module `Scoring`, `scoring.dfy`). It is the two-pass,
  duplicate-aware scorer, kept over the arrays `result`, `secret_used` and `guess_used`.
  It is proved equal to a counting characterisation of the marks: `Feedback`.
- **`filter_candidates`** (module `Candidates`, `candidates.dfy`). It is proved equal to
  the order-preserving filter `Filter`.
- **`choose_guess`** (module `Selector`, `selector.dfy`). It covers:
  - the opening guess `"3*4+5=17"`;
  - the pick among 10 or fewer candidates;
  - the best-score search, with score `3 * form_prob + 2 * new_symbols + distinct`.
- **`simulate_single_game`** (module `Game`, `game.dfy`). It is the turn loop against a
  known secret.

Feedback is a string over `'G'`, `'P'` and `'B'`, as in the source.

`Feedback(secret, guess)` says:
- position `i` is Green when guess and secret agree there;
- otherwise it is Purple when fewer non-exact copies of `guess[i]` stand before `i` in
  the guess than there are copies of it in the secret left over by exact matches;
- otherwise it is Black.

The second pass of the array algorithm keeps this invariant: for every character, the
secret positions it has claimed are the fewer of its non-exact guess occurrences handled
so far and its spare secret copies (`ClaimsBalanced`). The effect is that the first
guess copies get the Purple marks. Because each scan takes the leftmost unclaimed copy,
the claimed spare copies of a character are always its leftmost ones
(`SecretClaimed`).

`compute_feedback` only indexes the guess at the secret's positions. Its real demand is
therefore `len(secret) <= len(guess)`, and the model requires exactly that. Nerdle
equations all have one length, so no caller reaches the difference.

The game's candidate list after a run of guesses is described by `Narrowed`: the answer
list filtered by the feedback of each guess in turn. `Played` bundles the facts about a
game still going on:
- every guess is an answer and was not all green;
- every guess reproduces the feedback of every earlier guess.

`FollowsPolicy` says that every guess was a pick `choose_guess` may make
(`Admissible`). The guess of turn k + 1 is judged among the candidates the first k guesses
left, with the symbols of those guesses as the symbols seen.

On that ground the model proves:
- the secret is never filtered out;
- a non-solving guess removes itself, so the loop terminates;
- a game on an answer list holding the secret ends by guessing the secret;
- the number of turns is at most the number of answers.

## Model

| member | source | states |
|---|---|---|
| Shape.FormKey | Nerdle_Solver.py:34-52 | The key has the equation's length. Each digit becomes `'D'`; every other character is kept at its position. |
| Shape.SameFormIff | Nerdle_Solver.py:193-207 | For equations without a literal `'D'`, two form keys are equal exactly when the equations have digits at the same positions and the same other characters. This is what counting candidates per key groups by. |
| Scoring.Feedback | Nerdle_Solver.py:72-76 | The feedback has one mark per secret position. |
| Scoring.FeedbackMarks | Nerdle_Solver.py:76-93 | Every mark is G, P or B. A position is G exactly when guess and secret agree there. |
| Scoring.AllGreenIff | Nerdle_Solver.py:89-93 | For equations of one length, the feedback is all G exactly when guess and secret are equal. In particular an equation scored against itself is all G. |
| Scoring.CreditedIsIntersection | Nerdle_Solver.py:100-118 | The multiset of guess characters marked G or P is the multiset intersection of guess and secret. So for every character, G and P marks never outnumber its copies in the secret, and overused duplicates stay B. |
| Scoring.CreditedCount | Nerdle_Solver.py:100-118 | For each character, the G/P marks among the first n guess positions number its exact matches plus the lesser of its spare guess copies and its spare secret copies. |
| Scoring.ComputeFeedback | Nerdle_Solver.py:56-122 | The two-pass array algorithm returns exactly `Feedback(secret, guess)`. |
| Scoring.MarkExact | Nerdle_Solver.py:89-93 | Pass 1 marks G and claims both sides exactly at the positions where guess and secret agree. Everything else stays B and unclaimed. |
| Scoring.MarkMisplaced | Nerdle_Solver.py:100-119 | Pass 2, from the state pass 1 leaves, turns the marks into exactly `Feedback(secret, guess)`. A guess position ends up claimed exactly when its mark is G or P. A secret position ends up claimed exactly when it is an exact match, or a spare copy with fewer spare copies of its character before it than the guess has non-exact copies of that character. |
| Scoring.MarkPosition | Nerdle_Solver.py:102-119 | One guess position of pass 2 (skip a G, or scan for the first unclaimed equal secret character) moves the second-pass invariant one position on. |
| Scoring.SpareRankIsNext | Nerdle_Solver.py:109-114 | The first unclaimed equal secret character the scan reaches is the next spare copy in line: exactly as many spare copies stand before it as the guess has non-exact copies of that character before position i. |
| Scoring.PurpleStep | Nerdle_Solver.py:109-118 | When the scan finds an unclaimed equal secret character at j, marking P and claiming j keeps the second-pass invariant one position on. |
| Scoring.BlackStep | Nerdle_Solver.py:109-119 | When every equal secret character is already claimed, leaving B keeps the second-pass invariant one position on. |
| Scoring.GreenStep | Nerdle_Solver.py:103-104 | A position matched in pass 1 is skipped with its G, and the invariant moves one position on. |
| Candidates.Filter | Nerdle_Solver.py:125-136 | The kept list is never longer than the input. |
| Candidates.FilterCandidates | Nerdle_Solver.py:125-136 | The loop that appends the candidates whose computed feedback equals the given one returns exactly `Filter(candidates, guess, feedback)`. |
| Candidates.FilterMembership | Nerdle_Solver.py:131-136 | An equation is kept exactly when it is a candidate whose feedback against the guess is the given feedback. |
| Candidates.FilterAppend | Nerdle_Solver.py:131-136 | Filtering a concatenation concatenates the filtered parts, so the kept list is an order-preserving subsequence. |
| Candidates.FilterIdempotent | Nerdle_Solver.py:125-136 | Filtering twice with the same guess and feedback equals filtering once. |
| Candidates.FilterDrops | Nerdle_Solver.py:131-136 | A candidate that does not reproduce the feedback makes the result strictly shorter. |
| Selector.FormCount | Nerdle_Solver.py:193 | The number of candidates with a given form key is at most the number of candidates. |
| Selector.FormShare | Nerdle_Solver.py:206-207 | The share of candidates whose form key is that of the equation lies between 0 and 1. |
| Selector.Score | Nerdle_Solver.py:199-213 | The score is 3 × the form share + 2 × the unseen symbols + the distinct symbols, in exact reals. It is therefore at least the number of distinct symbols and at most 3 + 3 × that number. |
| Selector.FormCountPositive | Nerdle_Solver.py:193-207 | A candidate's own form key is counted at least once. |
| Selector.FormShareBounds | Nerdle_Solver.py:206-207 | A candidate's form share is greater than 0 and at most 1. |
| Selector.BestScoring | Nerdle_Solver.py:195-219 | The best-score loop ends with a non-empty list. The list holds only candidates of maximal score, and every candidate of maximal score is in it. |
| Selector.ChooseGuess | Nerdle_Solver.py:151-222 | The guess is admissible: it is always a candidate. On turn 1 it is `"3*4+5=17"` whenever that is a candidate. After turn 1, with more than 10 candidates, no candidate scores higher than the guess, given the symbols seen. |
| Game.SymbolsSnoc | Nerdle_Solver.py:319 | One more guess adds exactly its symbols to the seen symbols. |
| Game.Narrowed | Nerdle_Solver.py:298-335 | The candidates after a run of guesses are the answer list filtered by the feedback of each guess in turn, and never outnumber the answers. |
| Game.NarrowedMembership | Nerdle_Solver.py:331-335 | After a run of guesses, an answer is still a candidate exactly when, for every guess, it would have earned the feedback the secret earned. |
| Game.SecretKept | Nerdle_Solver.py:308-309 | The secret, when it is an answer, survives every filtering. |
| Game.GuessEliminated | Nerdle_Solver.py:331-335 | A guess that is not all green does not reproduce its own feedback, so filtering removes it. |
| Game.PlayStep | Nerdle_Solver.py:316-335 | Playing a remaining candidate that is not all green extends a consistent history. |
| Game.PolicyStep | Nerdle_Solver.py:316-319 | A guess admissible among the remaining candidates, on the next turn and with the symbols seen so far, extends a history that follows the policy. |
| Game.PolicyAt | Nerdle_Solver.py:316-319 | In a history that follows the policy, the guess of every turn k + 1 is admissible among the candidates left by the first k guesses, with their symbols as the symbols seen. |
| Game.PolicyOpening | Nerdle_Solver.py:170-172 | A history that follows the policy starts with `"3*4+5=17"` whenever that is an answer. |
| Game.PlayedDistinct | Nerdle_Solver.py:316-335 | No equation is guessed twice in a game. |
| Game.NarrowedScorable | Nerdle_Solver.py:322-335 | Every remaining candidate can be scored against any answer used as a guess. |
| Game.SolvedWithSecret | Nerdle_Solver.py:331-332 | When all answers have one width and the secret is among them, a solved game's last guess is the secret. |
| Game.NeverGivesUp | Nerdle_Solver.py:308-313 | When the secret is an answer, the game is never abandoned for lack of candidates. |
| Game.Turn | Nerdle_Solver.py:316-337 | A turn with a remaining candidate either solves the game or extends the history. In the second case it strictly shrinks the candidates to those of the longer history. |
| Game.SimulateSingleGame | Nerdle_Solver.py:286-337 | It returns `None` only when the guesses, played by the rules, left no candidate. A returned number is the count of guesses and at most the number of answers. The last guess was a remaining candidate that earned all G, and every earlier guess did not. The first guess is `"3*4+5=17"` when that is an answer. Every guess was picked by `choose_guess`'s rules, from the candidates of its turn and with the symbols of the earlier guesses as the symbols seen (`FollowsPolicy`). A game whose secret is an answer always returns a number, and a game with no answers returns `None`. |

## Left out

- `startup` (file reading), `get_feedback_from_user` and `solve_puzzle` are not part of this model, because they are console I/O. `solve_puzzle` runs the same transitions as `simulate_single_game`, with feedback typed by the user.
- `simulate_many_games`, `simulate_all_answers`, the tkinter interface, the menus and `main` are not part of this model. They are batch statistics over floats, user interface and entry-point plumbing.
- `verbose` printing in `simulate_single_game` is not modelled.
- Selector.ChooseGuess: which candidate `random.choice` returns is left open. Any candidate, or any best-scoring one, may be picked (`:|`). Uniformity of the choice is not stated.
- Selector.Score uses exact rational arithmetic, while the source compares floats. The two agree unless float rounding makes two different scores equal, or one score overtake another.
- `float("-inf")` as the initial best score is modelled by the datatype `Best`, whose value `MinusInfinity` lies below every score.
- The fallback `random.choice(candidates)` when `best_eqs` is empty is not modelled as a branch. `BestScoring` proves the list is never empty, so that fallback cannot run.
- `Counter(form_key(eq) for eq in candidates)` is modelled by the counting function `FormCount`, evaluated per candidate, not by a dictionary built up front.
- Shape.IsDigit accepts the ASCII digits `'0'` to `'9'` only. Python's `str.isdigit` also accepts other Unicode digits, which Nerdle equations do not contain.
- Shape.SameFormIff assumes the equations do not contain the marker `'D'` itself, which Nerdle equations never do.
- Game.SimulateSingleGame requires that all answers share one length and that the secret is no longer than any answer. The callers load the answers from a file of classic Nerdle equations (`NerdleClassicRestricted.txt`), which are all eight characters long. With mixed widths the source can raise an `IndexError` inside `compute_feedback`, depending on which guesses are picked; that failure is not modelled.
- Game.SimulateSingleGame returns the guesses played as a ghost value. The source keeps no such list.
- The step-by-step algorithm of `compute_feedback` is split into helper methods: `MarkExact` for pass 1, `MarkMisplaced` for pass 2, and `MarkPosition` for one guess position of pass 2. They work on the same three arrays.
