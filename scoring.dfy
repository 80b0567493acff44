/** Nerdle feedback for one guess against a secret: per position Green (same
    character there), Purple (the character is still unmatched elsewhere in the
    secret) or Black (absent, or every copy of it is already matched). */
module Scoring {

  const Green: char := 'G'
  const Purple: char := 'P'
  const Black: char := 'B'

  /** The feedback string of a solved turn, `"G" * n`. */
  function AllGreen(n: nat): string {
    seq(n, _ => Green)
  }

  function Min(a: int, b: int): int {
    if a <= b then a else b
  }

  // Counting over the first n positions of a secret and a guess.

  /** Positions k < n where secret and guess both hold c: exact matches on c. */
  function Exact(secret: string, guess: string, c: char, n: nat): nat
    requires n <= |secret| && n <= |guess|
  {
    if n == 0 then 0
    else Exact(secret, guess, c, n - 1) + (if secret[n - 1] == c && guess[n - 1] == c then 1 else 0)
  }

  /** Positions k < n where the guess holds c and the secret does not. */
  function GuessSpare(secret: string, guess: string, c: char, n: nat): nat
    requires n <= |secret| && n <= |guess|
  {
    if n == 0 then 0
    else GuessSpare(secret, guess, c, n - 1) + (if guess[n - 1] == c && secret[n - 1] != c then 1 else 0)
  }

  /** Positions k < n where the secret holds c and the guess does not: the
      copies of c in the secret that no exact match uses. */
  function SecretSpare(secret: string, guess: string, c: char, n: nat): nat
    requires n <= |secret| && n <= |guess|
  {
    if n == 0 then 0
    else SecretSpare(secret, guess, c, n - 1) + (if secret[n - 1] == c && guess[n - 1] != c then 1 else 0)
  }

  /** The mark at position i, stated by counting: a non-exact guess character c
      is Purple exactly when fewer non-exact copies of c stand before it in the
      guess than there are copies of c in the secret left over by the exact
      matches. */
  function MarkAt(secret: string, guess: string, i: nat): char
    requires |secret| <= |guess| && i < |secret|
  {
    if guess[i] == secret[i] then Green
    else if GuessSpare(secret, guess, guess[i], i) < SecretSpare(secret, guess, guess[i], |secret|) then Purple
    else Black
  }

  /** The feedback for `guess` against `secret`. Only the first |secret|
      characters of the guess are looked at; a shorter guess has no feedback. */
  function Feedback(secret: string, guess: string): (r: string)
    requires |secret| <= |guess|
    ensures |r| == |secret|
  {
    seq(|secret|, i requires 0 <= i < |secret| => MarkAt(secret, guess, i))
  }

  /** Every mark is Green, Purple or Black, and a position is Green exactly
      when guess and secret agree there. */
  lemma FeedbackMarks(secret: string, guess: string)
    requires |secret| <= |guess|
    ensures forall i :: 0 <= i < |secret| ==>
      var m := Feedback(secret, guess)[i]; m == Green || m == Purple || m == Black
    ensures forall i :: 0 <= i < |secret| ==> (Feedback(secret, guess)[i] == Green <==> guess[i] == secret[i])
  {
  }

  /** For equations of one length, the feedback is all Green exactly when the
      guess is the secret; in particular an equation scored against itself is
      all Green. */
  lemma AllGreenIff(secret: string, guess: string)
    requires |secret| == |guess|
    ensures Feedback(secret, guess) == AllGreen(|secret|) <==> secret == guess
  {
    var r := Feedback(secret, guess);
    if r == AllGreen(|secret|) {
      forall i | 0 <= i < |secret| ensures secret[i] == guess[i] {
        assert r[i] == Green;
      }
    }
    if secret == guess {
      assert forall i :: 0 <= i < |r| ==> r[i] == AllGreen(|secret|)[i];
    }
  }

  // Which guess characters the feedback credits (marks Green or Purple).

  /** The multiset of guess characters among the first n positions whose mark
      is not Black. */
  function Credited(guess: string, marks: string, n: nat): multiset<char>
    requires n <= |guess| && n <= |marks|
  {
    if n == 0 then multiset{}
    else Credited(guess, marks, n - 1) + (if marks[n - 1] != Black then multiset{guess[n - 1]} else multiset{})
  }

  /** Each character of the guess is credited as often as it occurs in both
      the guess and the secret, never more: the credited characters are the
      multiset intersection of guess and secret, so overused duplicates in the
      guess stay Black. */
  lemma CreditedIsIntersection(secret: string, guess: string)
    requires |secret| <= |guess|
    ensures Credited(guess, Feedback(secret, guess), |secret|) == multiset(guess[..|secret|]) * multiset(secret)
    ensures Credited(guess, Feedback(secret, guess), |secret|) <= multiset(secret)
  {
    var n := |secret|;
    var credited := Credited(guess, Feedback(secret, guess), n);
    forall c ensures credited[c] == (multiset(guess[..n]) * multiset(secret))[c] {
      CreditedCount(secret, guess, Feedback(secret, guess), c, n);
      Occurrences(secret, guess, c, n);
      assert secret[..n] == secret;
    }
    assert credited == multiset(guess[..n]) * multiset(secret);
  }

  lemma {:induction false} CreditedCount(secret: string, guess: string, marks: string, c: char, n: nat)
    requires |secret| <= |guess| && |marks| == |secret| && n <= |secret|
    requires forall k :: 0 <= k < |secret| ==> marks[k] == MarkAt(secret, guess, k)
    ensures Credited(guess, marks, n)[c]
         == Exact(secret, guess, c, n) + Min(GuessSpare(secret, guess, c, n), SecretSpare(secret, guess, c, |secret|))
  {
    if n > 0 {
      var k := n - 1;
      CreditedCount(secret, guess, marks, c, k);
      CreditedStep(guess, marks, c, n);
      assert marks[k] == MarkAt(secret, guess, k);
    }
  }

  lemma CreditedStep(guess: string, marks: string, c: char, n: nat)
    requires 0 < n <= |guess| && n <= |marks|
    ensures Credited(guess, marks, n)[c]
         == Credited(guess, marks, n - 1)[c] + (if marks[n - 1] != Black && guess[n - 1] == c then 1 else 0)
  {
  }

  /** Occurrences of c split into exact matches and spare copies. */
  lemma {:induction false} Occurrences(secret: string, guess: string, c: char, n: nat)
    requires n <= |secret| && n <= |guess|
    ensures multiset(guess[..n])[c] == Exact(secret, guess, c, n) + GuessSpare(secret, guess, c, n)
    ensures multiset(secret[..n])[c] == Exact(secret, guess, c, n) + SecretSpare(secret, guess, c, n)
  {
    if n > 0 {
      Occurrences(secret, guess, c, n - 1);
      assert guess[..n] == guess[..n - 1] + [guess[n - 1]];
      assert secret[..n] == secret[..n - 1] + [secret[n - 1]];
    }
  }

  // The two-pass algorithm over arrays, and what its second pass keeps.

  /** Secret positions j < n claimed by the second pass for character c:
      marked used although they are not an exact match. */
  function Claimed(secret: string, guess: string, used: seq<bool>, c: char, n: nat): nat
    requires n <= |secret| && n <= |guess| && n <= |used|
  {
    if n == 0 then 0
    else
      var claimedHere := used[n - 1] && secret[n - 1] == c && guess[n - 1] != c;
      Claimed(secret, guess, used, c, n - 1) + (if claimedHere then 1 else 0)
  }

  /** After the second pass has handled guess positions below i, every
      character has claimed as many spare secret copies as it could: the
      fewer of its non-exact guess occurrences so far and its spare copies. */
  predicate ClaimsBalanced(secret: string, guess: string, used: seq<bool>, i: nat)
    requires |secret| <= |guess| && |used| == |secret| && i <= |secret|
  {
    forall c :: Claimed(secret, guess, used, c, |secret|)
             == Min(GuessSpare(secret, guess, c, i), SecretSpare(secret, guess, c, |secret|))
  }

  /** Secret position j is claimed once the second pass has handled the guess
      positions below i: it is an exact match, or a spare copy of its
      character with fewer spare copies before it than that character has
      non-exact guess occurrences below i. Spare copies are claimed left to
      right. */
  predicate SecretClaimed(secret: string, guess: string, i: nat, j: nat)
    requires |secret| <= |guess| && i <= |secret| && j < |secret|
  {
    guess[j] == secret[j] || SecretSpare(secret, guess, secret[j], j) < GuessSpare(secret, guess, secret[j], i)
  }

  /** The state of `result`, `secret_used` and `guess_used` before the second
      pass looks at guess position i: positions below i carry their final
      mark, the others still carry what the first pass left, exactly the
      exact matches and the leftmost spare copies are claimed, and the claims
      are balanced. */
  predicate SecondPassInv(secret: string, guess: string, marks: string, used: seq<bool>, matched: seq<bool>, i: nat)
  {
    && |secret| <= |guess| && |marks| == |used| == |matched| == |secret| && i <= |secret|
    && (forall k :: 0 <= k < i ==> marks[k] == MarkAt(secret, guess, k))
    && (forall k :: 0 <= k < i ==> matched[k] == (marks[k] != Black))
    && (forall k :: i <= k < |secret| ==>
          marks[k] == (if guess[k] == secret[k] then Green else Black) && matched[k] == (guess[k] == secret[k]))
    && (forall j :: 0 <= j < |secret| ==> used[j] == SecretClaimed(secret, guess, i, j))
    && ClaimsBalanced(secret, guess, used, i)
  }

  /** compute_feedback: greens first, then each unmatched guess position takes
      the leftmost unclaimed equal secret character, if any. */
  method ComputeFeedback(secret: string, guess: string) returns (r: string)
    requires |secret| <= |guess|
    ensures r == Feedback(secret, guess)
  {
    var length := |secret|;
    var result := new char[length](_ => Black);
    var secretUsed := new bool[length](_ => false);
    var guessUsed := new bool[length](_ => false);
    MarkExact(secret, guess, result, secretUsed, guessUsed);
    MarkMisplaced(secret, guess, result, secretUsed, guessUsed);
    r := result[..];
  }

  /** Pass 1 of compute_feedback: mark every exact match Green and claim it
      on both sides. */
  method MarkExact(secret: string, guess: string, result: array<char>, secretUsed: array<bool>, guessUsed: array<bool>)
    requires |secret| <= |guess|
    requires result.Length == secretUsed.Length == guessUsed.Length == |secret| && secretUsed != guessUsed
    requires forall k :: 0 <= k < |secret| ==> result[k] == Black && !secretUsed[k] && !guessUsed[k]
    modifies result, secretUsed, guessUsed
    ensures forall k :: 0 <= k < |secret| ==>
      result[k] == (if guess[k] == secret[k] then Green else Black)
    ensures forall k :: 0 <= k < |secret| ==> secretUsed[k] == guessUsed[k] == (guess[k] == secret[k])
  {
    var length := |secret|;
    for i := 0 to length
      invariant forall k :: 0 <= k < length ==>
        result[k] == (if k < i && guess[k] == secret[k] then Green else Black)
      invariant forall k :: 0 <= k < length ==>
        secretUsed[k] == guessUsed[k] == (k < i && guess[k] == secret[k])
    {
      if guess[i] == secret[i] {
        result[i] := Green;
        secretUsed[i] := true;
        guessUsed[i] := true;
      }
    }
  }

  /** Pass 2 of compute_feedback: each guess position not yet matched scans the
      secret left to right for the first unclaimed equal character; if there
      is one it is claimed and the position becomes Purple, otherwise the
      position stays Black. The marks are then exactly the feedback, the
      claimed guess positions are those marked Green or Purple, and the
      claimed secret positions are the exact matches and, per character, its
      leftmost spare copies, as many as the guess has non-exact occurrences. */
  method MarkMisplaced(secret: string, guess: string, result: array<char>, secretUsed: array<bool>, guessUsed: array<bool>)
    requires |secret| <= |guess|
    requires result.Length == secretUsed.Length == guessUsed.Length == |secret| && secretUsed != guessUsed
    requires forall k :: 0 <= k < |secret| ==>
      result[k] == (if guess[k] == secret[k] then Green else Black)
    requires forall k :: 0 <= k < |secret| ==> secretUsed[k] == guessUsed[k] == (guess[k] == secret[k])
    modifies result, secretUsed, guessUsed
    ensures result[..] == Feedback(secret, guess)
    ensures forall k :: 0 <= k < |secret| ==> guessUsed[k] == (result[k] != Black)
    ensures forall j :: 0 <= j < |secret| ==>
      secretUsed[j] == (guess[j] == secret[j] || SecretSpare(secret, guess, secret[j], j) < GuessSpare(secret, guess, secret[j], |secret|))
  {
    var length := |secret|;
    SecondPassStart(secret, guess, result[..], secretUsed[..], guessUsed[..]);
    for i := 0 to length
      invariant SecondPassInv(secret, guess, result[..], secretUsed[..], guessUsed[..], i)
    {
      MarkPosition(secret, guess, result, secretUsed, guessUsed, i);
    }
    SecondPassDone(secret, guess, result[..], secretUsed[..], guessUsed[..]);
  }

  /** One step of pass 2, at guess position i: a position matched in pass 1
      is skipped; otherwise the first unclaimed equal secret character, if
      any, is claimed and the position becomes Purple. */
  method MarkPosition(secret: string, guess: string, result: array<char>, secretUsed: array<bool>, guessUsed: array<bool>, i: nat)
    requires result.Length == secretUsed.Length == guessUsed.Length == |secret| && secretUsed != guessUsed
    requires i < |secret| && SecondPassInv(secret, guess, result[..], secretUsed[..], guessUsed[..], i)
    modifies result, secretUsed, guessUsed
    ensures SecondPassInv(secret, guess, result[..], secretUsed[..], guessUsed[..], i + 1)
  {
    ghost var marks, used, matched := result[..], secretUsed[..], guessUsed[..];
    if guessUsed[i] {
      GreenStep(secret, guess, marks, used, matched, i);
      return;
    }
    var gch := guess[i];
    ghost var found := false;
    for j := 0 to |secret|
      invariant !found
      invariant result[..] == marks && secretUsed[..] == used && guessUsed[..] == matched
      invariant forall k :: 0 <= k < j ==> secretUsed[k] || secret[k] != gch
    {
      if !secretUsed[j] && secret[j] == gch {
        PurpleStep(secret, guess, marks, used, matched, i, j);
        result[i] := Purple;
        secretUsed[j] := true;
        guessUsed[i] := true;
        assert result[..] == marks[i := Purple];
        assert secretUsed[..] == used[j := true];
        assert guessUsed[..] == matched[i := true];
        found := true;
        break;
      }
    }
    if !found {
      BlackStep(secret, guess, marks, used, matched, i);
    }
  }

  /** What the first pass leaves satisfies the second pass's invariant at 0. */
  lemma SecondPassStart(secret: string, guess: string, marks: string, used: seq<bool>, matched: seq<bool>)
    requires |secret| <= |guess| && |marks| == |used| == |matched| == |secret|
    requires forall k :: 0 <= k < |secret| ==>
      marks[k] == (if guess[k] == secret[k] then Green else Black)
    requires forall k :: 0 <= k < |secret| ==> used[k] == matched[k] == (guess[k] == secret[k])
    ensures SecondPassInv(secret, guess, marks, used, matched, 0)
  {
    forall c ensures Claimed(secret, guess, used, c, |secret|) == 0 {
      ClaimedNone(secret, guess, used, c, |secret|);
    }
  }

  /** After the last position every mark is the one the counting
      characterisation gives. */
  lemma SecondPassDone(secret: string, guess: string, marks: string, used: seq<bool>, matched: seq<bool>)
    requires SecondPassInv(secret, guess, marks, used, matched, |secret|)
    ensures marks == Feedback(secret, guess)
    ensures forall k :: 0 <= k < |secret| ==> matched[k] == (marks[k] != Black)
    ensures forall j :: 0 <= j < |secret| ==>
      used[j] == (guess[j] == secret[j] || SecretSpare(secret, guess, secret[j], j) < GuessSpare(secret, guess, secret[j], |secret|))
  {
  }

  /** An exact match: its mark stays Green and no claim is made. */
  lemma GreenStep(secret: string, guess: string, marks: string, used: seq<bool>, matched: seq<bool>, i: nat)
    requires SecondPassInv(secret, guess, marks, used, matched, i)
    requires i < |secret| && matched[i]
    ensures SecondPassInv(secret, guess, marks, used, matched, i + 1)
  {
  }

  /** The scan finds an unclaimed secret copy of the guess character at j:
      the mark becomes Purple and claiming j keeps the claims balanced. */
  lemma PurpleStep(secret: string, guess: string, marks: string, used: seq<bool>, matched: seq<bool>, i: nat, j: nat)
    requires SecondPassInv(secret, guess, marks, used, matched, i)
    requires i < |secret| && j < |secret| && !matched[i] && !used[j] && secret[j] == guess[i]
    requires forall k :: 0 <= k < j ==> used[k] || secret[k] != guess[i]
    ensures SecondPassInv(secret, guess, marks[i := Purple], used[j := true], matched[i := true], i + 1)
  {
    var n, c := |secret|, guess[i];
    assert guess[j] != secret[j];
    SpareRankIsNext(secret, guess, used, i, j);
    forall p | 0 <= p < n && p != j && secret[p] == c && guess[p] != c
      ensures SecretSpare(secret, guess, c, p) != SecretSpare(secret, guess, c, j)
    {
      if p < j {
        SpareRankIncreasing(secret, guess, c, p, j);
      } else {
        SpareRankIncreasing(secret, guess, c, j, p);
      }
    }
    ClaimOne(secret, guess, used, j, c, n);
    ClaimedAtMostSpare(secret, guess, used[j := true], c, n);
    assert Claimed(secret, guess, used, c, n)
        == Min(GuessSpare(secret, guess, c, i), SecretSpare(secret, guess, c, n));
    assert MarkAt(secret, guess, i) == Purple;
    forall d ensures Claimed(secret, guess, used[j := true], d, n)
                  == Min(GuessSpare(secret, guess, d, i + 1), SecretSpare(secret, guess, d, n))
    {
      ClaimOne(secret, guess, used, j, d, n);
      assert Claimed(secret, guess, used, d, n)
          == Min(GuessSpare(secret, guess, d, i), SecretSpare(secret, guess, d, n));
    }
  }

  /** The scan finds no unclaimed copy: the mark stays Black, and the claims
      stay balanced one position on without claiming anything. */
  lemma BlackStep(secret: string, guess: string, marks: string, used: seq<bool>, matched: seq<bool>, i: nat)
    requires SecondPassInv(secret, guess, marks, used, matched, i)
    requires i < |secret| && !matched[i]
    requires forall k :: 0 <= k < |secret| ==> used[k] || secret[k] != guess[i]
    ensures SecondPassInv(secret, guess, marks, used, matched, i + 1)
  {
    var n, c := |secret|, guess[i];
    ClaimedAll(secret, guess, used, c, n);
    assert Claimed(secret, guess, used, c, n)
        == Min(GuessSpare(secret, guess, c, i), SecretSpare(secret, guess, c, n));
    assert MarkAt(secret, guess, i) == Black;
    forall d ensures Claimed(secret, guess, used, d, n)
                  == Min(GuessSpare(secret, guess, d, i + 1), SecretSpare(secret, guess, d, n))
    {
      assert Claimed(secret, guess, used, d, n)
          == Min(GuessSpare(secret, guess, d, i), SecretSpare(secret, guess, d, n));
    }
  }

  /** The first unclaimed spare copy of c that the scan reaches is the next
      one in line: exactly GuessSpare(c, i) spare copies stand before it. */
  lemma SpareRankIsNext(secret: string, guess: string, used: seq<bool>, i: nat, j: nat)
    requires |secret| <= |guess| && |used| == |secret| && i < |secret| && j < |secret|
    requires forall p :: 0 <= p < |secret| ==> used[p] == SecretClaimed(secret, guess, i, p)
    requires !used[j] && secret[j] == guess[i]
    requires forall k :: 0 <= k < j ==> used[k] || secret[k] != guess[i]
    ensures SecretSpare(secret, guess, guess[i], j) == GuessSpare(secret, guess, guess[i], i)
  {
    var c := guess[i];
    var g := GuessSpare(secret, guess, c, i);
    if g < SecretSpare(secret, guess, c, j) {
      var p := SpareRankOnto(secret, guess, c, j, g);
    }
  }

  /** Spare copies of c are ranked 0, 1, 2, ... from left to right: every
      rank below SecretSpare(c, j) belongs to a spare copy before j. */
  lemma {:induction false} SpareRankOnto(secret: string, guess: string, c: char, j: nat, r: nat) returns (p: nat)
    requires j <= |secret| && j <= |guess| && r < SecretSpare(secret, guess, c, j)
    ensures p < j && secret[p] == c && guess[p] != c && SecretSpare(secret, guess, c, p) == r
  {
    if r == SecretSpare(secret, guess, c, j - 1) {
      p := j - 1;
    } else {
      p := SpareRankOnto(secret, guess, c, j - 1, r);
    }
  }

  /** A spare copy of c has a smaller rank than any position after it. */
  lemma {:induction false} SpareRankIncreasing(secret: string, guess: string, c: char, p: nat, q: nat)
    requires p < q <= |secret| && q <= |guess| && secret[p] == c && guess[p] != c
    ensures SecretSpare(secret, guess, c, p) < SecretSpare(secret, guess, c, q)
  {
    if q - 1 > p {
      SpareRankIncreasing(secret, guess, c, p, q - 1);
    }
  }

  lemma {:induction false} ClaimedNone(secret: string, guess: string, used: seq<bool>, c: char, n: nat)
    requires n <= |secret| && n <= |guess| && n <= |used|
    requires forall k :: 0 <= k < n && used[k] ==> secret[k] == guess[k]
    ensures Claimed(secret, guess, used, c, n) == 0
  {
    if n > 0 {
      ClaimedNone(secret, guess, used, c, n - 1);
    }
  }

  lemma {:induction false} ClaimedAtMostSpare(secret: string, guess: string, used: seq<bool>, c: char, n: nat)
    requires n <= |secret| && n <= |guess| && n <= |used|
    ensures Claimed(secret, guess, used, c, n) <= SecretSpare(secret, guess, c, n)
  {
    if n > 0 {
      ClaimedAtMostSpare(secret, guess, used, c, n - 1);
    }
  }

  lemma {:induction false} ClaimedAll(secret: string, guess: string, used: seq<bool>, c: char, n: nat)
    requires n <= |secret| && n <= |guess| && n <= |used|
    requires forall k :: 0 <= k < n && secret[k] == c && guess[k] != c ==> used[k]
    ensures Claimed(secret, guess, used, c, n) == SecretSpare(secret, guess, c, n)
  {
    if n > 0 {
      ClaimedAll(secret, guess, used, c, n - 1);
    }
  }

  lemma {:induction false} ClaimOne(secret: string, guess: string, used: seq<bool>, j: nat, d: char, n: nat)
    requires n <= |secret| && n <= |guess| && n <= |used|
    requires j < |secret| && j < |guess| && j < |used| && !used[j] && guess[j] != secret[j]
    ensures Claimed(secret, guess, used[j := true], d, n)
         == Claimed(secret, guess, used, d, n) + (if j < n && secret[j] == d then 1 else 0)
  {
    if n > 0 {
      ClaimOne(secret, guess, used, j, d, n - 1);
    }
  }
}
