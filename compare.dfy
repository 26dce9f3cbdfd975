/**
  Scoring one guess against the answer, with the duplicate-letter rule:
  exact matches are green; every other guessed letter is yellow while
  unmatched copies of it remain in the answer, taken left to right; the
  rest are red.
 */
module Comparator {
  import opened Words
  import opened LetterStatus

  // ---------------------------------------------------------------------
  // Reference definition
  // ---------------------------------------------------------------------

  /** Positions j < n where the answer holds c and the guess does not (copies left to find). */
  function Unmatched(answer: string, guess: string, n: nat, c: char): nat
    requires n <= |answer| && n <= |guess|
  {
    if n == 0 then 0
    else Unmatched(answer, guess, n - 1, c) + (if answer[n - 1] == c && guess[n - 1] != c then 1 else 0)
  }

  /** Positions j < n where the guess holds c and the answer does not (guessed copies out of place). */
  function Misplaced(answer: string, guess: string, n: nat, c: char): nat
    requires n <= |answer| && n <= |guess|
  {
    if n == 0 then 0
    else Misplaced(answer, guess, n - 1, c) + (if guess[n - 1] == c && answer[n - 1] != c then 1 else 0)
  }

  /** Positions j < n where both words hold c. */
  function Placed(answer: string, guess: string, n: nat, c: char): nat
    requires n <= |answer| && n <= |guess|
  {
    if n == 0 then 0
    else Placed(answer, guess, n - 1, c) + (if answer[n - 1] == c && guess[n - 1] == c then 1 else 0)
  }

  /**
    The mark of position i: G on an exact match; otherwise Y when fewer of
    the earlier out-of-place copies of this letter came before it than there
    are unmatched copies of the letter in the answer; otherwise R.
   */
  function Mark(answer: string, guess: string, i: nat): Status
    requires |answer| == |guess| && i < |guess|
  {
    if answer[i] == guess[i] then G
    else if Misplaced(answer, guess, i, guess[i]) < Unmatched(answer, guess, |answer|, guess[i]) then Y
    else R
  }

  /** The per-position feedback for a guess. */
  function Feedback(answer: string, guess: string): (fb: seq<Status>)
    requires |answer| == |guess|
    ensures |fb| == |guess|
    ensures forall i :: 0 <= i < |fb| ==> fb[i] != X
    ensures forall i :: 0 <= i < |fb| ==> (fb[i] == G <==> answer[i] == guess[i])
  {
    seq(|guess|, i requires 0 <= i < |guess| => Mark(answer, guess, i))
  }

  /** Some occurrence of c in the guess is an exact match. */
  predicate GreenFor(answer: string, guess: string, c: char)
    requires |answer| == |guess|
  {
    exists j :: 0 <= j < |guess| && guess[j] == c && answer[j] == c
  }

  /** Some occurrence of c among the first n guessed letters is marked yellow. */
  predicate YellowFor(answer: string, guess: string, n: nat, c: char)
    requires |answer| == |guess| && n <= |guess|
  {
    n > 0 && (YellowFor(answer, guess, n - 1, c) || (guess[n - 1] == c && Mark(answer, guess, n - 1) == Y))
  }

  lemma {:induction false} YellowForMeaning(answer: string, guess: string, n: nat, c: char)
    requires |answer| == |guess| && n <= |guess|
    ensures YellowFor(answer, guess, n, c) <==> exists j :: 0 <= j < n && guess[j] == c && Mark(answer, guess, j) == Y
  {
    if n > 0 {
      YellowForMeaning(answer, guess, n - 1, c);
    }
  }

  /**
    What one guess says about letter c: X when c is not in the guess, G when
    some occurrence of it is green, otherwise Y when some occurrence is
    yellow, otherwise R.
   */
  function LetterMark(answer: string, guess: string, c: char): Status
    requires |answer| == |guess|
  {
    if c !in guess then X
    else if GreenFor(answer, guess, c) then G
    else if YellowFor(answer, guess, |guess|, c) then Y
    else R
  }

  /** The per-letter feedback for a guess, indexed by alphabet position. */
  function LetterFeedback(answer: string, guess: string): (ls: seq<Status>)
    requires |answer| == |guess|
    ensures |ls| == 26
  {
    seq(26, k requires 0 <= k < 26 => LetterMark(answer, guess, Letter(k)))
  }

  // ---------------------------------------------------------------------
  // The scorer
  // ---------------------------------------------------------------------

  /** Remaining unmatched copies of c once the out-of-place guessed copies before i had their turn. */
  function Remaining(answer: string, guess: string, i: nat, c: char): int
    requires |answer| == |guess| && i <= |guess|
  {
    var u := Unmatched(answer, guess, |answer|, c);
    var m := Misplaced(answer, guess, i, c);
    if m < u then u - m else 0
  }

  lemma {:induction false} UnmatchedAbsent(answer: string, guess: string, n: nat, c: char)
    requires n <= |answer| && n <= |guess|
    requires c !in answer[..n]
    ensures Unmatched(answer, guess, n, c) == 0
  {
    if n > 0 {
      assert answer[..n - 1] == answer[..n][..n - 1];
      UnmatchedAbsent(answer, guess, n - 1, c);
      assert answer[n - 1] in answer[..n];
    }
  }

  /**
    Position i takes one unmatched copy of its letter when it is out of
    place and one is left: it is yellow exactly then, and no other count moves.
   */
  lemma RemainingStep(answer: string, guess: string, i: nat)
    requires |answer| == |guess| && i < |guess|
    ensures answer[i] != guess[i] ==> Mark(answer, guess, i) == (if Remaining(answer, guess, i, guess[i]) > 0 then Y else R)
    ensures forall c :: Remaining(answer, guess, i + 1, c) ==
                        (if c == guess[i] && answer[i] != c && Remaining(answer, guess, i, c) > 0
                         then Remaining(answer, guess, i, c) - 1
                         else Remaining(answer, guess, i, c))
  {
  }

  /** Step one of the scorer: every guessed position and every guessed letter starts red. */
  method MarkGuessed(guess: string) returns (res: array<Status>, ls: array<Status>)
    requires IsWord(guess)
    ensures fresh(res) && fresh(ls) && res.Length == 5 && ls.Length == 26
    ensures forall j :: 0 <= j < 5 ==> res[j] == R
    ensures forall k :: 0 <= k < 26 ==> ls[k] == (if Letter(k) in guess then R else X)
  {
    res := new Status[5](_ => X);
    ls := new Status[26](_ => X);
    for i := 0 to 5
      invariant forall j :: 0 <= j < i ==> res[j] == R
      invariant forall k :: 0 <= k < 26 ==> ls[k] == (if Letter(k) in guess[..i] then R else X)
    {
      res[i] := R;
      ls[LetterIndex(guess[i])] := R;
      assert guess[..i + 1] == guess[..i] + [guess[i]];
    }
    assert guess[..5] == guess;
  }

  /** Step two: exact matches turn green, both the position and the letter. */
  method MarkExact(answer: string, guess: string, res: array<Status>, ls: array<Status>)
    requires |answer| == 5 && IsWord(guess)
    requires res.Length == 5 && ls.Length == 26 && res != ls
    requires forall j :: 0 <= j < 5 ==> res[j] == R
    requires forall k :: 0 <= k < 26 ==> ls[k] == (if Letter(k) in guess then R else X)
    modifies res, ls
    ensures forall j :: 0 <= j < 5 ==> res[j] == (if answer[j] == guess[j] then G else R)
    ensures forall k :: 0 <= k < 26 ==>
      ls[k] == (if GreenFor(answer, guess, Letter(k)) then G
                else if Letter(k) in guess then R
                else X)
  {
    for i := 0 to 5
      invariant forall j :: 0 <= j < i ==> res[j] == (if answer[j] == guess[j] then G else R)
      invariant forall j :: i <= j < 5 ==> res[j] == R
      invariant forall k :: 0 <= k < 26 ==>
        ls[k] == (if exists j :: 0 <= j < i && guess[j] == Letter(k) && answer[j] == Letter(k) then G
                  else if Letter(k) in guess then R
                  else X)
    {
      if answer[i] == guess[i] {
        res[i] := G;
        ls[LetterIndex(guess[i])] := G;
      }
    }
  }

  /**
    Step three: for every letter of the answer, the number of its copies at
    positions that did not turn green. Every answer letter gets an entry,
    possibly zero; no other letter does.
   */
  method CountUnmatched(answer: string, guess: string, res: seq<Status>) returns (count: map<char, int>)
    requires |answer| == 5 && |guess| == 5 && |res| == 5
    requires forall j :: 0 <= j < 5 ==> (res[j] == G <==> answer[j] == guess[j])
    ensures forall c :: c in count <==> c in answer
    ensures forall c :: c in count ==> count[c] == Unmatched(answer, guess, |answer|, c)
  {
    count := map[];
    for i := 0 to 5
      invariant forall c :: c in count <==> c in answer[..i]
      invariant forall c :: c in count ==> count[c] == Unmatched(answer, guess, i, c)
    {
      var c := answer[i];
      var x := if c in count then count[c] else 0;
      if c !in count {
        UnmatchedAbsent(answer, guess, i, c);
      }
      if res[i] != G {
        x := x + 1;
      }
      count := count[c := x];
      assert answer[..i + 1] == answer[..i] + [c];
    }
    assert answer[..5] == answer;
  }

  /** The positions after the yellow pass has seen the first i of them. */
  function MarksAfter(answer: string, guess: string, i: nat): (r: seq<Status>)
    requires |answer| == |guess| && i <= |guess|
    ensures |r| == |guess|
  {
    seq(|guess|, j requires 0 <= j < |guess| =>
      if j < i then Mark(answer, guess, j) else if answer[j] == guess[j] then G else R)
  }

  /** The letters after the yellow pass has seen the first i positions. */
  function LettersAfter(answer: string, guess: string, i: nat): (r: seq<Status>)
    requires |answer| == |guess| && i <= |guess|
    ensures |r| == 26
  {
    seq(26, k requires 0 <= k < 26 =>
      if GreenFor(answer, guess, Letter(k)) then G
      else if YellowFor(answer, guess, i, Letter(k)) then Y
      else if Letter(k) in guess then R
      else X)
  }

  /** Seeing position i fixes its mark and leaves the other positions alone. */
  lemma MarksStep(answer: string, guess: string, i: nat)
    requires |answer| == |guess| && i < |guess|
    ensures MarksAfter(answer, guess, i + 1) == MarksAfter(answer, guess, i)[i := Mark(answer, guess, i)]
  {
  }

  /** Seeing position i turns its letter yellow when the position is yellow and the letter is not green. */
  lemma LettersStep(answer: string, guess: string, i: nat)
    requires |answer| == |guess| && i < |guess| && IsUpper(guess[i])
    ensures var ls := LettersAfter(answer, guess, i);
            var k := LetterIndex(guess[i]);
            LettersAfter(answer, guess, i + 1) ==
              if Mark(answer, guess, i) == Y && ls[k] != G then ls[k := Y] else ls
  {
  }

  /** Step four: out-of-place letters turn yellow, left to right, while unmatched copies remain. */
  method MarkMisplaced(answer: string, guess: string, res: array<Status>, ls: array<Status>, count: map<char, int>)
    requires |answer| == 5 && IsWord(guess)
    requires res.Length == 5 && ls.Length == 26 && res != ls
    requires forall j :: 0 <= j < 5 ==> res[j] == (if answer[j] == guess[j] then G else R)
    requires forall k :: 0 <= k < 26 ==>
      ls[k] == (if GreenFor(answer, guess, Letter(k)) then G
                else if Letter(k) in guess then R
                else X)
    requires forall c :: c in count <==> c in answer
    requires forall c :: c in count ==> count[c] == Unmatched(answer, guess, |answer|, c)
    modifies res, ls
    ensures res[..] == Feedback(answer, guess)
    ensures ls[..] == LetterFeedback(answer, guess)
  {
    var count := count;
    assert res[..] == MarksAfter(answer, guess, 0);
    assert ls[..] == LettersAfter(answer, guess, 0);
    for i := 0 to 5
      invariant res[..] == MarksAfter(answer, guess, i)
      invariant ls[..] == LettersAfter(answer, guess, i)
      invariant forall c :: c in count <==> c in answer
      invariant forall c :: c in count ==> count[c] == Remaining(answer, guess, i, c)
    {
      var g := guess[i];
      RemainingStep(answer, guess, i);
      MarksStep(answer, guess, i);
      LettersStep(answer, guess, i);
      if g !in count {
        UnmatchedAbsent(answer, guess, |answer|, g);
      }
      assert (res[i] != G && g in count && count[g] > 0) <==> Mark(answer, guess, i) == Y;
      if res[i] != G {
        if g in count && count[g] > 0 {
          res[i] := Y;
          if ls[LetterIndex(g)] != G {
            ls[LetterIndex(g)] := Y;
          }
          count := count[g := count[g] - 1];
        }
      }
    }
    assert res[..] == Feedback(answer, guess);
    forall k | 0 <= k < 26
      ensures ls[k] == LetterFeedback(answer, guess)[k]
    {
      YellowForMeaning(answer, guess, |guess|, Letter(k));
    }
  }

  /**
    Scores guess against answer: first every guessed position and letter is
    red, then exact matches turn green, then the unmatched answer letters are
    counted, and yellows are handed out left to right while the count lasts.
   */
  method Compare(answer: string, guess: string) returns (result: seq<Status>, letters: seq<Status>)
    requires |answer| == 5 && IsWord(guess)
    ensures result == Feedback(answer, guess)
    ensures letters == LetterFeedback(answer, guess)
  {
    var res, ls := MarkGuessed(guess);
    MarkExact(answer, guess, res, ls);
    var count := CountUnmatched(answer, guess, res[..]);
    MarkMisplaced(answer, guess, res, ls, count);
    result := res[..];
    letters := ls[..];
  }

  // ---------------------------------------------------------------------
  // Properties of the feedback
  // ---------------------------------------------------------------------

  /** Marked (G or Y) positions j < n whose guessed letter is c. */
  function Credited(guess: string, fb: seq<Status>, n: nat, c: char): nat
    requires n <= |guess| && n <= |fb|
  {
    if n == 0 then 0
    else Credited(guess, fb, n - 1, c) + (if guess[n - 1] == c && (fb[n - 1] == G || fb[n - 1] == Y) then 1 else 0)
  }

  /** At most every guessed copy of c is credited, and a red copy makes it strictly fewer. */
  lemma {:induction false} CreditedAtMostCopies(guess: string, fb: seq<Status>, n: nat, c: char)
    requires n <= |guess| && n <= |fb|
    ensures Credited(guess, fb, n, c) <= Count(guess[..n], c)
    ensures (exists j :: 0 <= j < n && guess[j] == c && fb[j] == R) ==> Credited(guess, fb, n, c) < Count(guess[..n], c)
  {
    if n > 0 {
      CreditedAtMostCopies(guess, fb, n - 1, c);
      CountPrefixStep(guess, n - 1, c);
    }
  }

  /** Yellow positions j < n whose guessed letter is c. */
  function Yellows(answer: string, guess: string, n: nat, c: char): nat
    requires |answer| == |guess| && n <= |guess|
  {
    if n == 0 then 0
    else Yellows(answer, guess, n - 1, c) + (if guess[n - 1] == c && Mark(answer, guess, n - 1) == Y then 1 else 0)
  }

  lemma {:induction false} YellowsAreFirstMisplaced(answer: string, guess: string, n: nat, c: char)
    requires |answer| == |guess| && n <= |guess|
    ensures var u := Unmatched(answer, guess, |answer|, c);
            var m := Misplaced(answer, guess, n, c);
            Yellows(answer, guess, n, c) == if m < u then m else u
  {
    if n > 0 {
      YellowsAreFirstMisplaced(answer, guess, n - 1, c);
    }
  }

  lemma {:induction false} CountSplitsGuess(answer: string, guess: string, n: nat, c: char)
    requires |answer| == |guess| && n <= |guess|
    ensures Count(guess[..n], c) == Placed(answer, guess, n, c) + Misplaced(answer, guess, n, c)
  {
    if n > 0 {
      CountSplitsGuess(answer, guess, n - 1, c);
      CountPrefixStep(guess, n - 1, c);
    }
  }

  lemma {:induction false} CountSplitsAnswer(answer: string, guess: string, n: nat, c: char)
    requires |answer| == |guess| && n <= |guess|
    ensures Count(answer[..n], c) == Placed(answer, guess, n, c) + Unmatched(answer, guess, n, c)
  {
    if n > 0 {
      CountSplitsAnswer(answer, guess, n - 1, c);
      CountPrefixStep(answer, n - 1, c);
    }
  }

  lemma {:induction false} CreditedSplits(answer: string, guess: string, fb: seq<Status>, n: nat, c: char)
    requires |answer| == |guess| == |fb| && n <= |guess|
    requires forall j :: 0 <= j < |fb| ==> fb[j] == Mark(answer, guess, j)
    ensures Credited(guess, fb, n, c) == Placed(answer, guess, n, c) + Yellows(answer, guess, n, c)
  {
    if n > 0 {
      CreditedSplits(answer, guess, fb, n - 1, c);
      assert fb[n - 1] == Mark(answer, guess, n - 1);
    }
  }

  /**
    The duplicate-letter rule: for every letter, the number of guessed
    copies marked G or Y is the smaller of its number of copies in the
    guess and in the answer. In particular it never exceeds the answer's.
   */
  lemma CreditedIsMinimum(answer: string, guess: string, c: char)
    requires |answer| == |guess|
    ensures var k := Credited(guess, Feedback(answer, guess), |guess|, c);
            k == (if Count(guess, c) < Count(answer, c) then Count(guess, c) else Count(answer, c))
    ensures Credited(guess, Feedback(answer, guess), |guess|, c) <= Count(answer, c)
  {
    var n := |guess|;
    CreditedSplits(answer, guess, Feedback(answer, guess), n, c);
    YellowsAreFirstMisplaced(answer, guess, n, c);
    CountSplitsGuess(answer, guess, n, c);
    CountSplitsAnswer(answer, guess, n, c);
    assert guess[..n] == guess && answer[..n] == answer;
  }

  lemma {:induction false} MisplacedGrows(answer: string, guess: string, j: nat, i: nat)
    requires |answer| == |guess| && j < i <= |guess|
    requires answer[j] != guess[j]
    ensures Misplaced(answer, guess, j, guess[j]) < Misplaced(answer, guess, i, guess[j])
  {
    if i > j + 1 {
      MisplacedGrows(answer, guess, j, i - 1);
    }
  }

  /**
    Yellows go to the leftmost out-of-place copies: when a position is
    yellow, every earlier out-of-place copy of the same letter is yellow
    too, and when it is red, every later one is red too.
   */
  lemma YellowsLeftmost(answer: string, guess: string, j: nat, i: nat)
    requires |answer| == |guess| && j < i < |guess|
    requires guess[j] == guess[i] && answer[j] != guess[j] && answer[i] != guess[i]
    ensures Feedback(answer, guess)[i] == Y ==> Feedback(answer, guess)[j] == Y
    ensures Feedback(answer, guess)[j] == R ==> Feedback(answer, guess)[i] == R
  {
    MisplacedGrows(answer, guess, j, i);
  }

  /**
    The letter feedback is the best mark any occurrence of the letter got:
    X when absent, G when some occurrence is green, Y when some occurrence
    is yellow and none green, R when every occurrence is red.
   */
  lemma LetterFeedbackMeaning(answer: string, guess: string, k: int)
    requires |answer| == |guess| && 0 <= k < 26
    ensures var s := LetterFeedback(answer, guess)[k];
            var fb := Feedback(answer, guess);
            var c := Letter(k);
            (s == X <==> c !in guess) &&
            (s == G <==> exists j :: 0 <= j < |guess| && guess[j] == c && fb[j] == G) &&
            (s == Y <==> (exists j :: 0 <= j < |guess| && guess[j] == c && fb[j] == Y) &&
                         !(exists j :: 0 <= j < |guess| && guess[j] == c && fb[j] == G)) &&
            (s == R <==> c in guess && forall j :: 0 <= j < |guess| && guess[j] == c ==> fb[j] == R)
  {
    var fb := Feedback(answer, guess);
    var c := Letter(k);
    YellowForMeaning(answer, guess, |guess|, c);
    if c in guess {
      var j :| 0 <= j < |guess| && guess[j] == c;
      assert fb[j] == Mark(answer, guess, j);
    }
  }

  /** A guess is all green exactly when it is the answer. */
  lemma AllGreenIffAnswer(answer: string, guess: string)
    requires |answer| == |guess|
    ensures (forall i :: 0 <= i < |guess| ==> Feedback(answer, guess)[i] == G) <==> guess == answer
  {
    var fb := Feedback(answer, guess);
    if forall i :: 0 <= i < |guess| ==> fb[i] == G {
      assert forall i :: 0 <= i < |guess| ==> guess[i] == answer[i];
    }
  }

  /** Answer "ABCDE", guess "AABBE": the B at index 2 takes the only unmatched B. */
  lemma ExampleRepeatedLetters()
    ensures Feedback("ABCDE", "AABBE") == [G, R, Y, R, G]
  {
    var a, g := "ABCDE", "AABBE";
    assert Unmatched(a, g, 5, 'A') == 0;
    assert Unmatched(a, g, 5, 'B') == 1;
    assert Misplaced(a, g, 2, 'B') == 0;
    assert Misplaced(a, g, 3, 'B') == 1;
    assert Mark(a, g, 1) == R && Mark(a, g, 2) == Y && Mark(a, g, 3) == R;
  }

  /** Answer "SPEED", guess "ERASE": both E's of the guess are yellow, the answer has two. */
  lemma ExampleTwoCopies()
    ensures Feedback("SPEED", "ERASE") == [Y, R, R, Y, Y]
  {
    var a, g := "SPEED", "ERASE";
    assert Unmatched(a, g, 5, 'E') == 2;
    assert Unmatched(a, g, 5, 'S') == 1;
    assert Unmatched(a, g, 5, 'R') == 0 && Unmatched(a, g, 5, 'A') == 0;
    assert Misplaced(a, g, 0, 'E') == 0 && Misplaced(a, g, 4, 'E') == 1;
    assert Misplaced(a, g, 3, 'S') == 0;
    assert Mark(a, g, 0) == Y && Mark(a, g, 1) == R && Mark(a, g, 2) == R;
    assert Mark(a, g, 3) == Y && Mark(a, g, 4) == Y;
  }
}
