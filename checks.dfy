/**
  The checks around scoring: is a guess all green, is an input a word from
  the lists, does a guess respect hard mode, and which candidate answers
  remain possible in hint mode.
 */
module Validity {
  import opened Words
  import opened LetterStatus
  import opened Comparator

  /** Every position of the feedback is green. */
  predicate AllGreen(p: seq<Status>) {
    forall i :: 0 <= i < |p| ==> p[i] == G
  }

  /** Decides whether a guess was right, scanning like the program and stopping at the first non-green. */
  method CheckCorrect(p: seq<Status>) returns (ok: bool)
    ensures ok == AllGreen(p)
  {
    for i := 0 to |p|
      invariant forall j :: 0 <= j < i ==> p[j] == G
    {
      if p[i] != G {
        return false;
      }
    }
    return true;
  }

  /** A guess is correct exactly when it is the answer. */
  lemma CheckCorrectIffAnswer(answer: string, guess: string)
    requires |answer| == |guess|
    ensures AllGreen(Feedback(answer, guess)) <==> guess == answer
  {
    AllGreenIffAnswer(answer, guess);
  }

  /**
    An input (already upper-cased) the game accepts: five upper-case letters,
    the upper-cased form of an entry of the final list, or of the acceptable
    list when the word is not required to be a final word.
   */
  predicate Acceptable(word: string, isFinal: bool, finalList: seq<string>, acceptableList: seq<string>) {
    IsWord(word) && (word in UpperAll(finalList) || (!isFinal && word in UpperAll(acceptableList)))
  }

  /**
    Checks an input: its length, then each character, then the final list
    and, when final words are not required, the acceptable list, returning
    at the first failure or the first match.
   */
  method ValidInput(word: string, isFinal: bool, finalList: seq<string>, acceptableList: seq<string>) returns (ok: bool)
    ensures ok == Acceptable(word, isFinal, finalList, acceptableList)
  {
    if |word| != 5 {
      return false;
    }
    for i := 0 to |word|
      invariant forall j :: 0 <= j < i ==> IsUpper(word[j])
    {
      if !IsUpper(word[i]) {
        return false;
      }
    }
    var inFinal := Listed(word, finalList);
    if inFinal {
      return true;
    }
    if !isFinal {
      ok := Listed(word, acceptableList);
      return;
    }
    return false;
  }

  /** Looks for an entry of list whose upper-cased form is word, stopping at the first. */
  method Listed(word: string, list: seq<string>) returns (found: bool)
    ensures found <==> word in UpperAll(list)
  {
    for i := 0 to |list|
      invariant forall j :: 0 <= j < i ==> Upper(list[j]) != word
    {
      if Upper(list[i]) == word {
        assert UpperAll(list)[i] == word;
        return true;
      }
    }
    return false;
  }

  /** The acceptable list matters only when final words are not required. */
  lemma ValidInputFinalOnly(word: string, finalList: seq<string>, acceptableList: seq<string>, otherList: seq<string>)
    ensures Acceptable(word, true, finalList, acceptableList) == Acceptable(word, true, finalList, otherList)
    ensures Acceptable(word, true, finalList, acceptableList) ==> Acceptable(word, false, finalList, acceptableList)
  {
  }

  // ---------------------------------------------------------------------
  // Hard mode
  // ---------------------------------------------------------------------

  /** The known-green slots after a guess: green wherever the guess was green, otherwise as before. */
  function KnownGreens(greens: seq<Status>, p1: seq<Status>): (r: seq<Status>)
    requires |greens| == |p1|
    ensures |r| == |greens|
  {
    seq(|greens|, i requires 0 <= i < |greens| => if p1[i] == G then G else greens[i])
  }

  /** Records the green positions of the latest feedback, on a fresh copy of the slots. */
  method UpdateKnownGreens(greens: seq<Status>, p1: seq<Status>) returns (r: seq<Status>)
    requires |greens| == 5 && |p1| == 5
    ensures r == KnownGreens(greens, p1)
  {
    var a := new Status[5](i requires 0 <= i < 5 => greens[i]);
    for i := 0 to 5
      invariant forall j :: 0 <= j < i ==> a[j] == (if p1[j] == G then G else greens[j])
      invariant forall j :: i <= j < 5 ==> a[j] == greens[j]
    {
      if p1[i] == G {
        a[i] := G;
      }
    }
    r := a[..];
  }

  /** A slot is known green afterwards exactly when it was before or the guess made it green; a G is never cleared. */
  lemma KnownGreensGrow(greens: seq<Status>, p1: seq<Status>, i: int)
    requires |greens| == |p1| && 0 <= i < |greens|
    ensures KnownGreens(greens, p1)[i] == G <==> greens[i] == G || p1[i] == G
    ensures p1[i] != G ==> KnownGreens(greens, p1)[i] == greens[i]
  {
  }

  /**
    A guess respects what hard mode has revealed: every known-green slot
    holds the answer's letter, and every letter marked yellow in the
    alphabet occurs in it.
   */
  predicate KeepsKnown(guess: string, answer: string, greens: seq<Status>, alphabet: seq<Status>)
    requires |guess| == 5 && |answer| == 5 && |greens| == 5 && |alphabet| == 26
  {
    (forall i :: 0 <= i < 5 && greens[i] == G ==> guess[i] == answer[i]) &&
    (forall k :: 0 <= k < 26 && alphabet[k] == Y ==> Letter(k) in guess)
  }

  /**
    The hard-mode check: the known-green slots first, then the yellow
    letters, refusing the guess at the first slot that does not hold the
    answer's letter or the first yellow letter it lacks.
   */
  method CheckValidDifficult(guess: string, answer: string, greens: seq<Status>, alphabet: seq<Status>) returns (ok: bool)
    requires |guess| == 5 && |answer| == 5 && |greens| == 5 && |alphabet| == 26
    ensures ok == KeepsKnown(guess, answer, greens, alphabet)
    ensures !ok <==> (exists i :: 0 <= i < 5 && greens[i] == G && guess[i] != answer[i]) ||
                     (exists k :: 0 <= k < 26 && alphabet[k] == Y && Letter(k) !in guess)
  {
    for i := 0 to 5
      invariant forall j :: 0 <= j < i && greens[j] == G ==> guess[j] == answer[j]
    {
      if greens[i] == G && guess[i] != answer[i] {
        return false;
      }
    }
    for k := 0 to 26
      invariant forall j :: 0 <= j < k && alphabet[j] == Y ==> Letter(j) in guess
    {
      if alphabet[k] == Y && Letter(k) !in guess {
        return false;
      }
    }
    return true;
  }

  // ---------------------------------------------------------------------
  // Hint mode
  // ---------------------------------------------------------------------

  /** Candidate e stays possible when scoring the guessed word against e reproduces the feedback. */
  predicate Reproduces(status: seq<Status>, e: string, word: string)
    requires |e| == |word|
  {
    Feedback(e, word) == status
  }

  /** Scores the guessed word against candidate e and compares with the feedback the answer gave. */
  method CheckValidHint(status: seq<Status>, e: string, word: string) returns (ok: bool)
    requires |e| == 5 && IsWord(word)
    ensures ok == Reproduces(status, e, word)
    ensures ok ==> |status| == |word| && forall i :: 0 <= i < |word| ==> (status[i] == G <==> e[i] == word[i])
  {
    var eStatus, _ := Compare(e, word);
    ok := status == eStatus;
  }

  /** The answer itself always reproduces its own feedback. */
  lemma HintKeepsAnswer(answer: string, word: string)
    requires |answer| == |word|
    ensures Reproduces(Feedback(answer, word), answer, word)
  {
  }

  /**
    What a surviving candidate must look like: it agrees with the guess on
    the green positions, holds at least as many copies of each letter as the
    feedback credited to it, and exactly that many when a copy was red.
   */
  lemma HintCandidateCounts(status: seq<Status>, e: string, word: string, c: char)
    requires |e| == |word| && Reproduces(status, e, word)
    ensures Credited(word, status, |word|, c) <= Count(e, c)
    ensures (exists i :: 0 <= i < |word| && word[i] == c && status[i] == R) ==>
              Count(e, c) == Credited(word, status, |word|, c)
  {
    CreditedIsMinimum(e, word, c);
    CreditedAtMostCopies(word, status, |word|, c);
    assert word[..|word|] == word;
  }

  /** The candidates of pool that reproduce the feedback p1 of word, in their order. */
  function HintPool(pool: seq<string>, p1: seq<Status>, word: string): (r: seq<string>)
    requires forall e :: e in pool ==> |e| == |word|
    ensures forall e :: e in r <==> e in pool && Reproduces(p1, Upper(e), word)
  {
    if pool == [] then []
    else
      var rest := HintPool(pool[..|pool| - 1], p1, word);
      var e := pool[|pool| - 1];
      assert pool == pool[..|pool| - 1] + [e];
      if Reproduces(p1, Upper(e), word) then rest + [e] else rest
  }

  /** Filtering keeps an order-preserving subsequence of the pool, so it never grows. */
  lemma {:induction false} HintPoolShrinks(pool: seq<string>, p1: seq<Status>, word: string)
    requires forall e :: e in pool ==> |e| == |word|
    ensures IsSubsequence(HintPool(pool, p1, word), pool)
    ensures |HintPool(pool, p1, word)| <= |pool|
  {
    if pool != [] {
      var init := pool[..|pool| - 1];
      HintPoolShrinks(init, p1, word);
      SubsequenceExtend(HintPool(init, p1, word), init, pool[|pool| - 1]);
      assert init + [pool[|pool| - 1]] == pool;
    }
    SubsequenceShorter(HintPool(pool, p1, word), pool);
  }
}
