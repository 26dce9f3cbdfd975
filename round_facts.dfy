/**
  What a whole round guarantees, stated about the round function Play that
  RoundController.Round is proved to compute.
 */
module RoundFacts {
  import opened Words
  import opened LetterStatus
  import opened Comparator
  import opened Validity
  import opened RoundController

  /** The round ended with an all-green guess. */
  predicate Won(r: Played) {
    r.end.Finished? && r.end.outcome == Correct
  }

  /** The round ended after six wrong guesses. */
  predicate Lost(r: Played) {
    r.end.Finished? && r.end.outcome == Failed
  }

  /** Every entry is a guessable word. */
  predicate AllWords(gs: seq<string>) {
    forall i :: 0 <= i < |gs| ==> IsWord(gs[i])
  }

  // ---------------------------------------------------------------------
  // Outcome
  // ---------------------------------------------------------------------

  /** A won round ends on the answer, and a lost round has six guesses. */
  predicate Ends(setup: Setup, r: Played) {
    var gs := r.board.guesses;
    (Won(r) ==> gs != [] && gs[|gs| - 1] == setup.answer) && (Lost(r) ==> |gs| == 6)
  }

  /** Every guess but the last misses, and the last misses too unless the round is won. */
  predicate Misses(setup: Setup, r: Played) {
    var gs := r.board.guesses;
    gs != [] ==> setup.answer !in gs[..|gs| - 1] && (!Won(r) ==> setup.answer != gs[|gs| - 1])
  }

  /** Whatever the input, a won round ends on the answer and a lost one has made six guesses. */
  lemma {:induction false} PlayEnds(setup: Setup, b: Board, inputs: seq<string>)
    requires setup.Valid() && Open(b)
    ensures Ends(setup, Play(setup, b, inputs))
    decreases |inputs|
  {
    if inputs == [] {
      assert Play(setup, b, inputs) == Played(OutOfInput, b);
    } else if !Admits(setup, b, Normalize(inputs[0])) {
      PlayEnds(setup, b, inputs[1..]);
      PlayRejected(setup, b, inputs);
    } else if GoesOn(setup, b, inputs) {
      PlayEnds(setup, After(setup, b, inputs), inputs[1..]);
      PlayGoesOn(setup, b, inputs);
    } else {
      PlayStops(setup, b, inputs);
    }
  }

  /** Starting from guesses that all missed, only a winning last guess can be the answer. */
  lemma {:induction false} PlayMisses(setup: Setup, b: Board, inputs: seq<string>)
    requires setup.Valid() && Open(b) && setup.answer !in b.guesses
    ensures Misses(setup, Play(setup, b, inputs))
    decreases |inputs|
  {
    if inputs == [] {
      MissesEnd(setup, b);
    } else if !Admits(setup, b, Normalize(inputs[0])) {
      PlayMisses(setup, b, inputs[1..]);
      PlayRejected(setup, b, inputs);
    } else if GoesOn(setup, b, inputs) {
      var b' := After(setup, b, inputs);
      assert setup.answer !in b'.guesses;
      PlayMisses(setup, b', inputs[1..]);
      PlayGoesOn(setup, b, inputs);
    } else {
      MissesStop(setup, b, inputs);
    }
  }

  lemma MissesEnd(setup: Setup, b: Board)
    requires setup.Valid() && Open(b) && setup.answer !in b.guesses
    ensures Misses(setup, Play(setup, b, []))
  {
    assert Play(setup, b, []) == Played(OutOfInput, b);
    if b.guesses != [] {
      assert b.guesses == b.guesses[..|b.guesses| - 1] + [b.guesses[|b.guesses| - 1]];
    }
  }

  lemma MissesStop(setup: Setup, b: Board, inputs: seq<string>)
    requires setup.Valid() && Open(b) && setup.answer !in b.guesses
    requires inputs != [] && Admits(setup, b, Normalize(inputs[0])) && !GoesOn(setup, b, inputs)
    ensures Misses(setup, Play(setup, b, inputs))
  {
    PlayStops(setup, b, inputs);
    var b' := Score(setup, b, Normalize(inputs[0]));
    assert b'.guesses[..|b'.guesses| - 1] == b.guesses;
  }

  /**
    A round is won exactly when its last guess is the answer, no earlier
    guess is the answer, and a lost round has made six guesses.
   */
  lemma PlayOutcome(setup: Setup, b: Board, inputs: seq<string>)
    requires setup.Valid() && Open(b)
    requires setup.answer !in b.guesses
    ensures var r := Play(setup, b, inputs);
            var gs := r.board.guesses;
            (Won(r) ==> gs != [] && gs[|gs| - 1] == setup.answer) &&
            (!Won(r) ==> setup.answer !in gs) &&
            (gs != [] ==> setup.answer !in gs[..|gs| - 1]) &&
            (Lost(r) ==> |gs| == 6)
  {
    PlayEnds(setup, b, inputs);
    PlayMisses(setup, b, inputs);
    var r := Play(setup, b, inputs);
    assert Ends(setup, r) && Misses(setup, r);
    var gs := r.board.guesses;
    if gs != [] {
      assert gs == gs[..|gs| - 1] + [gs[|gs| - 1]];
    }
  }

  /** From the start of a round: won exactly when the last guess is the answer; lost after six guesses none of which is. */
  lemma RoundOutcome(setup: Setup, wordCount: map<string, int>, inputs: seq<string>)
    requires setup.Valid()
    ensures var r := Play(setup, Start(setup, wordCount), inputs);
            var gs := r.board.guesses;
            (Won(r) <==> gs != [] && gs[|gs| - 1] == setup.answer) &&
            (Lost(r) ==> |gs| == 6 && setup.answer !in gs)
  {
    PlayOutcome(setup, Start(setup, wordCount), inputs);
  }

  // ---------------------------------------------------------------------
  // Guesses and word counts
  // ---------------------------------------------------------------------

  /** The guesses c adds to those of b: no more than n of them, each a word of the lists. */
  predicate AddsListed(setup: Setup, b: Board, c: Board, n: nat) {
    |b.guesses| <= |c.guesses| &&
    var added := c.guesses[|b.guesses|..];
    |added| <= n && forall i :: 0 <= i < |added| ==> Acceptable(added[i], false, setup.finalList, setup.acceptableList)
  }

  /** Every guess a round adds is a word of the lists, and there are no more of them than input lines. */
  lemma {:induction false} PlayGuessesListed(setup: Setup, b: Board, inputs: seq<string>)
    requires setup.Valid() && Open(b)
    ensures AddsListed(setup, b, Play(setup, b, inputs).board, |inputs|)
    decreases |inputs|
  {
    if inputs == [] {
      assert Play(setup, b, inputs) == Played(OutOfInput, b);
      assert b.guesses[|b.guesses|..] == [];
    } else if !Admits(setup, b, Normalize(inputs[0])) {
      PlayGuessesListed(setup, b, inputs[1..]);
      PlayRejected(setup, b, inputs);
    } else if GoesOn(setup, b, inputs) {
      PlayGuessesListed(setup, After(setup, b, inputs), inputs[1..]);
      ListedGoesOn(setup, b, inputs);
    } else {
      PlayStops(setup, b, inputs);
      var b' := Score(setup, b, Normalize(inputs[0]));
      assert b'.guesses[|b.guesses|..] == [Normalize(inputs[0])];
    }
  }

  lemma ListedGoesOn(setup: Setup, b: Board, inputs: seq<string>)
    requires setup.Valid() && Open(b) && GoesOn(setup, b, inputs)
    requires AddsListed(setup, After(setup, b, inputs), Play(setup, After(setup, b, inputs), inputs[1..]).board, |inputs| - 1)
    ensures AddsListed(setup, b, Play(setup, b, inputs).board, |inputs|)
  {
    var b' := After(setup, b, inputs);
    PlayGoesOn(setup, b, inputs);
    AddsListedCons(setup, b, b', Play(setup, b', inputs[1..]).board, |inputs| - 1);
  }

  /** A listed word followed by listed guesses: all of them are listed. */
  lemma AddsListedCons(setup: Setup, b: Board, b': Board, c: Board, n: nat)
    requires |b'.guesses| == |b.guesses| + 1 && b'.guesses[..|b.guesses|] == b.guesses
    requires Acceptable(b'.guesses[|b.guesses|], false, setup.finalList, setup.acceptableList)
    requires b'.guesses <= c.guesses && AddsListed(setup, b', c, n)
    ensures AddsListed(setup, b, c, n + 1)
  {
    var word := b'.guesses[|b.guesses|];
    var rest := c.guesses[|b'.guesses|..];
    assert c.guesses[|b.guesses|..] == [word] + rest;
    ListedCons(setup, word, rest);
  }

  lemma ListedCons(setup: Setup, w: string, ws: seq<string>)
    requires Acceptable(w, false, setup.finalList, setup.acceptableList)
    requires forall i :: 0 <= i < |ws| ==> Acceptable(ws[i], false, setup.finalList, setup.acceptableList)
    ensures forall i :: 0 <= i < |[w] + ws| ==> Acceptable(([w] + ws)[i], false, setup.finalList, setup.acceptableList)
  {
    forall i | 1 <= i < |[w] + ws|
      ensures Acceptable(([w] + ws)[i], false, setup.finalList, setup.acceptableList)
    {
      assert ([w] + ws)[i] == ws[i - 1];
    }
  }

  /** Scoring a word counts one more use of it. */
  lemma ScoreCounts(setup: Setup, b: Board, word: string)
    requires setup.Valid() && Open(b) && IsWord(word)
    ensures Score(setup, b, word).wordCount == Tally(b.wordCount, [word])
  {
    TallyOne(b.wordCount, word);
  }

  /** The word counts of c are those of b with every guess c adds counted once more. */
  predicate Tallied(b: Board, c: Board) {
    |b.guesses| <= |c.guesses| && c.wordCount == Tally(b.wordCount, c.guesses[|b.guesses|..])
  }

  /** The word counts grow by exactly the guesses the round adds. */
  lemma {:induction false} PlayTallies(setup: Setup, b: Board, inputs: seq<string>)
    requires setup.Valid() && Open(b)
    ensures Tallied(b, Play(setup, b, inputs).board)
    decreases |inputs|
  {
    if inputs == [] {
      assert Play(setup, b, inputs) == Played(OutOfInput, b);
      assert b.guesses[|b.guesses|..] == [];
    } else if !Admits(setup, b, Normalize(inputs[0])) {
      PlayTallies(setup, b, inputs[1..]);
      PlayRejected(setup, b, inputs);
    } else if GoesOn(setup, b, inputs) {
      PlayTallies(setup, After(setup, b, inputs), inputs[1..]);
      TalliesGoOn(setup, b, inputs);
    } else {
      TalliesStop(setup, b, inputs);
    }
  }

  lemma TalliesGoOn(setup: Setup, b: Board, inputs: seq<string>)
    requires setup.Valid() && Open(b) && GoesOn(setup, b, inputs)
    requires Tallied(After(setup, b, inputs), Play(setup, After(setup, b, inputs), inputs[1..]).board)
    ensures Tallied(b, Play(setup, b, inputs).board)
  {
    var word := Normalize(inputs[0]);
    var b' := After(setup, b, inputs);
    PlayGoesOn(setup, b, inputs);
    assert b' == Score(setup, b, word);
    ScoreCounts(setup, b, word);
    TalliedCons(b, b', Play(setup, b', inputs[1..]).board, word);
  }

  /** Counting one word and then the guesses after it is counting them all. */
  lemma TalliedCons(b: Board, b': Board, c: Board, word: string)
    requires b'.guesses == b.guesses + [word] && b'.wordCount == Tally(b.wordCount, [word])
    requires b'.guesses <= c.guesses && Tallied(b', c)
    ensures Tallied(b, c)
  {
    var rest := c.guesses[|b'.guesses|..];
    assert c.guesses[|b.guesses|..] == [word] + rest;
    TallyAppend(b.wordCount, [word], rest);
  }

  lemma TalliesStop(setup: Setup, b: Board, inputs: seq<string>)
    requires setup.Valid() && Open(b) && inputs != [] && Admits(setup, b, Normalize(inputs[0])) && !GoesOn(setup, b, inputs)
    ensures Tallied(b, Play(setup, b, inputs).board)
  {
    var word := Normalize(inputs[0]);
    PlayStops(setup, b, inputs);
    var b' := Score(setup, b, word);
    assert b'.guesses[|b.guesses|..] == [word];
    ScoreCounts(setup, b, word);
  }

  /** Each word's count after a round is its count before plus the number of times it was guessed. */
  lemma RoundCountsEachWord(setup: Setup, wordCount: map<string, int>, inputs: seq<string>, w: string)
    requires setup.Valid()
    ensures var r := Play(setup, Start(setup, wordCount), inputs);
            Lookup(r.board.wordCount, w) == Lookup(wordCount, w) + Count(r.board.guesses, w)
  {
    var b := Start(setup, wordCount);
    PlayTallies(setup, b, inputs);
    var r := Play(setup, b, inputs);
    assert Tallied(b, r.board);
    assert r.board.guesses[0..] == r.board.guesses;
    TallyLookup(wordCount, r.board.guesses, w);
  }

  // ---------------------------------------------------------------------
  // Knowledge only grows
  // ---------------------------------------------------------------------

  /** No letter's status is lower in c than in b, and every known-green slot of b is known in c. */
  predicate Grows(b: Board, c: Board) {
    |b.alphabet| == 26 && |c.alphabet| == 26 && |b.greens| == 5 && |c.greens| == 5 &&
    (forall k :: 0 <= k < 26 ==> Rank(c.alphabet[k]) >= Rank(b.alphabet[k])) &&
    (forall s :: 0 <= s < 5 && b.greens[s] == G ==> c.greens[s] == G)
  }

  /** Scoring a word never lowers what the board knows. */
  lemma ScoreGrows(setup: Setup, b: Board, word: string)
    requires setup.Valid() && Open(b) && IsWord(word)
    ensures Grows(b, Score(setup, b, word))
  {
    var b' := Score(setup, b, word);
    forall k | 0 <= k < 26
      ensures Rank(b'.alphabet[k]) >= Rank(b.alphabet[k])
    {
      MergedBounds(b.alphabet, LetterFeedback(setup.answer, word), k);
    }
    forall s | 0 <= s < 5 && b.greens[s] == G
      ensures b'.greens[s] == G
    {
      if setup.difficult {
        KnownGreensGrow(b.greens, Feedback(setup.answer, word), s);
      }
    }
  }

  /** No letter's status is ever lowered, and a known-green slot stays known. */
  lemma {:induction false} PlayMonotone(setup: Setup, b: Board, inputs: seq<string>)
    requires setup.Valid() && Open(b)
    ensures Grows(b, Play(setup, b, inputs).board)
    decreases |inputs|
  {
    if inputs == [] {
      assert Play(setup, b, inputs) == Played(OutOfInput, b);
    } else if !Admits(setup, b, Normalize(inputs[0])) {
      PlayMonotone(setup, b, inputs[1..]);
      PlayRejected(setup, b, inputs);
    } else if GoesOn(setup, b, inputs) {
      var b' := After(setup, b, inputs);
      PlayMonotone(setup, b', inputs[1..]);
      PlayGoesOn(setup, b, inputs);
      ScoreGrows(setup, b, Normalize(inputs[0]));
      GrowsTransitive(b, b', Play(setup, b', inputs[1..]).board);
    } else {
      PlayStops(setup, b, inputs);
      ScoreGrows(setup, b, Normalize(inputs[0]));
    }
  }

  lemma GrowsTransitive(a: Board, b: Board, c: Board)
    requires Grows(a, b) && Grows(b, c)
    ensures Grows(a, c)
  {
  }

  // ---------------------------------------------------------------------
  // Hint mode
  // ---------------------------------------------------------------------

  /**
    The candidates of c are an order-preserving subsequence of those of b;
    in hint mode a candidate that is the answer is kept, and otherwise the
    candidates are untouched.
   */
  predicate Narrowed(setup: Setup, b: Board, c: Board) {
    IsSubsequence(c.pool, b.pool) &&
    (setup.hint ==> forall e :: e in b.pool && Upper(e) == setup.answer ==> e in c.pool) &&
    (!setup.hint ==> c.pool == b.pool)
  }

  /** Scoring a word narrows the candidates and keeps the answer among them. */
  lemma ScoreNarrows(setup: Setup, b: Board, word: string)
    requires setup.Valid() && Open(b) && IsWord(word)
    ensures Narrowed(setup, b, Score(setup, b, word))
  {
    if setup.hint {
      HintPoolShrinks(b.pool, Feedback(setup.answer, word), word);
      HintKeepsAnswer(setup.answer, word);
    } else {
      SubsequenceSelf(b.pool);
    }
  }

  lemma NarrowedTransitive(setup: Setup, a: Board, b: Board, c: Board)
    requires Narrowed(setup, a, b) && Narrowed(setup, b, c)
    ensures Narrowed(setup, a, c)
  {
    SubsequenceTransitive(c.pool, b.pool, a.pool);
  }

  /**
    The hint candidates only shrink, keeping their order, and a candidate
    that is the answer is never dropped. Outside hint mode they are untouched.
   */
  lemma {:induction false} PlayHints(setup: Setup, b: Board, inputs: seq<string>)
    requires setup.Valid() && Open(b)
    ensures Narrowed(setup, b, Play(setup, b, inputs).board)
    decreases |inputs|
  {
    if inputs == [] {
      assert Play(setup, b, inputs) == Played(OutOfInput, b);
      SubsequenceSelf(b.pool);
    } else if !Admits(setup, b, Normalize(inputs[0])) {
      PlayHints(setup, b, inputs[1..]);
      PlayRejected(setup, b, inputs);
    } else if GoesOn(setup, b, inputs) {
      var b' := After(setup, b, inputs);
      PlayHints(setup, b', inputs[1..]);
      PlayGoesOn(setup, b, inputs);
      ScoreNarrows(setup, b, Normalize(inputs[0]));
      NarrowedTransitive(setup, b, b', Play(setup, b', inputs[1..]).board);
    } else {
      PlayStops(setup, b, inputs);
      ScoreNarrows(setup, b, Normalize(inputs[0]));
    }
  }

  // ---------------------------------------------------------------------
  // Hard mode
  // ---------------------------------------------------------------------

  /** A letter found in its right place stays there in every later guess. */
  predicate GreensStay(answer: string, gs: seq<string>)
    requires |answer| == 5 && AllWords(gs)
  {
    forall i, j, s :: 0 <= i < j < |gs| && 0 <= s < 5 && gs[i][s] == answer[s] ==> gs[j][s] == answer[s]
  }

  /** A letter a guess marked yellow appears somewhere in every later guess. */
  predicate YellowsStay(answer: string, gs: seq<string>)
    requires |answer| == 5 && AllWords(gs)
  {
    forall i, j, k :: 0 <= i < j < |gs| && 0 <= k < 26 && LetterFeedback(answer, gs[i])[k] == Y ==>
      Letter(k) in gs[j]
  }

  /** The hard-mode promise over a list of guesses. */
  predicate HardKept(answer: string, gs: seq<string>)
    requires |answer| == 5 && AllWords(gs)
  {
    GreensStay(answer, gs) && YellowsStay(answer, gs)
  }

  /**
    The board records what its guesses revealed: every exactly placed letter
    is a known green, every letter a guess marked yellow is at least yellow
    in the alphabet, and a letter green in the alphabet sits in a known-green
    slot.
   */
  predicate Recorded(setup: Setup, b: Board)
    requires |setup.answer| == 5 && |b.alphabet| == 26 && |b.greens| == 5 && AllWords(b.guesses)
  {
    var gs := b.guesses;
    (forall i, s :: 0 <= i < |gs| && 0 <= s < 5 && gs[i][s] == setup.answer[s] ==> b.greens[s] == G) &&
    (forall i, k :: 0 <= i < |gs| && 0 <= k < 26 && LetterFeedback(setup.answer, gs[i])[k] == Y ==>
       b.alphabet[k] == Y || b.alphabet[k] == G) &&
    (forall k :: 0 <= k < 26 && b.alphabet[k] == G ==>
       exists s :: 0 <= s < 5 && b.greens[s] == G && setup.answer[s] == Letter(k))
  }

  /** Scoring a word in hard mode keeps the board's record up to date. */
  lemma ScoreRecords(setup: Setup, b: Board, word: string)
    requires setup.Valid() && setup.difficult && Open(b) && IsWord(word) && AllWords(b.guesses)
    requires Recorded(setup, b)
    ensures AllWords(Score(setup, b, word).guesses) && Recorded(setup, Score(setup, b, word))
  {
    var b' := Score(setup, b, word);
    var answer := setup.answer;
    var p1 := Feedback(answer, word);
    var ls := LetterFeedback(answer, word);
    assert b'.greens == KnownGreens(b.greens, p1);
    assert b'.alphabet == Merged(b.alphabet, ls);
    forall s | 0 <= s < 5
      ensures b.greens[s] == G ==> b'.greens[s] == G
      ensures word[s] == answer[s] ==> b'.greens[s] == G
    {
      KnownGreensGrow(b.greens, p1, s);
    }
    forall k | 0 <= k < 26
      ensures (b.alphabet[k] == Y || b.alphabet[k] == G || ls[k] == Y) ==> b'.alphabet[k] == Y || b'.alphabet[k] == G
      ensures b'.alphabet[k] == G ==> exists s :: 0 <= s < 5 && b'.greens[s] == G && answer[s] == Letter(k)
    {
      MergedBounds(b.alphabet, ls, k);
      if b'.alphabet[k] == G {
        if b.alphabet[k] != G {
          assert ls[k] == G;
          LetterFeedbackMeaning(answer, word, k);
          var j :| 0 <= j < 5 && word[j] == Letter(k) && p1[j] == G;
          assert b'.greens[j] == G && answer[j] == Letter(k);
        } else {
          var s :| 0 <= s < 5 && b.greens[s] == G && answer[s] == Letter(k);
          assert b'.greens[s] == G;
        }
      }
    }
  }

  /** A word accepted in hard mode keeps every exactly placed letter of the earlier guesses. */
  lemma AcceptedKeepsGreens(setup: Setup, b: Board, word: string)
    requires setup.Valid() && setup.difficult && Open(b) && IsWord(word) && AllWords(b.guesses)
    requires Recorded(setup, b) && GreensStay(setup.answer, b.guesses)
    requires KeepsKnown(word, setup.answer, b.greens, b.alphabet)
    ensures AllWords(b.guesses + [word]) && GreensStay(setup.answer, b.guesses + [word])
  {
    var gs := b.guesses + [word];
    assert AllWords(gs);
    forall i, j, s | 0 <= i < j < |gs| && 0 <= s < 5 && gs[i][s] == setup.answer[s]
      ensures gs[j][s] == setup.answer[s]
    {
      assert gs[i] == b.guesses[i];
      if j < |b.guesses| {
        assert gs[j] == b.guesses[j];
      } else {
        assert b.greens[s] == G;
      }
    }
  }

  /** A word accepted in hard mode contains every letter an earlier guess marked yellow. */
  lemma AcceptedKeepsYellows(setup: Setup, b: Board, word: string)
    requires setup.Valid() && setup.difficult && Open(b) && IsWord(word) && AllWords(b.guesses)
    requires Recorded(setup, b) && YellowsStay(setup.answer, b.guesses)
    requires KeepsKnown(word, setup.answer, b.greens, b.alphabet)
    ensures AllWords(b.guesses + [word]) && YellowsStay(setup.answer, b.guesses + [word])
  {
    var answer := setup.answer;
    var gs := b.guesses + [word];
    assert AllWords(gs);
    forall i, j, k | 0 <= i < j < |gs| && 0 <= k < 26 && LetterFeedback(answer, gs[i])[k] == Y
      ensures Letter(k) in gs[j]
    {
      assert gs[i] == b.guesses[i];
      if j < |b.guesses| {
        assert gs[j] == b.guesses[j];
      } else if b.alphabet[k] == G {
        var s :| 0 <= s < 5 && b.greens[s] == G && answer[s] == Letter(k);
        assert word[s] == answer[s];
      }
    }
  }

  /** A board that satisfies the hard-mode invariant: every guess a word, the board's record up to date, the promise kept so far. */
  predicate HardBoard(setup: Setup, b: Board) {
    |setup.answer| == 5 && |b.alphabet| == 26 && |b.greens| == 5 && AllWords(b.guesses) &&
    Recorded(setup, b) && HardKept(setup.answer, b.guesses)
  }

  /** Scoring a word accepted in hard mode keeps the hard-mode invariant. */
  lemma HardStep(setup: Setup, b: Board, word: string)
    requires setup.Valid() && setup.difficult && Open(b) && IsWord(word) && HardBoard(setup, b)
    requires KeepsKnown(word, setup.answer, b.greens, b.alphabet)
    ensures HardBoard(setup, Score(setup, b, word))
  {
    AcceptedKeepsGreens(setup, b, word);
    AcceptedKeepsYellows(setup, b, word);
    ScoreRecords(setup, b, word);
  }

  /** In hard mode, every guess a round adds keeps what the earlier guesses revealed. */
  lemma {:induction false} PlayHard(setup: Setup, b: Board, inputs: seq<string>)
    requires setup.Valid() && setup.difficult && Open(b) && HardBoard(setup, b)
    ensures HardBoard(setup, Play(setup, b, inputs).board)
    decreases |inputs|
  {
    if inputs == [] {
      assert Play(setup, b, inputs) == Played(OutOfInput, b);
    } else if !Admits(setup, b, Normalize(inputs[0])) {
      PlayHard(setup, b, inputs[1..]);
      PlayRejected(setup, b, inputs);
    } else if GoesOn(setup, b, inputs) {
      HardStep(setup, b, Normalize(inputs[0]));
      PlayHard(setup, After(setup, b, inputs), inputs[1..]);
      PlayGoesOn(setup, b, inputs);
    } else {
      PlayStops(setup, b, inputs);
      HardStep(setup, b, Normalize(inputs[0]));
    }
  }

  /** A hard-mode round keeps its promise from the first guess to the last. */
  lemma RoundHardMode(setup: Setup, wordCount: map<string, int>, inputs: seq<string>)
    requires setup.Valid() && setup.difficult
    ensures var gs := Play(setup, Start(setup, wordCount), inputs).board.guesses;
            AllWords(gs) && HardKept(setup.answer, gs)
  {
    var b := Start(setup, wordCount);
    assert forall k :: 0 <= k < 26 ==> b.alphabet[k] == X;
    PlayHard(setup, b, inputs);
    assert HardBoard(setup, Play(setup, b, inputs).board);
  }
}
