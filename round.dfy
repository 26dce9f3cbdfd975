/**
  One round of the game: up to six scored guesses against a fixed answer.
  The lines the player types are given as a sequence; rejected lines are
  skipped without using up a guess.
 */
module RoundController {
  import opened Words
  import opened LetterStatus
  import opened Comparator
  import opened Validity

  datatype Outcome = Correct | Failed

  /** What a round is played with: the answer, the two word lists and the two modes. */
  datatype Setup = Setup(answer: string, finalList: seq<string>, acceptableList: seq<string>,
                         difficult: bool, hint: bool)
  {
    /** The answer has five characters, and so has every candidate the hint filter scores against. */
    predicate Valid() {
      |answer| == 5 && (hint ==> forall e :: e in acceptableList ==> |e| == 5)
    }
  }

  /**
    The state of a round between guesses: the alphabet knowledge, the
    known-green slots (hard mode), the scored guesses, the remaining hint
    candidates and the session's word-use counts.
   */
  datatype Board = Board(alphabet: seq<Status>, greens: seq<Status>, guesses: seq<string>,
                         pool: seq<string>, wordCount: map<string, int>)

  /** A board on which another guess can still be made. */
  predicate Open(b: Board) {
    |b.alphabet| == 26 && |b.greens| == 5 && |b.guesses| < 6 && forall e :: e in b.pool ==> |e| == 5
  }

  /** The board before the first guess. */
  function Start(setup: Setup, wordCount: map<string, int>): (b: Board)
    requires setup.Valid()
    ensures Open(b) && b.guesses == []
  {
    Board(Unknown(), seq(5, _ => X), [], if setup.hint then setup.acceptableList else [], wordCount)
  }

  /** A typed line as the game reads it: trimmed and upper-cased. */
  function Normalize(line: string): string {
    Upper(Trim(line))
  }

  /** A word of five upper-case letters reads as itself. */
  lemma NormalizeWord(w: string)
    requires IsWord(w)
    ensures Normalize(w) == w
  {
    assert !IsSpace(w[0]) && !IsSpace(w[4]);
  }

  /** A leading form feed is trimmed like any other white space. */
  lemma NormalizeFormFeed()
    ensures Normalize(['\U{000C}'] + "CRANE") == "CRANE"
  {
    var line := ['\U{000C}'] + "CRANE";
    assert line[1..] == "CRANE";
    assert Trim(line) == Trim("CRANE");
    NormalizeWord("CRANE");
  }

  /** The word is accepted as the next guess: a listed word, and in hard mode one that keeps the known information. */
  predicate Admits(setup: Setup, b: Board, word: string)
    requires setup.Valid() && Open(b)
  {
    Acceptable(word, false, setup.finalList, setup.acceptableList) &&
    (!setup.difficult || KeepsKnown(word, setup.answer, b.greens, b.alphabet))
  }

  /** The board after scoring an accepted word. */
  function Score(setup: Setup, b: Board, word: string): (b': Board)
    requires setup.Valid() && Open(b) && IsWord(word)
    ensures |b'.alphabet| == 26 && |b'.greens| == 5 && b'.guesses == b.guesses + [word]
    ensures forall e :: e in b'.pool ==> |e| == 5
  {
    var p1 := Feedback(setup.answer, word);
    Board(Merged(b.alphabet, LetterFeedback(setup.answer, word)),
          if setup.difficult then KnownGreens(b.greens, p1) else b.greens,
          b.guesses + [word],
          if setup.hint then HintPool(b.pool, p1, word) else b.pool,
          b.wordCount[word := Lookup(b.wordCount, word) + 1])
  }

  /** How a round ends: won or lost with the attempt count and the guesses, or still waiting for input. */
  datatype RoundEnd = Finished(outcome: Outcome, count: int, guesses: seq<string>) | OutOfInput

  datatype Played = Played(end: RoundEnd, board: Board)

  /**
    The round as a function of the remaining input lines: the round waits
    for input when none is left, and otherwise takes the next line.
   */
  function Play(setup: Setup, b: Board, inputs: seq<string>): (r: Played)
    requires setup.Valid() && Open(b)
    ensures b.guesses <= r.board.guesses && |r.board.guesses| <= 6
    ensures |r.board.alphabet| == 26 && |r.board.greens| == 5
    ensures r.end.Finished? ==> r.end.guesses == r.board.guesses && r.end.count == |r.board.guesses|
    ensures r.end.OutOfInput? ==> |r.board.guesses| < 6
    decreases |inputs|, 1
  {
    if inputs == [] then Played(OutOfInput, b)
    else Turn(setup, b, Normalize(inputs[0]), inputs[1..])
  }

  /**
    One typed line, read as word, followed by the lines still to come: a
    rejected word is skipped; an accepted one is scored; an all-green
    feedback ends the round won, the sixth wrong guess ends it lost.
   */
  function Turn(setup: Setup, b: Board, word: string, rest: seq<string>): (r: Played)
    requires setup.Valid() && Open(b)
    ensures b.guesses <= r.board.guesses && |r.board.guesses| <= 6
    ensures |r.board.alphabet| == 26 && |r.board.greens| == 5
    ensures r.end.Finished? ==> r.end.guesses == r.board.guesses && r.end.count == |r.board.guesses|
    ensures r.end.OutOfInput? ==> |r.board.guesses| < 6
    decreases |rest| + 1, 0
  {
    if !Admits(setup, b, word) then Play(setup, b, rest)
    else
      var b' := Score(setup, b, word);
      if AllGreen(Feedback(setup.answer, word)) then Played(Finished(Correct, |b'.guesses|, b'.guesses), b')
      else if |b'.guesses| == 6 then Played(Finished(Failed, 6, b'.guesses), b')
      else Play(setup, b', rest)
  }

  /** A rejected line is skipped. */
  lemma PlayRejected(setup: Setup, b: Board, inputs: seq<string>)
    requires setup.Valid() && Open(b) && inputs != [] && !Admits(setup, b, Normalize(inputs[0]))
    ensures Play(setup, b, inputs) == Play(setup, b, inputs[1..])
  {
  }

  /**
    An accepted line is scored: the round is won when it is the answer, lost
    when it is the sixth guess, and goes on with the next line otherwise.
   */
  lemma PlayAccepted(setup: Setup, b: Board, inputs: seq<string>)
    requires setup.Valid() && Open(b) && inputs != [] && Admits(setup, b, Normalize(inputs[0]))
    ensures IsWord(Normalize(inputs[0]))
    ensures var word := Normalize(inputs[0]);
            var b' := Score(setup, b, word);
            Play(setup, b, inputs) ==
              if word == setup.answer then Played(Finished(Correct, |b'.guesses|, b'.guesses), b')
              else if |b'.guesses| == 6 then Played(Finished(Failed, 6, b'.guesses), b')
              else Play(setup, b', inputs[1..])
  {
    var word := Normalize(inputs[0]);
    CheckCorrectIffAnswer(setup.answer, word);
  }

  /** The round goes on after the first line: it is accepted, it is not the answer, and it is not the sixth guess. */
  predicate GoesOn(setup: Setup, b: Board, inputs: seq<string>)
    requires setup.Valid() && Open(b)
  {
    inputs != [] && Admits(setup, b, Normalize(inputs[0])) && Normalize(inputs[0]) != setup.answer && |b.guesses| < 5
  }

  /** The board the round goes on with, after scoring the first line. */
  function After(setup: Setup, b: Board, inputs: seq<string>): (b': Board)
    requires setup.Valid() && Open(b) && GoesOn(setup, b, inputs)
    ensures Open(b') && b'.guesses == b.guesses + [Normalize(inputs[0])]
  {
    PlayAccepted(setup, b, inputs);
    Score(setup, b, Normalize(inputs[0]))
  }

  /** When the round goes on, it continues from the board after the first line. */
  lemma PlayGoesOn(setup: Setup, b: Board, inputs: seq<string>)
    requires setup.Valid() && Open(b) && GoesOn(setup, b, inputs)
    ensures Play(setup, b, inputs) == Play(setup, After(setup, b, inputs), inputs[1..])
  {
    PlayAccepted(setup, b, inputs);
  }

  /** An accepted first line that does not let the round go on ends it: won on the answer, lost on the sixth guess. */
  lemma PlayStops(setup: Setup, b: Board, inputs: seq<string>)
    requires setup.Valid() && Open(b) && inputs != [] && Admits(setup, b, Normalize(inputs[0])) && !GoesOn(setup, b, inputs)
    ensures IsWord(Normalize(inputs[0]))
    ensures var word := Normalize(inputs[0]);
            var b' := Score(setup, b, word);
            (word != setup.answer ==> |b'.guesses| == 6) &&
            Play(setup, b, inputs) ==
              Played(Finished(if word == setup.answer then Correct else Failed, |b'.guesses|, b'.guesses), b')
  {
    PlayAccepted(setup, b, inputs);
  }

  /** Position of the first line from k on that would be accepted on board b, or |inputs| when there is none. */
  function NextAccepted(setup: Setup, b: Board, inputs: seq<string>, k: nat): (j: nat)
    requires setup.Valid() && Open(b) && k <= |inputs|
    ensures k <= j <= |inputs|
    ensures j < |inputs| ==> Admits(setup, b, Normalize(inputs[j]))
    decreases |inputs| - k
  {
    if k == |inputs| then k
    else if Admits(setup, b, Normalize(inputs[k])) then k
    else NextAccepted(setup, b, inputs, k + 1)
  }

  /** The lines before the next accepted one make no difference to the round. */
  lemma {:induction false} PlaySkipsRejected(setup: Setup, b: Board, inputs: seq<string>, k: nat)
    requires setup.Valid() && Open(b) && k <= |inputs|
    ensures Play(setup, b, inputs[k..]) == Play(setup, b, inputs[NextAccepted(setup, b, inputs, k)..])
    decreases |inputs| - k
  {
    if k < |inputs| && !Admits(setup, b, Normalize(inputs[k])) {
      assert inputs[k..][1..] == inputs[k + 1..];
      PlaySkipsRejected(setup, b, inputs, k + 1);
    }
  }

  /** The round from line k on is the round from the next accepted line on, which is admitted on board b. */
  lemma PlayNextAccepted(setup: Setup, b: Board, inputs: seq<string>, k: nat)
    requires setup.Valid() && Open(b) && k <= |inputs| && NextAccepted(setup, b, inputs, k) < |inputs|
    ensures var j := NextAccepted(setup, b, inputs, k);
            var tail := inputs[j..];
            tail != [] && tail[0] == inputs[j] && tail[1..] == inputs[j + 1..] &&
            Admits(setup, b, Normalize(tail[0])) &&
            Play(setup, b, inputs[k..]) == Play(setup, b, tail)
  {
    PlaySkipsRejected(setup, b, inputs, k);
    NextAcceptedTail(setup, b, inputs, k);
  }

  lemma NextAcceptedTail(setup: Setup, b: Board, inputs: seq<string>, k: nat)
    requires setup.Valid() && Open(b) && k <= |inputs| && NextAccepted(setup, b, inputs, k) < |inputs|
    ensures var j := NextAccepted(setup, b, inputs, k);
            var tail := inputs[j..];
            tail != [] && tail[0] == inputs[j] && tail[1..] == inputs[j + 1..] &&
            Admits(setup, b, Normalize(tail[0]))
  {
    var j := NextAccepted(setup, b, inputs, k);
    var tail := inputs[j..];
    assert tail[0] == inputs[j];
    assert tail[1..] == inputs[j + 1..];
  }

  /** When no line from k on is accepted, the round runs out of input on board b. */
  lemma PlayNoneAccepted(setup: Setup, b: Board, inputs: seq<string>, k: nat)
    requires setup.Valid() && Open(b) && k <= |inputs| && NextAccepted(setup, b, inputs, k) == |inputs|
    ensures Play(setup, b, inputs[k..]) == Played(OutOfInput, b)
  {
    PlaySkipsRejected(setup, b, inputs, k);
    assert inputs[|inputs|..] == [];
  }

  /**
    One turn of the round, stated on what the rest of the round plays out
    to: the next accepted line from k on wins if it is the answer, loses if
    it is the sixth miss, and otherwise leaves the same outcome to be
    reached from the scored board and the lines after it.
   */
  lemma TurnOutcome(setup: Setup, b: Board, tail: seq<string>, goal: Played, b': Board)
    requires setup.Valid() && Open(b) && tail != [] && Admits(setup, b, Normalize(tail[0])) && Play(setup, b, tail) == goal
    requires IsWord(Normalize(tail[0])) && b' == Score(setup, b, Normalize(tail[0]))
    ensures Normalize(tail[0]) == setup.answer ==> goal == Played(Finished(Correct, |b'.guesses|, b'.guesses), b')
    ensures Normalize(tail[0]) != setup.answer && |b'.guesses| == 6 ==> goal == Played(Finished(Failed, 6, b'.guesses), b')
    ensures Normalize(tail[0]) != setup.answer && |b'.guesses| < 6 ==> Open(b') && Play(setup, b', tail[1..]) == goal
  {
    if GoesOn(setup, b, tail) {
      PlayGoesOn(setup, b, tail);
    } else {
      PlayStops(setup, b, tail);
    }
  }

  /** The acceptance test of one line: format and list membership first, then, in hard mode, the hard-mode check. */
  method Accepts(setup: Setup, b: Board, guess: string) returns (ok: bool)
    requires setup.Valid() && Open(b)
    ensures ok == Admits(setup, b, guess)
  {
    ok := ValidInput(guess, false, setup.finalList, setup.acceptableList);
    if ok && setup.difficult {
      ok := CheckValidDifficult(guess, setup.answer, b.greens, b.alphabet);
    }
  }

  /**
    Reads lines from position k on until one is accepted: format and list
    membership first, then, in hard mode, the hard-mode check. Rejected
    lines are skipped; at the end of the input no word is found.
   */
  method NextGuess(setup: Setup, b: Board, inputs: seq<string>, k: nat) returns (found: bool, word: string, k': nat)
    requires setup.Valid() && Open(b) && k <= |inputs|
    ensures found <==> NextAccepted(setup, b, inputs, k) < |inputs|
    ensures found ==> k' == NextAccepted(setup, b, inputs, k) + 1 && word == Normalize(inputs[k' - 1])
    ensures !found ==> k' == |inputs|
  {
    k' := k;
    while k' < |inputs|
      invariant k <= k' <= |inputs|
      invariant NextAccepted(setup, b, inputs, k) == NextAccepted(setup, b, inputs, k')
    {
      var guess := Normalize(inputs[k']);
      var ok := Accepts(setup, b, guess);
      if ok {
        return true, guess, k' + 1;
      }
      k' := k' + 1;
    }
    found, word := false, "";
  }

  /** The hint filter of the round: keeps, in order, the candidates that reproduce the feedback p1 of word. */
  method NarrowHints(pool: seq<string>, p1: seq<Status>, word: string) returns (kept: seq<string>)
    requires IsWord(word) && forall e :: e in pool ==> |e| == 5
    ensures kept == HintPool(pool, p1, word)
  {
    kept := [];
    for j := 0 to |pool|
      invariant kept == HintPool(pool[..j], p1, word)
    {
      assert pool[..j + 1][..j] == pool[..j];
      var keep := CheckValidHint(p1, Upper(pool[j]), word);
      if keep {
        kept := kept + [pool[j]];
      }
    }
    assert pool[..|pool|] == pool;
  }

  /**
    Scores an accepted word: records it, compares it with the answer, merges
    the letter feedback into the alphabet, narrows the hint candidates (hint
    mode), fixes the known greens (hard mode) and counts the word's use.
   */
  method ScoreGuess(setup: Setup, b: Board, word: string) returns (b': Board, p1: seq<Status>)
    requires setup.Valid() && Open(b) && IsWord(word)
    ensures b' == Score(setup, b, word) && p1 == Feedback(setup.answer, word)
  {
    var guesses := b.guesses + [word];
    var p2;
    p1, p2 := Compare(setup.answer, word);
    var alphabet := Merge(b.alphabet, p2);

    var possible := b.pool;
    if setup.hint {
      possible := NarrowHints(b.pool, p1, word);
    }

    var greens := b.greens;
    if setup.difficult {
      greens := UpdateKnownGreens(greens, p1);
    }

    var wc := b.wordCount[word := Lookup(b.wordCount, word) + 1];
    b' := Board(alphabet, greens, guesses, possible, wc);
  }

  /**
    One turn of the round from line k on: reads the next accepted guess
    with NextGuess, scores it with ScoreGuess and checks it for all green.
    Stated on what the rest of the round plays out to: out of input when
    no line is accepted, won on an all-green guess, lost on a sixth miss,
    and otherwise the same outcome from the new board and the lines after
    the guess.
   */
  method TakeTurn(setup: Setup, board: Board, inputs: seq<string>, k: nat, ghost goal: Played)
    returns (found: bool, correct: bool, board': Board, k': nat)
    requires setup.Valid() && Open(board) && k <= |inputs| && Play(setup, board, inputs[k..]) == goal
    ensures k' <= |inputs|
    ensures !found ==> goal == Played(OutOfInput, board)
    ensures found ==> |board'.guesses| == |board.guesses| + 1
    ensures found && correct ==> goal == Played(Finished(Correct, |board'.guesses|, board'.guesses), board')
    ensures found && !correct && |board'.guesses| == 6 ==> goal == Played(Finished(Failed, 6, board'.guesses), board')
    ensures found && !correct && |board'.guesses| < 6 ==> Open(board') && Play(setup, board', inputs[k'..]) == goal
  {
    var word;
    found, word, k' := NextGuess(setup, board, inputs, k);
    if !found {
      PlayNoneAccepted(setup, board, inputs, k);
      return found, false, board, k';
    }
    PlayNextAccepted(setup, board, inputs, k);
    var p1;
    board', p1 := ScoreGuess(setup, board, word);
    ghost var tail := inputs[k' - 1..];
    TurnOutcome(setup, board, tail, goal, board');
    correct := CheckCorrect(p1);
    CheckCorrectIffAnswer(setup.answer, word);
  }

  /**
    Plays one round: up to six guesses, each read with NextGuess and scored
    with ScoreGuess; an all-green feedback wins with the number of guesses
    so far, otherwise the round is lost after the sixth.
   */
  method Round(setup: Setup, wordCount: map<string, int>, inputs: seq<string>)
    returns (end: RoundEnd, wordCount': map<string, int>, hints: seq<string>)
    requires setup.Valid()
    ensures var r := Play(setup, Start(setup, wordCount), inputs);
            end == r.end && wordCount' == r.board.wordCount && hints == r.board.pool
  {
    var count := 0;
    var board := Start(setup, wordCount);
    ghost var goal := Play(setup, board, inputs);
    var k := 0;

    while count < 6
      invariant 0 <= k <= |inputs| && count == |board.guesses| <= 6
      invariant count < 6 ==> Open(board) && Play(setup, board, inputs[k..]) == goal
      invariant count == 6 ==> goal == Played(Finished(Failed, 6, board.guesses), board)
      decreases 6 - count
    {
      count := count + 1;
      var found, correct, next, k' := TakeTurn(setup, board, inputs, k, goal);
      if !found {
        end, wordCount', hints := OutOfInput, board.wordCount, board.pool;
        return;
      }
      board, k := next, k';
      if correct {
        end, wordCount', hints := Finished(Correct, count, board.guesses), board.wordCount, board.pool;
        return;
      }
    }
    end, wordCount', hints := Finished(Failed, 6, board.guesses), board.wordCount, board.pool;
  }
}
