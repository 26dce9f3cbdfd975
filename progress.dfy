/**
  The saved record of past rounds: loading it into the session's results and
  word counts, and appending a finished round to it. The file itself is not
  modelled; what reading it produced is given as a StoredFile value.
 */
module Progress {
  import opened Words
  import opened RoundController
  import RoundFacts

  /** One stored round: its answer and the guesses made, in order. */
  datatype Game = Game(answer: string, guesses: seq<string>)

  /** The whole record: the round counter and the stored rounds. */
  datatype GameData = GameData(totalRounds: int, games: seq<Game>)

  /**
    What the record file turned out to hold: it could not be opened, could
    not be read, held just "{}", held text that is not a record, or held a
    record.
   */
  datatype StoredFile = CannotOpen | CannotRead | EmptyObject | Malformed | Stored(data: GameData)

  /** The result of an operation that either completes or stops the program. */
  datatype Effect<T> = Done(value: T) | Panicked

  /** The session state that loading fills in. */
  datatype Session = Session(results: seq<(Outcome, int)>, wordCount: map<string, int>, totalRounds: int)

  /** Every stored round has at least one guess. */
  predicate Playable(games: seq<Game>) {
    forall i :: 0 <= i < |games| ==> games[i].guesses != []
  }

  /** The (outcome, attempts) entry of one stored round: won exactly when its last guess is its answer. */
  function Summary(g: Game): (s: (Outcome, int))
    requires g.guesses != []
    ensures s.1 == |g.guesses| > 0
    ensures s.0 == Correct <==> g.answer == g.guesses[|g.guesses| - 1]
  {
    (if g.answer == g.guesses[|g.guesses| - 1] then Correct else Failed, |g.guesses|)
  }

  /** The entries of all stored rounds, in order. */
  function Summaries(games: seq<Game>): (r: seq<(Outcome, int)>)
    requires Playable(games)
    ensures |r| == |games|
    ensures forall i :: 0 <= i < |games| ==> r[i] == Summary(games[i])
  {
    if games == [] then []
    else Summaries(games[..|games| - 1]) + [Summary(games[|games| - 1])]
  }

  /** All guesses of all stored rounds, in order. */
  function AllGuesses(games: seq<Game>): (r: seq<string>)
  {
    if games == [] then []
    else AllGuesses(games[..|games| - 1]) + games[|games| - 1].guesses
  }

  /**
    Loads the record into the session. An unopenable or unreadable file and
    the empty object "{}" leave the session as it was; text that is not a
    record, or a stored round without guesses, stops the program. Otherwise
    the round counter is replaced, one entry per stored round is appended to
    the results, and every stored guess is counted once more.
   */
  method Load(file: StoredFile, session: Session) returns (r: Effect<Session>)
    ensures file.CannotOpen? || file.CannotRead? || file.EmptyObject? ==> r == Done(session)
    ensures file.Malformed? ==> r.Panicked?
    ensures file.Stored? && !Playable(file.data.games) ==> r.Panicked?
    ensures file.Stored? && Playable(file.data.games) ==>
              r == Done(Session(session.results + Summaries(file.data.games),
                                Tally(session.wordCount, AllGuesses(file.data.games)),
                                file.data.totalRounds))
  {
    match file
    case CannotOpen => return Done(session);
    case CannotRead => return Done(session);
    case EmptyObject => return Done(session);
    case Malformed => return Panicked;
    case Stored(data) =>
      var collected := CollectResults(data.games, session.results);
      if collected.Panicked? {
        return Panicked;
      }
      var wordCount := CountStoredGuesses(data.games, session.wordCount);
      return Done(Session(collected.value, wordCount, data.totalRounds));
  }

  /** The results loop of Load: one entry per stored round, stopping at a round without guesses. */
  method CollectResults(games: seq<Game>, results: seq<(Outcome, int)>) returns (r: Effect<seq<(Outcome, int)>>)
    ensures !Playable(games) ==> r.Panicked?
    ensures Playable(games) ==> r == Done(results + Summaries(games))
  {
    var collected := results;
    for i := 0 to |games|
      invariant Playable(games[..i])
      invariant collected == results + Summaries(games[..i])
    {
      var totalGuesses := |games[i].guesses|;
      if totalGuesses == 0 {
        return Panicked;
      }
      assert games[..i + 1][..i] == games[..i];
      if games[i].answer == games[i].guesses[totalGuesses - 1] {
        collected := collected + [(Correct, totalGuesses)];
      } else {
        collected := collected + [(Failed, totalGuesses)];
      }
    }
    assert games[..|games|] == games;
    return Done(collected);
  }

  /** The word-count loops of Load: every guess of every stored round is counted once more. */
  method CountStoredGuesses(games: seq<Game>, wordCount: map<string, int>) returns (wc: map<string, int>)
    ensures wc == Tally(wordCount, AllGuesses(games))
  {
    wc := wordCount;
    for i := 0 to |games|
      invariant wc == Tally(wordCount, AllGuesses(games[..i]))
    {
      assert games[..i + 1][..i] == games[..i];
      wc := CountGuesses(games[i].guesses, wc);
      TallyAppend(wordCount, AllGuesses(games[..i]), games[i].guesses);
    }
    assert games[..|games|] == games;
  }

  /** Counts each word of one stored round once more. */
  method CountGuesses(guesses: seq<string>, wordCount: map<string, int>) returns (wc: map<string, int>)
    ensures wc == Tally(wordCount, guesses)
  {
    wc := wordCount;
    for j := 0 to |guesses|
      invariant wc == Tally(wordCount, guesses[..j])
    {
      assert guesses[..j + 1][..j] == guesses[..j];
      wc := wc[guesses[j] := Lookup(wc, guesses[j]) + 1];
    }
    assert guesses[..|guesses|] == guesses;
  }

  /** After loading, each word's count is its count before plus its number of stored guesses. */
  lemma {:induction false} LoadedCounts(wordCount: map<string, int>, games: seq<Game>, w: string)
    ensures Lookup(Tally(wordCount, AllGuesses(games)), w) == Lookup(wordCount, w) + Count(AllGuesses(games), w)
  {
    TallyLookup(wordCount, AllGuesses(games), w);
  }

  /**
    Appends a finished round to the record. A file that cannot be opened
    stops the program; one that does not hold a record is replaced by an
    empty record. The round counter is set to the caller's value.
   */
  method Update(file: StoredFile, guesses: seq<string>, totalRounds: int, answer: string) returns (r: Effect<GameData>)
    ensures file.CannotOpen? ==> r.Panicked?
    ensures file.Stored? ==> r == Done(GameData(totalRounds, file.data.games + [Game(answer, guesses)]))
    ensures !file.CannotOpen? && !file.Stored? ==> r == Done(GameData(totalRounds, [Game(answer, guesses)]))
  {
    var data: GameData;
    match file {
      case CannotOpen =>
        return Panicked;
      case Stored(d) =>
        data := d;
      case _ =>
        data := GameData(0, []);
    }
    var game := Game(answer, guesses);
    assert [] + [game] == [game];
    data := data.(games := data.games + [game]);
    data := data.(totalRounds := totalRounds);
    return Done(data);
  }

  /** Appending a round appends exactly its entry to what a later load derives. */
  lemma {:induction false} SummariesAppend(games: seq<Game>, g: Game)
    requires Playable(games) && g.guesses != []
    ensures Playable(games + [g])
    ensures Summaries(games + [g]) == Summaries(games) + [Summary(g)]
  {
    assert (games + [g])[..|games|] == games;
  }

  /**
    A finished round, stored with its answer, reloads as the same outcome
    and attempt count: it is a playable record whose entry is the round's
    own (outcome, count) pair.
   */
  lemma StoredRoundReloads(setup: Setup, wordCount: map<string, int>, inputs: seq<string>, games: seq<Game>)
    requires setup.Valid() && Playable(games)
    requires Play(setup, Start(setup, wordCount), inputs).end.Finished?
    ensures var end := Play(setup, Start(setup, wordCount), inputs).end;
            var g := Game(setup.answer, end.guesses);
            Playable(games + [g]) && Summaries(games + [g]) == Summaries(games) + [(end.outcome, end.count)]
  {
    var r := Play(setup, Start(setup, wordCount), inputs);
    RoundOutcomeFacts(setup, wordCount, inputs);
    SummariesAppend(games, Game(setup.answer, r.end.guesses));
  }

  /** The facts about a finished round the reload needs. */
  lemma RoundOutcomeFacts(setup: Setup, wordCount: map<string, int>, inputs: seq<string>)
    requires setup.Valid()
    requires Play(setup, Start(setup, wordCount), inputs).end.Finished?
    ensures var end := Play(setup, Start(setup, wordCount), inputs).end;
            end.guesses != [] && end.count == |end.guesses| &&
            (end.outcome == Correct <==> end.guesses[|end.guesses| - 1] == setup.answer)
  {
    RoundFacts.RoundOutcome(setup, wordCount, inputs);
  }
}
