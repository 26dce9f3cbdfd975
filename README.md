# Wordle game core, modelled in Dafny

This project models the rule-bearing core of a terminal Wordle game and proves
properties of it:

- the scorer that colours a five-letter guess against the answer: G for the
  right letter in the right place, Y for a letter that occurs elsewhere, R for
  neither; repeated letters are handled by counting;
- the 26-letter alphabet state, and the priority merge G > Y > R > X that folds
  each guess into it;
- input validation, hard mode (known greens must stay, yellow letters must be
  reused) and hint mode (the candidate words that would have produced the same
  colours);
- one round of up to six guesses;
- the word-list check applied to a list read from a file;
- loading and appending the saved record of past rounds;
- filling the command-line arguments from a configuration file.

Module by module:

| Module (file) | Source | What it holds |
|---|---|---|
| `Words` (words.dfy) | helpers | ASCII upper-casing, trimming, occurrence counts, the order-preserving subsequence relation, word-use tallies |
| `LetterStatus` (status.dfy) | src/game.rs | `Status`, its rank, and `Merge` |
| `Comparator` (compare.dfy) | src/game.rs | `Compare`, written as four in-place passes over arrays and a letter-count map. It is proved equal to the declarative `Feedback` and `LetterFeedback`, and the counting properties are proved about those. |
| `Validity` (checks.dfy) | src/game.rs | `check_correct`, `valid_input`, the hard-mode checks and the hint filter |
| `RoundController` (round.dfy) | src/game.rs | `Round`, proved equal to the round function `Play` over a sequence of typed lines |
| `RoundFacts` (round_facts.dfy) | src/game.rs | what a whole round guarantees |
| `ReadFileMode` (wordlist.dfy) | src/readfilemode.rs | `CheckValidList` |
| `Progress` (progress.dfy) | src/progress.rs | `Load` and `Update` of the saved record |
| `Config` (config.dfy) | src/config.rs, src/main.rs | `StringToOption`, the `Arguments` record and the precedence merge `Load` |

The scorer follows the code on repeated letters: for answer ABCDE and guess
AABBE it gives [G, R, Y, R, G], because the B at index 2 takes the answer's one
unmatched B (`Comparator.ExampleRepeatedLetters`).

Where the model departs from the source:

- A round reads typed lines from a given sequence rather than from the
  terminal. When the lines run out before the round is decided, the model
  ends with `OutOfInput`; the program would keep prompting.
- What reading a file produced is given as a value: `StoredFile` for the
  record, `ConfigFile` for the configuration.
- A `panic!` in the source is the `Panicked` result in the model.

## Model

| member | source | states |
|---|---|---|
| LetterStatus.Merge | src/game.rs:158-168 | the loop over a copy of the first state yields the pointwise maximum `Merged` under G > Y > R > X |
| LetterStatus.MergedBounds | src/game.rs:158-168 | at each letter the merge is at least either input and equals one of them |
| LetterStatus.MergedLeast | src/game.rs:158-168 | anything ranked at or above both inputs is at or above the merge |
| LetterStatus.MergedUnknown | src/game.rs:158-168 | a letter is X after the merge exactly when it is X on both sides |
| LetterStatus.MergedCommutative | src/game.rs:158-168 | the merge does not depend on the order of its inputs |
| LetterStatus.MergedIdempotent | src/game.rs:158-168 | merging a state with itself changes nothing |
| LetterStatus.MergedAssociative | src/game.rs:158-168 | folding guesses into the alphabet does not depend on grouping |
| LetterStatus.MergedAbsorbs | src/game.rs:158-168 | knowledge nowhere above the current state leaves the state unchanged |
| Comparator.Feedback | src/game.rs:98-154 | five marks, none of them X, and a position is G exactly when the guess and the answer agree there |
| Comparator.LetterFeedback | src/game.rs:101-150 | 26 letter marks: X when the letter is absent from the guess, G when some copy is an exact match, else Y when some copy is yellow, else R |
| Comparator.MarkGuessed | src/game.rs:103-108 | first pass: every position R, every guessed letter R, other letters X |
| Comparator.MarkExact | src/game.rs:109-117 | second pass: exact matches become G in both arrays; everything else is unchanged |
| Comparator.CountUnmatched | src/game.rs:123-131 | the count map has an entry for each answer letter, holding that letter's answer positions not matched exactly |
| Comparator.MarkMisplaced | src/game.rs:133-151 | the yellow pass leaves both arrays equal to `Feedback` and `LetterFeedback` |
| Comparator.Compare | src/game.rs:98-154 | the four passes compute exactly `Feedback` and `LetterFeedback` |
| Comparator.YellowsAreFirstMisplaced | src/game.rs:133-150 | for a letter, the Y marks are the smaller of its non-green guess copies and its unmatched answer copies |
| Comparator.CreditedIsMinimum | src/game.rs:123-150 | the G and Y marks for a letter are exactly min(copies in the guess, copies in the answer), and so never exceed the copies in the answer |
| Comparator.YellowsLeftmost | src/game.rs:133-150 | among non-green copies of a letter, Y goes to the leftmost ones: a later Y implies an earlier Y, an earlier R implies a later R |
| Comparator.LetterFeedbackMeaning | src/game.rs:101-150 | a letter is X iff absent from the guess, G iff some copy is green, Y iff no copy is green and some copy is yellow, R iff all copies are R |
| Comparator.AllGreenIffAnswer | src/game.rs:98-117 | the feedback is all green exactly when the guess is the answer |
| Comparator.ExampleRepeatedLetters | src/game.rs:98-154 | answer ABCDE, guess AABBE scores [G, R, Y, R, G] |
| Comparator.ExampleTwoCopies | src/game.rs:98-154 | answer SPEED, guess ERASE scores [Y, R, R, Y, Y] |
| Validity.CheckCorrect | src/game.rs:75-82 | the scan with an early exit returns true exactly when every mark is G (`AllGreen`) |
| Validity.CheckCorrectIffAnswer | src/game.rs:75-82 | a guess is accepted as correct exactly when it is the answer |
| Validity.Listed | src/game.rs:27-47 | the list scan finds the word exactly when it equals an upper-cased entry of the list |
| Validity.ValidInput | src/game.rs:19-49 | true exactly when the word is `Acceptable`: five upper-case letters, and an upper-cased final-list entry or, when not final-only, an upper-cased acceptable-list entry |
| Validity.ValidInputFinalOnly | src/game.rs:36-47 | in final-only mode the acceptable list is never consulted, and a final-only word is also valid otherwise |
| Validity.UpdateKnownGreens | src/game.rs:218-225 | the loop over a copy sets G where the feedback is G and keeps every other slot |
| Validity.KnownGreensGrow | src/game.rs:218-225 | a slot is G afterwards iff it was G or the feedback is G there, so a G is never cleared |
| Validity.CheckValidDifficult | src/game.rs:227-244 | the two scans return `KeepsKnown`, that is false exactly when a known-green slot differs from the answer or a letter marked Y is missing from the guess |
| Validity.CheckValidHint | src/game.rs:246-254 | true exactly when the guess, scored as if the candidate were the answer, gives the same feedback; a kept candidate then agrees with the guess exactly on the green positions |
| Validity.HintKeepsAnswer | src/game.rs:246-254 | the answer always reproduces its own feedback, so it is never filtered out |
| Validity.HintCandidateCounts | src/game.rs:246-254 | a kept candidate holds at least as many copies of a letter as were credited G or Y, and exactly that many when a copy was R |
| Validity.HintPool | src/game.rs:395-408 | a candidate is kept exactly when its upper-cased form reproduces the feedback |
| Validity.HintPoolShrinks | src/game.rs:395-408 | the filter keeps an order-preserving subsequence of the pool |
| RoundController.Start | src/game.rs:333-342 | the round starts with no guesses and an open board |
| RoundController.NormalizeWord | src/game.rs:56 | a word of five upper-case letters is read as itself |
| RoundController.NormalizeFormFeed | src/game.rs:56 | a typed line with a leading form feed is trimmed to the word it holds |
| RoundController.Score | src/game.rs:378-419 | scoring appends the guess and keeps the alphabet and known greens at their sizes and the hint candidates at five letters |
| RoundController.Play | src/game.rs:327-429 | the round never shrinks the guess list and makes at most six guesses; a finished round reports its guesses and count = number of guesses; a round left waiting has fewer than six |
| RoundController.Turn | src/game.rs:345-428 | the same bounds for a round given its next typed line |
| RoundController.PlayRejected | src/game.rs:355-372 | a line that fails validation or the hard-mode check is skipped: the round is the same without it |
| RoundController.PlayAccepted | src/game.rs:376-428 | an accepted line is a word and is scored: the answer wins with the guess count, a sixth miss loses, any other miss goes on from the scored board |
| RoundController.PlayStops | src/game.rs:376-428 | an accepted line that is the answer or the sixth guess ends the round, won or lost, with the scored board |
| RoundController.TurnOutcome | src/game.rs:345-428 | for the rest of a round whose next line is accepted: the answer wins, a sixth miss loses, any other miss leaves the same outcome to the scored board and the later lines |
| RoundController.NextAccepted | src/game.rs:348-374 | the position found is the next line that would be accepted, or the end of the input |
| RoundController.PlaySkipsRejected | src/game.rs:348-374 | rejected lines do not change the round: it continues from the next accepted line |
| RoundController.Accepts | src/game.rs:355-370 | a line is accepted exactly when it is a listed word and, in hard mode, passes the hard-mode check |
| RoundController.NextGuess | src/game.rs:348-374 | the read loop returns exactly the next accepted line, or reports the end of the input |
| RoundController.NarrowHints | src/game.rs:395-408 | the filter loop keeps exactly `HintPool` of the candidates |
| RoundController.ScoreGuess | src/game.rs:378-419 | the scoring steps compute exactly `Score` and the guess's feedback |
| RoundController.TakeTurn | src/game.rs:345-428 | one pass of the round's loop body: out of input when no line is accepted, won on an all-green guess, lost on a sixth miss, otherwise the rest of the round is played from the new board and the later lines |
| RoundController.Round | src/game.rs:327-429 | the round's outcome, word counts and hint candidates are exactly those of `Play` over the typed lines |
| RoundFacts.PlayEnds | src/game.rs:422-428 | whatever the lines, a won round ends on the answer and a lost round has six guesses |
| RoundFacts.PlayMisses | src/game.rs:422-428 | starting from guesses that all missed, every guess but the last misses, and the last misses too unless the round is won |
| RoundFacts.PlayOutcome | src/game.rs:422-428 | a round is won iff its last guess is the answer; no earlier guess is the answer; a lost round has six guesses |
| RoundFacts.RoundOutcome | src/game.rs:422-428 | from the start, won iff the last guess is the answer; lost means six guesses, none of them the answer |
| RoundFacts.PlayGuessesListed | src/game.rs:355-378 | every scored guess passed `valid_input`, and there are no more of them than typed lines |
| RoundFacts.ScoreCounts | src/game.rs:418-419 | scoring a word adds one use of it to the word counts |
| RoundFacts.PlayTallies | src/game.rs:416-419 | the word counts grow by exactly the guesses the round scored |
| RoundFacts.RoundCountsEachWord | src/game.rs:418-419 | each word's count rises by its number of occurrences among the round's guesses |
| RoundFacts.ScoreGrows | src/game.rs:384-414 | scoring one guess never lowers a letter's status and never clears a known green |
| RoundFacts.PlayMonotone | src/game.rs:384-414 | no letter's status is ever lowered and a known-green slot stays known |
| RoundFacts.ScoreNarrows | src/game.rs:395-408 | one hint filtering keeps an order-preserving subsequence that still holds the answer, and changes nothing outside hint mode |
| RoundFacts.PlayHints | src/game.rs:395-408 | the hint candidates form an order-preserving subsequence of the starting ones, the answer is never dropped, and outside hint mode nothing changes |
| RoundFacts.ScoreRecords | src/game.rs:381-414 | in hard mode the board keeps recording every exactly placed letter, every yellow letter and where each green letter sits |
| RoundFacts.AcceptedKeepsGreens | src/game.rs:229-235 | a word accepted in hard mode keeps every letter an earlier guess placed exactly |
| RoundFacts.AcceptedKeepsYellows | src/game.rs:236-242 | a word accepted in hard mode contains every letter an earlier guess marked Y |
| RoundFacts.HardStep | src/game.rs:362-414 | scoring a word accepted in hard mode keeps the hard-mode invariant: all guesses words, the board's record current, the promise kept |
| RoundFacts.PlayHard | src/game.rs:362-414 | in hard mode every added guess keeps the exact letters and reuses the yellow letters of all earlier guesses |
| RoundFacts.RoundHardMode | src/game.rs:327-429 | a hard-mode round keeps that promise from the first guess to the last |
| ReadFileMode.CheckValidList | src/readfilemode.rs:4-35 | true exactly when every upper-cased new entry is an upper-cased old entry and no two new entries upper-case to the same word |
| ReadFileMode.EmptyListAccepted | src/readfilemode.rs:13-35 | an empty new list is accepted |
| ReadFileMode.MissingEntryRejected | src/readfilemode.rs:13-20 | an entry missing from the old list rejects the list |
| ReadFileMode.CaseVariantsRepeat | src/readfilemode.rs:6-7 | entries that differ only in case count as a repeat |
| ReadFileMode.OldListAsSet | src/readfilemode.rs:7-20 | only which words the old list holds matters, not their order, case or repetition |
| ReadFileMode.NewListOrderFree | src/readfilemode.rs:9-10 | exchanging two entries of the new list does not change the verdict |
| Progress.Summary | src/progress.rs:79-87 | a stored round reads as CORRECT exactly when its last guess is its answer, with its number of guesses |
| Progress.Summaries | src/progress.rs:77-88 | one entry per stored round, in order |
| Progress.Load | src/progress.rs:41-100 | an unopenable or unreadable file and "{}" leave the session unchanged; an unparsable file or a round without guesses panics; otherwise the results gain one entry per round, the counts grow by every stored guess, and the round counter is replaced |
| Progress.CollectResults | src/progress.rs:77-88 | the results gain exactly the stored rounds' entries, after the earlier ones; a round without guesses panics |
| Progress.CountStoredGuesses | src/progress.rs:89-96 | the counts grow by every guess of every stored round |
| Progress.CountGuesses | src/progress.rs:91-95 | the counts grow by the guesses of one stored round |
| Progress.LoadedCounts | src/progress.rs:89-96 | each word's count rises by its number of occurrences among the stored guesses |
| Progress.Update | src/progress.rs:119-137 | an unopenable file panics; a stored record gains exactly one game after its existing ones; anything else is replaced by a record holding only the new game; the round counter becomes the caller's value |
| Progress.SummariesAppend | src/progress.rs:77-88 | appending a game appends exactly its entry to what a later load derives |
| Progress.StoredRoundReloads | src/progress.rs:77-88 | a finished round, stored with its answer, reloads with its own outcome and count |
| Progress.RoundOutcomeFacts | src/game.rs:422-428 | a finished round has guesses, its count is their number, and it is CORRECT iff its last guess is the answer |
| Config.StringToOption | src/config.rs:19-22 | an empty string becomes unset; every other value is kept |
| Config.Arguments.constructor | src/main.rs:14-25 | the record holds the given values |
| Config.Load | src/config.rs:25-115 | the arguments become `Applied` of their old values: unchanged unless the file parsed |
| Config.LoadWord | src/config.rs:56-62 | the word is filled from the file only when unset, with an empty string giving unset |
| Config.LoadFlags | src/config.rs:63-74 | each flag becomes the file's value OR the command line's |
| Config.LoadNumbers | src/config.rs:75-88 | day and seed are filled from the file only when unset |
| Config.LoadPaths | src/config.rs:89-109 | the list and state paths are filled from the file only when unset, with an empty string giving unset |
| Config.StringToOptionIdempotent | src/config.rs:19-22 | filtering empty strings twice is the same as once |
| Config.CommandLineWins | src/config.rs:56-109 | a value set on the command line is kept, and a flag switched on stays on |
| Config.FileFillsUnset | src/config.rs:56-109 | an unset field takes the file's value (empty text giving unset); a flag ends up on iff either side switched it on |
| Config.MissingLeavesUnchanged | src/config.rs:27-47 | a file that was not parsed changes nothing, and a setting missing from the file leaves its field unchanged |
| Config.NoEmptyFromFile | src/config.rs:89-109 | the file never introduces an empty text value |
| Config.LoadIdempotent | src/config.rs:25-115 | loading the same configuration twice is the same as once |

## Left out

- Terminal output is not modelled: the prompts, the coloured and plain
  renderings of the feedback, and the printed hint list. `Round` returns the
  last hint candidates as a value instead of printing them.
- `get_input`'s read from standard input is replaced by the sequence of typed
  lines. On end of input the program would prompt forever; the model stops
  with `OutOfInput`.
- `RoundController.Round`, `RoundController.Play` and the `RoundFacts` lemmas
  require every hint candidate to have five letters when hint mode is on. The
  program's candidates are the built-in five-letter words or a file checked
  against them. `Comparator.Compare` likewise requires an answer of five
  characters and a guess of five upper-case letters.
- Unicode case mapping is not modelled. Upper-casing and `is_uppercase` are
  written for the ASCII letters A-Z and a-z, and `String::len` counts
  characters rather than UTF-8 bytes. Trimming removes the Unicode
  White_Space characters, as `str::trim` does.
- Integer widths are not modelled: the `i32` round counter and word counts and
  the `u64` seed are unbounded. Counts never come near the limits.
- `check_valid_list` sorts both lists and binary-searches the old one. The
  model scans the lists in their given order instead; `ReadFileMode.NewListOrderFree`
  and `ReadFileMode.OldListAsSet` prove that the verdict does not depend on order.
  The printed "not found" and "repeated" messages are left out.
- serde parsing and writing are not modelled. Neither are `read`'s and
  `write`'s file access, nor the panic in `write` when the file cannot be
  created. `Progress.Update` returns the record it would write.
- `Progress.Load` panics on a stored round without guesses. The source
  subtracts one from a zero `usize` there.
- `print_stats`, `start`, `ask_continue`, `main` and the argument definitions
  are not part of this model. They are session plumbing, floating-point
  averages and command-line wiring. The commented-out older `check_valid_hint`
  is dead code.
- The initial `Arguments` come from the command line, which is not part of
  this model; `Config.Arguments.constructor` takes them as values.
