# Unchunked — a verified model of the puzzle engine

Unchunked is a mobile word puzzle. The player rebuilds nine-letter words from
shuffled three-letter chunks and races a countdown, a guess budget and a hint
budget. All of the game logic lives in the `App` component of `App.game.js`.
This project models that engine in Dafny:

- The setup screen: the player's name and a word count clamped to 2..10.
- `startGame`: the dictionary is shuffled in place and its first `wordCount`
  words are taken. Each word is cut into chunks at offsets 0, 3 and 6 by the
  push loops, the chunks are shuffled, and the guess, hint and time budgets
  are set.
- The timer tick, `selectChunk`, `submitGuess`, `useHint` and `endGame`, with the
  high-score merge (sort by level, then by date, keep ten).
- `formatTime`, and the dictionary line filter applied to the downloaded text.

Modules, one file each:

- `Decimal` (decimal.dfy): decimal rendering of naturals, as template literals
  print them, and its inverse.
- `Chunks` (chunks.dfy): the chunk record, the push loops that build the
  chunks, and shuffles as index permutations.
- `Board` (board.dfy): the pure updates the handlers apply to the chunk list
  and the selection, the guess check, the hint search, and the board invariant
  they keep.
- `HighScores` (highscores.dfy): the sort by the comparator and the
  top-ten merge.
- `Clock` (clock.dfy): `formatTime` and a reader for the face it prints.
- `WordList` (wordlist.dfy): `split('\n')`, `trim()`, ASCII `toUpperCase()` and
  the line filter, in two forms: as written and corrected.
- `Game` (game.dfy): the `Session` class.
  - Its fields are the React state variables.
  - Each handler is one method, and each method is one atomic transition.
  - A `phase` field stands for the screen: Setup, Active, Victory or Defeat.

Modelling decisions:

- Randomness. Each of the two `sort(() => Math.random() - 0.5)` shuffles is an
  arbitrary permutation passed in by the caller. Every property therefore
  holds for every order.
- `indexOf` (line 165) is modelled literally. A repeated word's chunks carry
  the position of its first copy (`Chunks.RepeatedWordSharesIndex`).
- The session invariant (`Game.SessionInvariant`, `Session.Valid`) has these
  parts:
  - at most three chunks are selected;
  - the selection and the `isSelected` flags name the same chunks;
  - ids are unique, and no chunk is both selected and completed;
  - completed chunks number three times the score;
  - no budget is negative;
  - a game in progress has guesses, time and words left.
- The invariant holds after `startGame` only when the dictionary's words are
  distinct. Ids are `word-offset`, so a duplicated word gives duplicated ids.
- Victory and Defeat are terminal. In the app the interval is cleared and a
  modal dialog covers the board. In the model, every game-screen method is a
  no-op unless the phase is Active, and `CloseResult` stands for the dialog's
  buttons.
- A short dictionary makes victory impossible. `slice(0, wordCount)` then
  deals fewer than `wordCount` words, and the score cannot reach `wordCount`.
  `Session.SubmitGuess` proves this: a victory implies
  `|currentWords| == wordCount`.
- The dictionary is built as the code builds it (`WordList.ParseWordList`,
  used by `Session`'s constructor): the raw line length is tested before the
  line is trimmed. The game's own instructions (line 350) promise 9-letter
  words cut into 3-letter chunks, which the filter does not guarantee for a
  text with CRLF line endings. This is recorded under Findings, where
  `WordList.ParseWordListTrimmed` is the corrected filter.

## Model

| member | source | states |
|---|---|---|
| Decimal.NatToString | App.game.js:319 | the numeral of `n` is non-empty and all digits; it starts with '0' exactly when `n` is 0, and it has one digit exactly when `n < 10` |
| Decimal.ParseNatToString | App.game.js:319 | reading a rendered numeral gives the number back |
| Decimal.NatToStringInjective | App.game.js:319 | distinct numbers are rendered differently |
| Clock.JsRem | App.game.js:318 | JavaScript `%` with divisor 60: for a non-negative dividend it is Dafny's remainder in `[0, b)`; for a negative one it lies in `(-b, 0]`; in both cases the dividend minus the remainder is a multiple of `b`, which fixes the value |
| Clock.FormatTime | App.game.js:316-320 | `formatTime`: minutes, a colon and the seconds padded to two digits; its meaning is stated by `FormatTimeShape`, `FormatTimeReadsBack` and `FormatTimeInjective` |
| Clock.PadStart | App.game.js:319 | `padStart(n, pad)` has length `max(n, |s|)`, ends with `s`, and is `pad` before it |
| Clock.TwoDigits | App.game.js:319 | seconds below 60 are always shown as exactly two digits, tens then units |
| Clock.FormatTimeShape | App.game.js:316-320 | for `s >= 0` the face is the minutes `s / 60` in shortest decimal, a colon, then the two digits of `s % 60` |
| Clock.FormatTimeReadsBack | App.game.js:316-320 | reading the face `m:ss` of `s >= 0` gives `m * 60 + ss == s` |
| Clock.FormatTimeInjective | App.game.js:316-320 | two different non-negative times never show the same face |
| Chunks.Substring | App.game.js:164 | `substring(i, i + 3)` is at most three characters; it is the slice when in range, the rest of the string when only the end is past it, and empty past the end |
| Chunks.ChunkId | App.game.js:167 | the id template `${word}-${i}`; `ChunkIdsDistinct` states that distinct words give distinct ids |
| Chunks.ChunkAt | App.game.js:163-170 | the record pushed for word `w` at offset `3 * k`; `ChunkTags` and `ChunksSpellWord` state its fields |
| Chunks.AllChunks | App.game.js:160-172 | the unshuffled chunk list of all chosen words; `AllChunksAt` states its length and every position |
| Chunks.IndexOf | App.game.js:165 | `indexOf` is -1 exactly when the word is absent; otherwise it is the first position holding it |
| Chunks.BuildChunks | App.game.js:160-172 | the `forEach` loop builds exactly the list `AllChunks(words)` |
| Chunks.PushWordChunks | App.game.js:162-171 | the inner `for` over offsets 0, 3, 6 appends exactly that word's three chunks, in order |
| Chunks.AllChunksAt | App.game.js:160-172 | there are `3 * |words|` chunks, and position `j` holds the chunk of word `j / 3` at offset `3 * (j % 3)` |
| Chunks.ChunksSpellWord | App.game.js:162-164 | a word's three chunk texts, read in order, spell the word cut to nine characters |
| Chunks.ChunkTags | App.game.js:163-169 | with distinct words, chunk `j` has `wordIndex j / 3`, `chunkIndex j % 3`, and neither flag set |
| Chunks.RepeatedWordSharesIndex | App.game.js:165 | for any word list, chunk `j`'s `wordIndex` is the first position holding its word: at most `j / 3`, holding the same word, with no earlier copy, and below `j / 3` whenever an earlier copy exists |
| Chunks.ChunkIdsDistinct | App.game.js:167 | with distinct words, no two chunks share an id |
| Chunks.PermuteKeepsElements | App.game.js:175 | a shuffle keeps the length and exactly the same elements with the same multiplicities |
| Chunks.PermuteDistinct | App.game.js:156 | shuffling a dictionary of distinct words keeps its words distinct |
| Board.SetSelected | App.game.js:210-212 | the toggle map `c.id === id ? { ...c, isSelected } : c`; `SetSelectedTouchesOne` and `FlaggedAfterSet` state its effect |
| Board.MarkCompleted | App.game.js:234-238 | the completion map over the selected ids; `CorrectGuessKeepsConsistent` and `CountAfterMark` state its effect |
| Board.ClearSelected | App.game.js:258 | clears every `isSelected` flag; `CorrectGuessKeepsConsistent` and `WrongGuessKeepsConsistent` state its effect |
| Board.SetSelectedTouchesOne | App.game.js:210-212 | with unique ids, the toggle map changes only the `isSelected` flag of the one chunk with that id |
| Board.RemoveId | App.game.js:209 | `filter(c => c.id !== id)` keeps exactly the entries with another id |
| Board.FlaggedAfterSet | App.game.js:210-218 | setting or clearing one chunk's flag adds or removes exactly its id from the flagged ids |
| Board.RemoveIdDistinct | App.game.js:209 | removing an id from a selection with unique ids keeps them unique and removes exactly that id |
| Board.ReadsInOrder | App.game.js:227-230 | the `every` test: every chunk has the first chunk's word and its own position as chunk index |
| Board.IsValidGuess | App.game.js:226-230 | the guess check, sort then `every`; `GuessValidIff` states what it accepts |
| Board.SortByChunkIndex | App.game.js:226 | the sort is a permutation of the selection and is ordered by chunk index |
| Board.InsertKeepsSorted | App.game.js:226 | inserting into a list ordered by chunk index keeps it ordered |
| Board.GuessValidIff | App.game.js:226-230 | a guess is correct if and only if all three chunks share one `wordIndex` and their chunk indices are 0, 1, 2 in some order |
| Board.GuessOrderIrrelevant | App.game.js:226-230 | the verdict does not depend on the order in which the chunks were selected |
| Board.FirstIncompleteWord | App.game.js:265-267 | `findIndex` gives -1 exactly when every word has a completed chunk; otherwise it gives the first word with none |
| Board.CountFromWord | App.game.js:272 | the count is the number of occurrences of `w` among the selected chunks' word indices; so it is at most the selection's length, and equals it exactly when all of them are from that word |
| Board.FindHintChunk | App.game.js:273-277 | `find` gives -1 exactly when no chunk matches; otherwise it gives the first non-completed chunk of that word and chunk index |
| Board.DeselectKeepsConsistent | App.game.js:207-212 | deselecting keeps the board consistent and does not change the completed count |
| Board.SelectKeepsConsistent | App.game.js:213-219 | selecting a free chunk while fewer than three are selected keeps the board consistent; the selection stays at most three and equals the flagged chunks |
| Board.CorrectGuessKeepsConsistent | App.game.js:232-238 | a correct guess leaves nothing selected and adds exactly the selected chunks to the completed count |
| Board.WrongGuessKeepsConsistent | App.game.js:255-257 | clearing the selection leaves nothing selected and keeps the completed count |
| Board.FreshBoardConsistent | App.game.js:160-176 | the shuffled chunks of distinct words have `3 * |words|` entries, form a consistent board, and have nothing completed |
| Board.FullCountAllCompleted | App.game.js:242 | when the completed chunks number the whole board, every chunk is completed |
| HighScores.Better | App.game.js:299 | the comparator is negative, so that `a` goes first, exactly when `a` has a higher level, or the same level and a later date |
| HighScores.Merge | App.game.js:298-300 | the new table: old entries plus the new one, sorted, first ten kept; `MergeShape`, `MergeKeepsAllWhileRoom`, `MergeKeepsTheBest` and `MergeRecordGoesFirst` state its meaning |
| HighScores.Insert | App.game.js:298-299 | inserting adds exactly the one entry and places it first or after the old head |
| HighScores.InsertKeepsRanked | App.game.js:299 | inserting into a ranked table keeps it ranked |
| HighScores.Sort | App.game.js:298-299 | the sort is a permutation of its input, ranked by level, then by date, both descending |
| HighScores.RankedEverywhere | App.game.js:299 | in a ranked table no entry is strictly better than an earlier one, at any distance |
| HighScores.SortRankedIsIdentity | App.game.js:299 | sorting a table that is already ranked leaves it unchanged |
| HighScores.MergeShape | App.game.js:298-300 | the new table is ranked, has `min(|old| + 1, 10)` entries, and holds only old entries or the new one |
| HighScores.MergeKeepsAllWhileRoom | App.game.js:298-300 | with fewer than ten old entries nothing is dropped; the new entry is always in the table |
| HighScores.MergeKeepsTheBest | App.game.js:298-300 | no dropped entry is strictly better than a kept one |
| HighScores.MergeRecordGoesFirst | App.game.js:298-300 | an entry strictly better than every old one heads the table |
| HighScores.MergeExample | App.game.js:299 | on equal levels the later date goes first |
| HighScores.MergeTieKeepsOrder | App.game.js:299 | on a full tie the older entry stays ahead of the new one |
| WordList.Lines | App.game.js:114 | `split('\n')` gives at least one piece, and no piece contains a line feed |
| WordList.JoinLines | App.game.js:114 | joining the pieces with line feeds restores the text |
| WordList.LinesJoin | App.game.js:114 | splitting a join of pieces that contain no line feed gives the pieces back |
| WordList.LeadingSpace | App.game.js:114 | the leading run that `trim` removes is all whitespace and is followed by a non-whitespace character |
| WordList.TrailingSpace | App.game.js:114 | the trailing run that `trim` removes is all whitespace and is preceded by a non-whitespace character |
| WordList.Trim | App.game.js:114 | `trim()`; `TrimIsCore`, `TrimIdempotent` and `TrimEmptyIff` state its meaning |
| WordList.TrimIsCore | App.game.js:114 | `trim` keeps a slice of the text with only whitespace cut on either side, and the result neither starts nor ends with whitespace |
| WordList.TrimIdempotent | App.game.js:114 | trimming twice is the same as trimming once |
| WordList.TrimEmptyIff | App.game.js:151 | a name is blank after `trim` exactly when it is all whitespace |
| WordList.ToUpper | App.game.js:114 | upper-casing keeps the length, maps each character, and leaves no lower-case ASCII letter |
| WordList.ToUpperFixes | App.game.js:114 | upper-casing an upper-case string changes nothing, and upper-casing is idempotent |
| WordList.KeepNine | App.game.js:114 | the filter keeps exactly the lines of length 9, each as many times as it occurs |
| WordList.CleanAll | App.game.js:114 | the map trims and upper-cases each line, keeping positions |
| WordList.CleanShape | App.game.js:114 | a cleaned line has no lower-case letter and does not start or end with whitespace |
| WordList.ParseWordList | App.game.js:114 | the dictionary as the code builds it: lines of raw length 9, then trimmed and upper-cased; `ParseWordListWords` and `CrlfAsWritten` state its meaning |
| WordList.ParseWordListTrimmed | App.game.js:114 | the corrected dictionary, with the length tested after trimming; `ParseWordListTrimmedIff`, `ParseWordListTrimmedWords` and `CrlfCorrected` state its meaning |
| WordList.ParseWordListWords | App.game.js:114 | as written, each dictionary word is a cleaned raw line of length 9, so it can be shorter than nine characters |
| WordList.ParseWordListTrimmedIff | App.game.js:114 | corrected, a word is in the dictionary if and only if it has nine characters and is a cleaned line of the text |
| WordList.ParseWordListTrimmedWords | App.game.js:114 | corrected, every word has nine characters, no lower-case letter, and no whitespace at either end |
| WordList.CleanCr | App.game.js:114 | a line of capital letters followed by a carriage return cleans to the letters |
| WordList.CrlfAsWritten | App.game.js:114 | as written, a text with CRLF line endings loses its nine-letter word and keeps an eight-letter one |
| WordList.CrlfCorrected | App.game.js:114 | corrected, the same text yields exactly its nine-letter word |
| Game.SliceEnd | App.game.js:156 | `slice(0, end)` never keeps more words than there are, and for `end >= 0` keeps `min(end, |dictionary|)` |
| Game.InitialBudgets | App.game.js:179-181 | time starts at 20 + 10 per word beyond two, i.e. between 20 and 100 seconds; hints are 4 exactly from four words up, else 0 |
| Game.HintTarget | App.game.js:261-283 | the hinted chunk belongs to the first word with no completed chunk, has the chunk index equal to the number of selected chunks from that word, and is not completed; -1 exactly when there is no such word or chunk |
| Game.CorrectGuessStep | App.game.js:232-244 | a correct guess keeps the session invariant; it wins exactly when the new score equals `wordCount`, and a win means every chunk is completed and `wordCount` words were dealt |
| Game.WrongGuessStep | App.game.js:245-258 | a wrong guess keeps the session invariant and loses exactly when the guesses reach 0 |
| Game.FreshGameStep | App.game.js:156-183 | a new game from distinct words starts in the session invariant |
| Game.DealBoard | App.game.js:156-176 | the shuffled dictionary, its first `wordCount` words, and their shuffled chunks; from distinct words this board with fresh budgets meets the invariant |
| Game.Session.constructor | App.game.js:109-128 | the state after loading: the dictionary filtered from the text as the code filters it, the saved name and scores, word count 5, on the setup screen |
| Game.Session.SetPlayerName | App.game.js:374-377 | the name field is set and the invariant is kept |
| Game.Session.DecreaseWordCount | App.game.js:383 | `Math.max(2, wordCount - 1)` on the setup screen, nothing during a game; the count stays within 2..10 and the invariant is kept |
| Game.Session.IncreaseWordCount | App.game.js:394 | `Math.min(10, wordCount + 1)` on the setup screen, nothing during a game; the count stays within 2..10 and the invariant is kept |
| Game.Session.StartGame | App.game.js:150-187 | a blank name changes nothing; otherwise the session is dealt as `Dealt` describes and, from distinct words, it is valid |
| Game.Session.Deal | App.game.js:156-185 | stores what `DealBoard` computes; the new fields: the shuffled dictionary, its first `wordCount` words, their shuffled chunks, nothing selected, guesses = word count, the initial hints and time, score 0, playing |
| Game.Session.Tick | App.game.js:193-200 | with more than one second left the time drops by one; otherwise it becomes 0 and the game is lost; after the end nothing changes |
| Game.Session.SelectChunk | App.game.js:204-220 | completed chunks are ignored; a selected chunk is removed and unflagged; an unselected one is appended and flagged only while fewer than three are selected; the invariant is kept |
| Game.Session.SubmitGuess | App.game.js:222-259 | nothing happens unless three chunks are selected; a correct guess completes them, raises the score, and wins exactly at `wordCount` with the high score recorded; a wrong guess spends exactly one guess and loses at 0; the selection ends empty |
| Game.Session.EndGame | App.game.js:285-304 | the phase becomes Victory or Defeat; only a victory merges the entry into the high-score table |
| Game.Session.UseHint | App.game.js:261-283 | with no hint left or two or more chunks selected, nothing happens; otherwise the chunk `HintTarget` names is toggled and exactly one hint is spent; when there is no target nothing changes |
| Game.Session.GiveUp | App.game.js:505 | during a game it ends in defeat and leaves the high scores as they are |
| Game.Session.CloseResult | App.game.js:306-313 | the result dialog's buttons leave the game screen |

## Left out

- The fetch of the word list over HTTP (lines 112-113) is network I/O. The text is a parameter of the constructor.
- AsyncStorage and JSON (lines 118-128, 303, 323-324, 376) are storage I/O. The saved name and scores are constructor parameters, and writes are not modelled.
- The dark-mode and sound settings (lines 124-128, 322-325) have no bearing on the engine.
- Audio playback through expo-av (lines 62-107) is a foreign library.
- The splash and fade animations (lines 131-144) and all rendering and styles are presentation.
- The Alert dialog (lines 306-313) is UI. Only its effect of leaving the game screen is kept, as `CloseResult`. The two buttons' targets, the setup and instruction screens, are not told apart.
- The `setInterval` and `clearInterval` scheduling (lines 189-202, 286) is asynchronous timing. Only the tick transition is modelled. The cleared interval is modelled by terminal phases.
- The distribution of `Math.random` shuffles is not modelled. Each shuffle is an arbitrary permutation, so nothing claims the orders are uniform.
- React state batching and stale closures (for example `score + 1` at line 242 and `prev` at line 246) are not modelled. Each handler is one atomic transition on one state.
- Dates are not modelled as strings. `new Date().toISOString()` is the integer instant `now`, and the comparator compares instants.
- `toUpperCase` is modelled for the ASCII letters only. Other cases need Unicode case mapping, which is out of scope.
- String lengths count Unicode scalar values, not UTF-16 code units. They differ only outside the Basic Multilingual Plane.
- `Math.floor(seconds / 60)` is integer division. This is exact for the whole-second, non-negative times the timer produces.
- Game.Session.UseHint: a no-op outside the Active phase; the source handler has no such guard, and the modal dialog keeps it from being called.
- Game.Session.SelectChunk: a no-op outside the Active phase, for the same reason.
- Game.Session.Tick: a no-op outside the Active phase, standing for the cleared interval.
- Game.Session.SelectChunk: the invariant is promised only for a chunk taken from the board (`chunk in chunks`), since the app only passes chunks it rendered.
- HighScores.Sort: that entries which tie keep their input order is shown on examples (`MergeTieKeepsOrder`) and for ranked input (`SortRankedIsIdentity`), not stated for every input.
- Game.Session.DecreaseWordCount and Game.Session.IncreaseWordCount: a no-op during a game, since their buttons are rendered only on the setup screen (lines 363-417).
- Game.Session.StartGame: the session invariant is promised only when the dictionary's words are distinct and the word count is in 2..10.

## Findings

| source | as written | input that shows it | evidently intended | confidence | as-written member | corrected member |
|---|---|---|---|---|---|---|
| App.game.js:114 | `filter(word => word.length === 9)` runs before `trim()`, so the length is that of the raw line | a text with CRLF endings such as `"ABCDEFGHI\r\nABCDEFGH\r\n"`: the nine-letter line is 10 long and dropped, while `"ABCDEFGH\r"` is 9 long, kept and trimmed to the eight-letter `"ABCDEFGH"` | keep the lines whose trimmed form has nine characters | not executed | WordList.CrlfAsWritten | WordList.CrlfCorrected |
