/** One playing session of the game (App.game.js, the state of `App` and the
    handlers startGame, the timer tick, selectChunk, submitGuess, useHint,
    endGame and the setup buttons). Each handler is one atomic transition of the
    session; the two random shuffles are orders supplied by the caller. */
module Game {
  import opened Chunks
  import opened Board
  import HighScores
  import WordList

  /** Where the session is: on the setup screens, playing, or showing the
      result dialog after `endGame`. */
  datatype Phase = Setup | Active | Victory | Defeat

  /** The number of words `slice(0, end)` keeps from a list of `len`; a negative
      end counts back from the end of the list. */
  function SliceEnd(end: int, len: nat): (n: nat)
    ensures n <= len
    ensures 0 <= end ==> n == if end < len then end else len
  {
    if end < 0 then (if len + end < 0 then 0 else len + end)
    else if end < len then end else len
  }

  function InitialHints(wordCount: int): int {
    if wordCount >= 4 then 4 else 0
  }

  function InitialTime(wordCount: int): int {
    20 + (wordCount - 2) * 10
  }

  /** The budgets a game starts with: at least twenty seconds, ten more for each
      word beyond two, and four hints only from four words up. */
  lemma InitialBudgets(wordCount: int)
    requires 2 <= wordCount <= 10
    ensures 20 <= InitialTime(wordCount) <= 100
    ensures InitialTime(wordCount) == 10 * wordCount
    ensures InitialHints(wordCount) == 4 <==> 4 <= wordCount
    ensures InitialHints(wordCount) == 0 <==> wordCount < 4
  {
  }

  /** The chunk `useHint` toggles, as a position in `chunks`, or -1: the first
      word none of whose chunks is completed, at the chunk index equal to how
      many of the selected chunks belong to that word, if that chunk is not
      completed. */
  function HintTarget(chunks: seq<Chunk>, selected: seq<Chunk>, words: nat): (r: int)
    ensures -1 <= r < |chunks|
    ensures 0 <= r ==>
      var w := FirstIncompleteWord(chunks, words);
      0 <= w && !HasCompletedChunk(chunks, w) &&
      (forall v :: 0 <= v < w ==> HasCompletedChunk(chunks, v)) &&
      chunks[r].wordIndex == w &&
      chunks[r].chunkIndex == CountFromWord(selected, w) &&
      !chunks[r].isCompleted &&
      forall i :: 0 <= i < r ==> !IsHintFor(chunks[i], w, CountFromWord(selected, w))
    ensures r == -1 <==>
      (forall v :: 0 <= v < words ==> HasCompletedChunk(chunks, v)) ||
      var w := FirstIncompleteWord(chunks, words);
      forall i :: 0 <= i < |chunks| ==> !IsHintFor(chunks[i], w, CountFromWord(selected, w))
  {
    var w := FirstIncompleteWord(chunks, words);
    if w == -1 then -1 else FindHintChunk(chunks, w, CountFromWord(selected, w))
  }

  /** What holds between handlers, on the values of the session: the word
      count stays within the setup screen's range, the board and the selection
      agree, every completed word accounts for three completed chunks, the
      budgets are never negative, and a game in progress has something left to
      play for. */
  ghost predicate SessionInvariant(wordCount: int, currentWords: seq<string>,
    chunks: seq<Chunk>, selected: seq<Chunk>, score: int,
    guesses: int, hints: int, time: int, phase: Phase)
  {
    2 <= wordCount <= 10 &&
    Consistent(chunks, selected) &&
    |chunks| == 3 * |currentWords| &&
    0 <= score && CountCompleted(chunks) == 3 * score &&
    0 <= guesses && 0 <= hints <= 4 && 0 <= time &&
    (phase == Active ==>
      |currentWords| <= wordCount && score < wordCount && 0 < guesses && 0 < time)
  }

  /** A correct guess keeps the invariant; it wins exactly when the new score
      reaches the word count, and a win leaves every chunk completed and needs
      as many chosen words as the word count. */
  lemma CorrectGuessStep(wordCount: int, currentWords: seq<string>, chunks: seq<Chunk>,
    selected: seq<Chunk>, score: int, guesses: int, hints: int, time: int)
    requires SessionInvariant(wordCount, currentWords, chunks, selected, score,
                              guesses, hints, time, Active)
    requires |selected| == 3
    ensures var after := ClearSelected(MarkCompleted(chunks, Ids(selected)));
      var phase := if score + 1 == wordCount then Victory else Active;
      SessionInvariant(wordCount, currentWords, after, [], score + 1,
                       guesses, hints, time, phase) &&
      (phase == Victory ==>
        |currentWords| == wordCount && forall i :: 0 <= i < |after| ==> after[i].isCompleted)
  {
    var after := ClearSelected(MarkCompleted(chunks, Ids(selected)));
    CorrectGuessKeepsConsistent(chunks, selected);
    assert |after| == |chunks|;
    if score + 1 == wordCount {
      FullCountAllCompleted(after);
    }
  }

  /** A wrong guess keeps the invariant and loses when no guess is left. */
  lemma WrongGuessStep(wordCount: int, currentWords: seq<string>, chunks: seq<Chunk>,
    selected: seq<Chunk>, score: int, guesses: int, hints: int, time: int)
    requires SessionInvariant(wordCount, currentWords, chunks, selected, score,
                              guesses, hints, time, Active)
    ensures SessionInvariant(wordCount, currentWords, ClearSelected(chunks), [], score,
                             guesses - 1, hints, time, if guesses - 1 == 0 then Defeat else Active)
  {
    WrongGuessKeepsConsistent(chunks, selected);
  }

  /** A new game from distinct words starts in the invariant: a consistent
      board with nothing selected or completed and positive budgets. */
  lemma FreshGameStep(wordCount: int, currentWords: seq<string>, chunkOrder: seq<nat>)
    requires 2 <= wordCount <= 10 && |currentWords| <= wordCount
    requires Distinct(currentWords)
    requires IsPermutation(chunkOrder, 3 * |currentWords|)
    ensures SessionInvariant(wordCount, currentWords, Permute(AllChunks(currentWords), chunkOrder),
      [], 0, wordCount, InitialHints(wordCount), InitialTime(wordCount), Active)
  {
    FreshBoardConsistent(currentWords, chunkOrder);
  }

  /** The words and the board of a new game: the dictionary shuffled by
      `dictionaryOrder`, its first `wordCount` words, and their chunks, built by
      the push loops and shuffled by `chunkOrder`. */
  method DealBoard(dictionary: seq<string>, wordCount: int,
                   dictionaryOrder: seq<nat>, chunkOrder: seq<nat>)
    returns (shuffled: seq<string>, words: seq<string>, board: seq<Chunk>)
    requires IsPermutation(dictionaryOrder, |dictionary|)
    requires IsPermutation(chunkOrder, 3 * SliceEnd(wordCount, |dictionary|))
    ensures shuffled == Permute(dictionary, dictionaryOrder)
    ensures words == shuffled[..SliceEnd(wordCount, |shuffled|)]
    ensures forall i :: 0 <= i < |chunkOrder| ==> chunkOrder[i] < 3 * |words|
    ensures board == Permute(AllChunks(words), chunkOrder)
    ensures 2 <= wordCount <= 10 && Distinct(dictionary) ==>
      SessionInvariant(wordCount, words, board, [], 0, wordCount,
                       InitialHints(wordCount), InitialTime(wordCount), Active)
  {
    PermuteKeepsElements(dictionary, dictionaryOrder);
    shuffled := Permute(dictionary, dictionaryOrder);
    words := shuffled[..SliceEnd(wordCount, |shuffled|)];
    var allChunks := BuildChunks(words);
    board := Permute(allChunks, chunkOrder);
    if 2 <= wordCount <= 10 && Distinct(dictionary) {
      PermuteDistinct(dictionary, dictionaryOrder);
      assert Distinct(words);
      FreshGameStep(wordCount, words, chunkOrder);
    }
  }

  class Session {
    var playerName: string
    var wordCount: int
    var dictionary: seq<string>
    var currentWords: seq<string>
    var chunks: seq<Chunk>
    var selectedChunks: seq<Chunk>
    var remainingGuesses: int
    var remainingHints: int
    var timeRemaining: int
    var score: int
    var highScores: seq<HighScores.HighScore>
    var phase: Phase

    ghost predicate Valid()
      reads this
    {
      SessionInvariant(wordCount, currentWords, chunks, selectedChunks, score,
                       remainingGuesses, remainingHints, timeRemaining, phase)
    }

    /** The state after `loadInitialData`: the word list filtered from the
        downloaded text, and the saved name and scores ("" and [] when none were
        saved). */
    constructor (text: string, savedName: string, savedScores: seq<HighScores.HighScore>)
      ensures playerName == savedName && wordCount == 5
      ensures dictionary == WordList.ParseWordList(text)
      ensures currentWords == [] && chunks == [] && selectedChunks == []
      ensures remainingGuesses == 0 && remainingHints == 0 && timeRemaining == 0 && score == 0
      ensures highScores == savedScores && phase == Setup
      ensures Valid()
    {
      playerName := savedName;
      wordCount := 5;
      dictionary := WordList.ParseWordList(text);
      currentWords := [];
      chunks := [];
      selectedChunks := [];
      remainingGuesses := 0;
      remainingHints := 0;
      timeRemaining := 0;
      score := 0;
      highScores := savedScores;
      phase := Setup;
      new;
      assert Ids([]) == {} && FlaggedIds([]) == {};
    }

    /** The name field of the setup screen. */
    method SetPlayerName(name: string)
      modifies this`playerName
      ensures playerName == name
      ensures old(Valid()) ==> Valid()
    {
      playerName := name;
    }

    /** The "-" button of the setup screen: `Math.max(2, wordCount - 1)`. The
        button is not shown during a game, so there it does nothing. */
    method DecreaseWordCount()
      modifies this`wordCount
      ensures phase == Active ==> wordCount == old(wordCount)
      ensures phase != Active ==>
        wordCount == if old(wordCount) - 1 < 2 then 2 else old(wordCount) - 1
      ensures 2 <= old(wordCount) <= 10 ==> 2 <= wordCount <= 10
      ensures old(Valid()) ==> Valid()
    {
      if phase != Active {
        wordCount := if wordCount - 1 < 2 then 2 else wordCount - 1;
      }
    }

    /** The "+" button of the setup screen: `Math.min(10, wordCount + 1)`. The
        button is not shown during a game, so there it does nothing. */
    method IncreaseWordCount()
      modifies this`wordCount
      ensures phase == Active ==> wordCount == old(wordCount)
      ensures phase != Active ==>
        wordCount == if old(wordCount) + 1 > 10 then 10 else old(wordCount) + 1
      ensures 2 <= old(wordCount) <= 10 ==> 2 <= wordCount <= 10
      ensures old(Valid()) ==> Valid()
    {
      if phase != Active {
        wordCount := if wordCount + 1 > 10 then 10 else wordCount + 1;
      }
    }

    /** `startGame`: refuses a blank name; otherwise deals a new game. */
    method StartGame(dictionaryOrder: seq<nat>, chunkOrder: seq<nat>) returns (started: bool)
      requires IsPermutation(dictionaryOrder, |dictionary|)
      requires IsPermutation(chunkOrder, 3 * SliceEnd(wordCount, |dictionary|))
      modifies this`dictionary, this`currentWords, this`chunks, this`selectedChunks,
        this`remainingGuesses, this`remainingHints, this`timeRemaining, this`score, this`phase
      ensures started == (WordList.Trim(playerName) != [])
      ensures !started ==>
        dictionary == old(dictionary) && currentWords == old(currentWords) &&
        chunks == old(chunks) && selectedChunks == old(selectedChunks) &&
        remainingGuesses == old(remainingGuesses) && remainingHints == old(remainingHints) &&
        timeRemaining == old(timeRemaining) && score == old(score) && phase == old(phase)
      ensures started ==> Dealt(old(dictionary), dictionaryOrder, chunkOrder)
      ensures started && 2 <= wordCount <= 10 && Distinct(old(dictionary)) ==> Valid()
    {
      if WordList.Trim(playerName) == [] {
        return false;
      }
      Deal(dictionaryOrder, chunkOrder);
      started := true;
    }

    /** The state a new game starts from: the dictionary shuffled in place, its
        first `wordCount` words chosen, their chunks shuffled, nothing selected,
        and the guess, hint and time budgets set from the word count. */
    ghost predicate Dealt(oldDictionary: seq<string>, dictionaryOrder: seq<nat>,
                          chunkOrder: seq<nat>)
      reads this
      requires forall i :: 0 <= i < |dictionaryOrder| ==> dictionaryOrder[i] < |oldDictionary|
    {
      dictionary == Permute(oldDictionary, dictionaryOrder) &&
      currentWords == dictionary[..SliceEnd(wordCount, |dictionary|)] &&
      (forall i :: 0 <= i < |chunkOrder| ==> chunkOrder[i] < 3 * |currentWords|) &&
      chunks == Permute(AllChunks(currentWords), chunkOrder) &&
      selectedChunks == [] &&
      remainingGuesses == wordCount &&
      remainingHints == InitialHints(wordCount) &&
      timeRemaining == InitialTime(wordCount) &&
      score == 0 && phase == Active
    }

    /** The body of `startGame` past the name check: stores what `DealBoard`
        computes in the session's fields and sets the budgets. */
    method Deal(dictionaryOrder: seq<nat>, chunkOrder: seq<nat>)
      requires IsPermutation(dictionaryOrder, |dictionary|)
      requires IsPermutation(chunkOrder, 3 * SliceEnd(wordCount, |dictionary|))
      modifies this`dictionary, this`currentWords, this`chunks, this`selectedChunks,
        this`remainingGuesses, this`remainingHints, this`timeRemaining, this`score, this`phase
      ensures Dealt(old(dictionary), dictionaryOrder, chunkOrder)
      ensures 2 <= wordCount <= 10 && Distinct(old(dictionary)) ==> Valid()
    {
      var shuffled, selectedWords, board := DealBoard(dictionary, wordCount, dictionaryOrder, chunkOrder);
      dictionary := shuffled;
      currentWords := selectedWords;
      chunks := board;
      remainingGuesses := wordCount;
      remainingHints := InitialHints(wordCount);
      timeRemaining := InitialTime(wordCount);
      selectedChunks := [];
      score := 0;
      phase := Active;
    }

    /** One second of the countdown: from 1 or less the time becomes 0 and the
        game is lost; otherwise it drops by one. Once the game has ended the
        timer is cleared and nothing happens. */
    method Tick()
      modifies this`timeRemaining, this`phase
      ensures old(phase) != Active ==> timeRemaining == old(timeRemaining) && phase == old(phase)
      ensures old(phase) == Active && old(timeRemaining) <= 1 ==>
        timeRemaining == 0 && phase == Defeat
      ensures old(phase) == Active && old(timeRemaining) > 1 ==>
        timeRemaining == old(timeRemaining) - 1 && phase == Active
      ensures old(Valid()) ==> Valid()
    {
      if phase != Active {
        return;
      }
      if timeRemaining <= 1 {
        timeRemaining := 0;
        phase := Defeat;
      } else {
        timeRemaining := timeRemaining - 1;
      }
    }

    /** `selectChunk`: a completed chunk is ignored; a selected one is removed
        from the selection and unflagged; an unselected one is appended and
        flagged while fewer than three are selected. Only the chunk with the
        given id changes. */
    method SelectChunk(chunk: Chunk)
      modifies this`chunks, this`selectedChunks
      ensures old(phase) != Active || chunk.isCompleted ||
              (!chunk.isSelected && |old(selectedChunks)| >= 3) ==>
        chunks == old(chunks) && selectedChunks == old(selectedChunks)
      ensures phase == Active && !chunk.isCompleted && chunk.isSelected ==>
        selectedChunks == RemoveId(old(selectedChunks), chunk.id) &&
        chunks == SetSelected(old(chunks), chunk.id, false)
      ensures phase == Active && !chunk.isCompleted && !chunk.isSelected &&
              |old(selectedChunks)| < 3 ==>
        selectedChunks == old(selectedChunks) + [chunk] &&
        chunks == SetSelected(old(chunks), chunk.id, true)
      ensures old(Valid()) && chunk in old(chunks) ==> Valid()
    {
      if phase != Active || chunk.isCompleted {
        return;
      }
      ghost var k: int := -1;
      if old(Valid()) && chunk in chunks {
        k :| 0 <= k < |chunks| && chunks[k] == chunk;
      }
      if chunk.isSelected {
        if k >= 0 {
          DeselectKeepsConsistent(chunks, selectedChunks, chunk.id);
        }
        selectedChunks := RemoveId(selectedChunks, chunk.id);
        chunks := SetSelected(chunks, chunk.id, false);
      } else if |selectedChunks| < 3 {
        if k >= 0 {
          SelectKeepsConsistent(chunks, selectedChunks, k);
        }
        selectedChunks := selectedChunks + [chunk];
        chunks := SetSelected(chunks, chunk.id, true);
      }
    }

    /** `submitGuess`: nothing happens unless exactly three chunks are selected.
        A correct guess completes them and raises the score, winning when the
        score reaches the word count and then recording the entry dated `now`
        in the high-score table; a wrong guess spends a guess, losing when none
        is left. Either way the selection is cleared. */
    method SubmitGuess(now: int)
      modifies this`chunks, this`selectedChunks, this`score, this`remainingGuesses,
        this`phase, this`highScores
      ensures old(phase) != Active || |old(selectedChunks)| != 3 ==>
        chunks == old(chunks) && selectedChunks == old(selectedChunks) &&
        score == old(score) && remainingGuesses == old(remainingGuesses) &&
        phase == old(phase) && highScores == old(highScores)
      ensures old(phase) == Active && |old(selectedChunks)| == 3 ==>
        selectedChunks == [] && forall i :: 0 <= i < |chunks| ==> !chunks[i].isSelected
      ensures old(phase) == Active && |old(selectedChunks)| == 3 && IsValidGuess(old(selectedChunks)) ==>
        chunks == ClearSelected(MarkCompleted(old(chunks), Ids(old(selectedChunks)))) &&
        score == old(score) + 1 && remainingGuesses == old(remainingGuesses)
      ensures old(phase) == Active && |old(selectedChunks)| == 3 && IsValidGuess(old(selectedChunks)) ==>
        if score == wordCount then
          phase == Victory &&
          highScores == HighScores.Merge(old(highScores), HighScores.HighScore(playerName, wordCount, now))
        else phase == Active && highScores == old(highScores)
      ensures old(phase) == Active && |old(selectedChunks)| == 3 && !IsValidGuess(old(selectedChunks)) ==>
        chunks == ClearSelected(old(chunks)) &&
        score == old(score) && remainingGuesses == old(remainingGuesses) - 1 &&
        phase == (if remainingGuesses == 0 then Defeat else Active) &&
        highScores == old(highScores)
      ensures old(Valid()) ==> Valid()
      ensures old(Valid()) && phase == Victory && old(phase) == Active ==>
        |currentWords| == wordCount && forall i :: 0 <= i < |chunks| ==> chunks[i].isCompleted
    {
      if phase != Active || |selectedChunks| != 3 {
        return;
      }
      ghost var valid, ch0, sel0, sc0, g0 := Valid(), chunks, selectedChunks, score, remainingGuesses;
      if IsValidGuess(selectedChunks) {
        chunks := ClearSelected(MarkCompleted(chunks, Ids(selectedChunks)));
        selectedChunks := [];
        score := score + 1;
        if score == wordCount {
          EndGame(true, now);
        }
        if valid {
          CorrectGuessStep(wordCount, currentWords, ch0, sel0, sc0, g0, remainingHints, timeRemaining);
        }
      } else {
        chunks := ClearSelected(chunks);
        selectedChunks := [];
        remainingGuesses := remainingGuesses - 1;
        if remainingGuesses == 0 {
          EndGame(false, now);
        }
        if valid {
          WrongGuessStep(wordCount, currentWords, ch0, sel0, sc0, g0, remainingHints, timeRemaining);
        }
      }
    }

    /** `endGame`: the game is over, won or lost; a win records the player's
        entry, at level `wordCount` and dated `now`, in the high-score table. */
    method EndGame(isVictory: bool, now: int)
      modifies this`phase, this`highScores
      ensures phase == if isVictory then Victory else Defeat
      ensures highScores == if isVictory then
        HighScores.Merge(old(highScores), HighScores.HighScore(playerName, wordCount, now))
        else old(highScores)
    {
      if isVictory {
        highScores := HighScores.Merge(highScores, HighScores.HighScore(playerName, wordCount, now));
      }
      phase := if isVictory then Victory else Defeat;
    }

    /** `useHint`: with a hint left and fewer than two chunks selected, toggles
        the chunk `HintTarget` names and spends one hint; when there is no such
        chunk nothing happens. */
    method UseHint()
      modifies this`chunks, this`selectedChunks, this`remainingHints
      ensures var t := HintTarget(old(chunks), old(selectedChunks), |currentWords|);
        if old(phase) != Active || old(remainingHints) == 0 || |old(selectedChunks)| >= 2 || t == -1
        then
          chunks == old(chunks) && selectedChunks == old(selectedChunks) &&
          remainingHints == old(remainingHints)
        else
          var c := old(chunks)[t];
          remainingHints == old(remainingHints) - 1 &&
          chunks == SetSelected(old(chunks), c.id, !c.isSelected) &&
          selectedChunks == if c.isSelected then RemoveId(old(selectedChunks), c.id)
                            else old(selectedChunks) + [c]
      ensures old(Valid()) ==> Valid()
    {
      if phase != Active || remainingHints == 0 || |selectedChunks| >= 2 {
        return;
      }
      var w := FirstIncompleteWord(chunks, |currentWords|);
      if w == -1 {
        return;
      }
      var k := CountFromWord(selectedChunks, w);
      var i := FindHintChunk(chunks, w, k);
      if i == -1 {
        return;
      }
      SelectChunk(chunks[i]);
      remainingHints := remainingHints - 1;
    }

    /** The "Give Up" button: `endGame(false)` during a game (a loss records
        nothing, so no date is needed). */
    method GiveUp()
      modifies this`phase, this`highScores
      ensures phase == if old(phase) == Active then Defeat else old(phase)
      ensures highScores == old(highScores)
      ensures old(Valid()) ==> Valid()
    {
      if phase == Active {
        EndGame(false, 0);
      }
    }

    /** Either button of the result dialog leaves the game screen. */
    method CloseResult()
      modifies this`phase
      ensures phase == if old(phase) == Victory || old(phase) == Defeat then Setup else old(phase)
      ensures old(Valid()) ==> Valid()
    {
      if phase == Victory || phase == Defeat {
        phase := Setup;
      }
    }
  }
}
