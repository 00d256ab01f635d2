/** The board during play (App.game.js, selectChunk, submitGuess, useHint):
    the chunk list with its two flags, the ordered list of selected chunks, and
    the pure computations the handlers perform on them. */
module Board {
  import opened Chunks

  /* ---- Views of a board ---- */

  predicate DistinctIds(s: seq<Chunk>) {
    forall i, j :: 0 <= i < j < |s| ==> s[i].id != s[j].id
  }

  /** The ids of the entries of `selectedChunks`. */
  function Ids(s: seq<Chunk>): set<string> {
    set c | c in s :: c.id
  }

  /** The ids of the chunks whose `isSelected` flag is set. */
  function FlaggedIds(s: seq<Chunk>): set<string> {
    set i | 0 <= i < |s| && s[i].isSelected :: s[i].id
  }

  predicate NeverBoth(s: seq<Chunk>) {
    forall i :: 0 <= i < |s| ==> !(s[i].isSelected && s[i].isCompleted)
  }

  function CountCompleted(s: seq<Chunk>): (n: nat)
    ensures n <= |s|
  {
    if |s| == 0 then 0
    else CountCompleted(s[..|s| - 1]) + (if s[|s| - 1].isCompleted then 1 else 0)
  }

  function CountSelected(s: seq<Chunk>): (n: nat)
    ensures n <= |s|
  {
    if |s| == 0 then 0
    else CountSelected(s[..|s| - 1]) + (if s[|s| - 1].isSelected then 1 else 0)
  }

  /** What the game keeps true between handlers: at most three chunks are
      selected, the list of selected chunks and the flags name the same chunks,
      ids are unique, and no chunk is both selected and completed. */
  ghost predicate Consistent(chunks: seq<Chunk>, selected: seq<Chunk>) {
    |selected| <= 3 &&
    DistinctIds(chunks) &&
    DistinctIds(selected) &&
    Ids(selected) == FlaggedIds(chunks) &&
    NeverBoth(chunks)
  }

  /* ---- The updates the handlers apply through their setters ---- */

  /** `chunks.map(c => c.id === id ? { ...c, isSelected: flag } : c)` */
  function SetSelected(chunks: seq<Chunk>, id: string, flag: bool): seq<Chunk> {
    seq(|chunks|, i requires 0 <= i < |chunks| =>
      if chunks[i].id == id then chunks[i].(isSelected := flag) else chunks[i])
  }

  /** With unique ids, the toggle map changes the flag of the one chunk with
      that id and leaves every other chunk as it was. */
  lemma SetSelectedTouchesOne(chunks: seq<Chunk>, k: nat, flag: bool)
    requires DistinctIds(chunks) && k < |chunks|
    ensures var t := SetSelected(chunks, chunks[k].id, flag);
      |t| == |chunks| && t[k] == chunks[k].(isSelected := flag) &&
      forall i :: 0 <= i < |chunks| && i != k ==> t[i] == chunks[i]
  {
    var t := SetSelected(chunks, chunks[k].id, flag);
    forall i | 0 <= i < |chunks| && i != k ensures t[i] == chunks[i] {
      if i < k {
        assert chunks[i].id != chunks[k].id;
      } else {
        assert chunks[k].id != chunks[i].id;
      }
    }
  }

  /** `selected.filter(c => c.id !== id)` */
  function RemoveId(selected: seq<Chunk>, id: string): (r: seq<Chunk>)
    ensures |r| <= |selected|
    ensures forall c :: c in r <==> c in selected && c.id != id
  {
    if selected == [] then []
    else (if selected[0].id == id then [] else [selected[0]]) + RemoveId(selected[1..], id)
  }

  /** The correct-guess map: every chunk whose id is among `ids` becomes
      completed and unselected. */
  function MarkCompleted(chunks: seq<Chunk>, ids: set<string>): seq<Chunk> {
    seq(|chunks|, i requires 0 <= i < |chunks| =>
      if chunks[i].id in ids then chunks[i].(isCompleted := true, isSelected := false)
      else chunks[i])
  }

  /** `chunks.map(c => ({ ...c, isSelected: false }))` */
  function ClearSelected(chunks: seq<Chunk>): seq<Chunk> {
    seq(|chunks|, i requires 0 <= i < |chunks| => chunks[i].(isSelected := false))
  }

  /* ---- Guess check ---- */

  function InsertByChunkIndex(c: Chunk, s: seq<Chunk>): (r: seq<Chunk>)
    ensures |r| == |s| + 1
    ensures r[0] == c || (|s| > 0 && r[0] == s[0])
    ensures multiset(r) == multiset(s) + multiset{c}
  {
    if s == [] || c.chunkIndex <= s[0].chunkIndex then [c] + s
    else
      assert s == [s[0]] + s[1..];
      [s[0]] + InsertByChunkIndex(c, s[1..])
  }

  /** Inserting into a list in chunk-index order keeps it in order. */
  lemma {:induction false} InsertKeepsSorted(c: Chunk, s: seq<Chunk>)
    requires SortedByChunkIndex(s)
    ensures SortedByChunkIndex(InsertByChunkIndex(c, s))
  {
    if s != [] && c.chunkIndex > s[0].chunkIndex {
      var tail := s[1..];
      assert SortedByChunkIndex(tail) by {
        assert forall i :: 0 <= i < |tail| ==> tail[i] == s[i + 1];
      }
      InsertKeepsSorted(c, tail);
      var t := InsertByChunkIndex(c, tail);
      assert InsertByChunkIndex(c, s) == [s[0]] + t;
      assert t[0] == c || t[0] == tail[0];
    }
  }

  /** Neighbours are in order of chunk index. */
  predicate SortedByChunkIndex(s: seq<Chunk>) {
    forall i :: 0 < i < |s| ==> s[i - 1].chunkIndex <= s[i].chunkIndex
  }

  /** `[...selected].sort((a, b) => a.chunkIndex - b.chunkIndex)`, a stable sort. */
  function SortByChunkIndex(s: seq<Chunk>): (r: seq<Chunk>)
    ensures multiset(r) == multiset(s)
    ensures SortedByChunkIndex(r)
  {
    if s == [] then []
    else
      assert s == [s[0]] + s[1..];
      InsertKeepsSorted(s[0], SortByChunkIndex(s[1..]));
      InsertByChunkIndex(s[0], SortByChunkIndex(s[1..]))
  }

  /** `sorted.every((c, i) => c.wordIndex === sorted[0].wordIndex && c.chunkIndex === i)` */
  predicate ReadsInOrder(sorted: seq<Chunk>) {
    forall i :: 0 <= i < |sorted| ==>
      sorted[i].wordIndex == sorted[0].wordIndex && sorted[i].chunkIndex == i
  }

  /** The verdict of `submitGuess` on the selected chunks. */
  predicate IsValidGuess(selected: seq<Chunk>) {
    ReadsInOrder(SortByChunkIndex(selected))
  }

  lemma SortOne(c: Chunk)
    ensures SortByChunkIndex([c]) == [c]
  {
    assert [c][1..] == [];
  }

  lemma InsertTwo(a: Chunk, x: Chunk, y: Chunk)
    ensures InsertByChunkIndex(a, [x, y]) ==
      if a.chunkIndex <= x.chunkIndex then [a, x, y]
      else if a.chunkIndex <= y.chunkIndex then [x, a, y]
      else [x, y, a]
  {
    assert [x, y][1..] == [y];
    InsertOne(a, y);
  }

  lemma InsertOne(a: Chunk, y: Chunk)
    ensures InsertByChunkIndex(a, [y]) == if a.chunkIndex <= y.chunkIndex then [a, y] else [y, a]
  {
    assert [y][1..] == [];
  }

  lemma SortTwo(b: Chunk, c: Chunk)
    ensures SortByChunkIndex([b, c]) == if b.chunkIndex <= c.chunkIndex then [b, c] else [c, b]
  {
    assert [b, c][1..] == [c];
    SortOne(c);
    assert InsertByChunkIndex(b, []) == [b];
    assert [c][1..] == [];
  }

  lemma SortThree(a: Chunk, b: Chunk, c: Chunk)
    ensures SortByChunkIndex([a, b, c]) ==
      InsertByChunkIndex(a, if b.chunkIndex <= c.chunkIndex then [b, c] else [c, b])
  {
    assert [a, b, c][1..] == [b, c];
    SortTwo(b, c);
  }

  lemma ReadsInOrderThree(x: Chunk, y: Chunk, z: Chunk)
    ensures ReadsInOrder([x, y, z]) <==>
      x.wordIndex == y.wordIndex == z.wordIndex &&
      x.chunkIndex == 0 && y.chunkIndex == 1 && z.chunkIndex == 2
  {
    var r := [x, y, z];
    assert r[0] == x && r[1] == y && r[2] == z;
    assert ReadsInOrder(r) ==> r[1].chunkIndex == 1 && r[2].chunkIndex == 2;
  }

  /** The three chunks come from one word and carry chunk indices 0, 1 and 2
      in some order. */
  predicate OneWordAllParts(a: Chunk, b: Chunk, c: Chunk) {
    a.wordIndex == b.wordIndex == c.wordIndex &&
    0 <= a.chunkIndex < 3 && 0 <= b.chunkIndex < 3 && 0 <= c.chunkIndex < 3 &&
    a.chunkIndex != b.chunkIndex && b.chunkIndex != c.chunkIndex &&
    a.chunkIndex != c.chunkIndex
  }

  /** Three chunks make a correct guess exactly when they come from one word and
      their chunk indices are 0, 1 and 2 in some order. */
  lemma GuessValidIff(a: Chunk, b: Chunk, c: Chunk)
    ensures IsValidGuess([a, b, c]) <==>
      a.wordIndex == b.wordIndex == c.wordIndex &&
      0 <= a.chunkIndex < 3 && 0 <= b.chunkIndex < 3 && 0 <= c.chunkIndex < 3 &&
      a.chunkIndex != b.chunkIndex && b.chunkIndex != c.chunkIndex &&
      a.chunkIndex != c.chunkIndex
  {
    GuessValidAsParts(a, b, c);
  }

  lemma GuessValidAsParts(a: Chunk, b: Chunk, c: Chunk)
    ensures IsValidGuess([a, b, c]) == OneWordAllParts(a, b, c)
  {
    SortThree(a, b, c);
    if b.chunkIndex <= c.chunkIndex {
      InsertInPair(a, b, c);
    } else {
      InsertInPair(a, c, b);
    }
  }

  /** The three ways of inserting `a` into an ordered pair, each with its verdict. */
  lemma InsertInPair(a: Chunk, x: Chunk, y: Chunk)
    requires x.chunkIndex <= y.chunkIndex
    ensures ReadsInOrder(InsertByChunkIndex(a, [x, y])) <==> OneWordAllParts(a, x, y)
  {
    InsertTwo(a, x, y);
    if a.chunkIndex <= x.chunkIndex {
      ReadsInOrderThree(a, x, y);
    } else if a.chunkIndex <= y.chunkIndex {
      ReadsInOrderThree(x, a, y);
    } else {
      ReadsInOrderThree(x, y, a);
    }
  }

  /** The order in which the player tapped the three chunks does not matter. */
  lemma GuessOrderIrrelevant(a: Chunk, b: Chunk, c: Chunk)
    ensures IsValidGuess([a, b, c]) == IsValidGuess([b, a, c])
    ensures IsValidGuess([a, b, c]) == IsValidGuess([a, c, b])
    ensures IsValidGuess([a, b, c]) == IsValidGuess([c, b, a])
  {
    GuessValidIff(a, b, c);
    GuessValidIff(b, a, c);
    GuessValidIff(a, c, b);
    GuessValidIff(c, b, a);
  }

  /* ---- Hint search ---- */

  predicate HasCompletedChunk(chunks: seq<Chunk>, w: int) {
    exists i :: 0 <= i < |chunks| && chunks[i].wordIndex == w && chunks[i].isCompleted
  }

  /** `currentWords.findIndex((word, index) => !chunks.some(c => c.wordIndex === index && c.isCompleted))`:
      the first word position none of whose chunks is completed, or -1. */
  function FirstIncompleteWord(chunks: seq<Chunk>, wordCount: nat): (r: int)
    ensures -1 <= r < wordCount
    ensures r == -1 <==> forall w :: 0 <= w < wordCount ==> HasCompletedChunk(chunks, w)
    ensures 0 <= r ==> !HasCompletedChunk(chunks, r) &&
                       forall w :: 0 <= w < r ==> HasCompletedChunk(chunks, w)
  {
    FirstIncompleteFrom(chunks, wordCount, 0)
  }

  function FirstIncompleteFrom(chunks: seq<Chunk>, wordCount: nat, from: nat): (r: int)
    requires from <= wordCount
    requires forall w :: 0 <= w < from ==> HasCompletedChunk(chunks, w)
    ensures -1 <= r < wordCount
    ensures r == -1 <==> forall w :: 0 <= w < wordCount ==> HasCompletedChunk(chunks, w)
    ensures 0 <= r ==> !HasCompletedChunk(chunks, r) &&
                       forall w :: 0 <= w < r ==> HasCompletedChunk(chunks, w)
    decreases wordCount - from
  {
    if from == wordCount then -1
    else if !HasCompletedChunk(chunks, from) then from
    else FirstIncompleteFrom(chunks, wordCount, from + 1)
  }

  /** The word indices of a list of chunks, in order. */
  function WordIndices(s: seq<Chunk>): (r: seq<int>)
    ensures |r| == |s|
    ensures forall i :: 0 <= i < |s| ==> r[i] == s[i].wordIndex
  {
    seq(|s|, i requires 0 <= i < |s| => s[i].wordIndex)
  }

  /** `selected.filter(c => c.wordIndex === w).length`: the number of selected
      chunks whose word index is `w`. */
  function CountFromWord(selected: seq<Chunk>, w: int): (n: nat)
    ensures n == multiset(WordIndices(selected))[w]
    ensures n <= |selected|
    ensures n == |selected| <==> forall i :: 0 <= i < |selected| ==> selected[i].wordIndex == w
  {
    if selected == [] then 0
    else
      assert WordIndices(selected) == [selected[0].wordIndex] + WordIndices(selected[1..]);
      (if selected[0].wordIndex == w then 1 else 0) + CountFromWord(selected[1..], w)
  }

  predicate IsHintFor(c: Chunk, w: int, k: int) {
    c.wordIndex == w && c.chunkIndex == k && !c.isCompleted
  }

  /** `chunks.find(c => c.wordIndex === w && c.chunkIndex === k && !c.isCompleted)`,
      as the position of the chunk found, or -1 when there is none. */
  function FindHintChunk(chunks: seq<Chunk>, w: int, k: int): (r: int)
    ensures -1 <= r < |chunks|
    ensures r == -1 <==> forall i :: 0 <= i < |chunks| ==> !IsHintFor(chunks[i], w, k)
    ensures 0 <= r ==> IsHintFor(chunks[r], w, k) &&
                       forall i :: 0 <= i < r ==> !IsHintFor(chunks[i], w, k)
  {
    if chunks == [] then -1
    else if IsHintFor(chunks[0], w, k) then 0
    else
      var r := FindHintChunk(chunks[1..], w, k);
      if r == -1 then -1 else r + 1
  }

  /* ---- The invariant across the handlers ---- */

  /** Setting one id's flag adds that id to the flagged ids, and clearing it
      removes it; no other id changes. */
  lemma FlaggedAfterSet(chunks: seq<Chunk>, id: string, flag: bool)
    requires flag ==> id in Ids(chunks)
    ensures FlaggedIds(SetSelected(chunks, id, flag)) ==
      if flag then FlaggedIds(chunks) + {id} else FlaggedIds(chunks) - {id}
  {
    var t := SetSelected(chunks, id, flag);
    var want := if flag then FlaggedIds(chunks) + {id} else FlaggedIds(chunks) - {id};
    forall x | x in FlaggedIds(t) ensures x in want {
      var i :| 0 <= i < |t| && t[i].isSelected && t[i].id == x;
      if chunks[i].id != id {
        assert chunks[i] == t[i];
      }
    }
    forall x | x in want ensures x in FlaggedIds(t) {
      if flag && x == id {
        var k :| 0 <= k < |chunks| && chunks[k].id == id;
        assert t[k].isSelected && t[k].id == id;
      } else {
        var i :| 0 <= i < |chunks| && chunks[i].isSelected && chunks[i].id == x;
        assert t[i] == chunks[i];
      }
    }
  }

  lemma CountCompletedSame(s: seq<Chunk>, t: seq<Chunk>)
    requires |s| == |t|
    requires forall i :: 0 <= i < |s| ==> s[i].isCompleted == t[i].isCompleted
    ensures CountCompleted(s) == CountCompleted(t)
  {
    if |s| > 0 {
      CountCompletedSame(s[..|s| - 1], t[..|t| - 1]);
    }
  }

  lemma IdsAppend(selected: seq<Chunk>, c: Chunk)
    ensures Ids(selected + [c]) == Ids(selected) + {c.id}
  {
    assert forall x :: x in selected + [c] <==> x in selected || x == c;
  }

  lemma RemoveIdDistinct(selected: seq<Chunk>, id: string)
    requires DistinctIds(selected)
    ensures DistinctIds(RemoveId(selected, id))
    ensures Ids(RemoveId(selected, id)) == Ids(selected) - {id}
  {
    RemoveIdKeepsDistinct(selected, id);
    var r := RemoveId(selected, id);
    assert forall x :: x in Ids(r) <==> x in Ids(selected) - {id} by {
      forall x ensures x in Ids(r) <==> x in Ids(selected) - {id} {
        if x in Ids(r) {
          var c :| c in r && c.id == x;
          assert c in selected;
        }
        if x in Ids(selected) - {id} {
          var c :| c in selected && c.id == x;
          assert c in r;
        }
      }
    }
  }

  lemma {:induction false} RemoveIdKeepsDistinct(selected: seq<Chunk>, id: string)
    requires DistinctIds(selected)
    ensures DistinctIds(RemoveId(selected, id))
  {
    if selected != [] {
      var tail := selected[1..];
      assert DistinctIds(tail) by {
        assert forall i :: 0 <= i < |tail| ==> tail[i] == selected[i + 1];
      }
      var rest := RemoveId(tail, id);
      RemoveIdKeepsDistinct(tail, id);
      if selected[0].id != id {
        var r := [selected[0]] + rest;
        assert RemoveId(selected, id) == r;
        forall j | 0 < j < |r| ensures r[0].id != r[j].id {
          assert r[j] in tail;
          var m :| 0 <= m < |tail| && tail[m] == r[j];
          assert selected[m + 1] == r[j];
        }
        assert forall i :: 0 < i < |r| ==> r[i] == rest[i - 1];
      }
    }
  }

  /** Deselecting keeps the board consistent. */
  lemma DeselectKeepsConsistent(chunks: seq<Chunk>, selected: seq<Chunk>, id: string)
    requires Consistent(chunks, selected)
    ensures Consistent(SetSelected(chunks, id, false), RemoveId(selected, id))
    ensures CountCompleted(SetSelected(chunks, id, false)) == CountCompleted(chunks)
  {
    RemoveIdDistinct(selected, id);
    FlaggedAfterSet(chunks, id, false);
    CountCompletedSame(chunks, SetSelected(chunks, id, false));
  }

  /** Selecting an unselected, uncompleted chunk of the board while fewer than
      three are selected keeps the board consistent and grows the selection by one. */
  lemma SelectKeepsConsistent(chunks: seq<Chunk>, selected: seq<Chunk>, k: nat)
    requires Consistent(chunks, selected)
    requires k < |chunks| && !chunks[k].isSelected && !chunks[k].isCompleted
    requires |selected| < 3
    ensures Consistent(SetSelected(chunks, chunks[k].id, true), selected + [chunks[k]])
    ensures CountCompleted(SetSelected(chunks, chunks[k].id, true)) == CountCompleted(chunks)
  {
    var c := chunks[k];
    var t := SetSelected(chunks, c.id, true);
    assert c in chunks;
    FlaggedAfterSet(chunks, c.id, true);
    IdsAppend(selected, c);
    assert forall i :: 0 <= i < |chunks| && chunks[i].isSelected ==> chunks[i].id != c.id;
    AppendDistinct(selected, c);
    SetKeepsIds(chunks, c.id, true);
    SetKeepsNeverBoth(chunks, k);
    CountCompletedSame(chunks, t);
  }

  lemma AppendDistinct(selected: seq<Chunk>, c: Chunk)
    requires DistinctIds(selected) && c.id !in Ids(selected)
    ensures DistinctIds(selected + [c])
  {
    var s' := selected + [c];
    forall i, j | 0 <= i < j < |s'| ensures s'[i].id != s'[j].id {
      if j < |selected| {
        assert s'[i] == selected[i] && s'[j] == selected[j];
      } else {
        assert s'[i] in selected;
      }
    }
  }

  lemma SetKeepsIds(chunks: seq<Chunk>, id: string, flag: bool)
    requires DistinctIds(chunks)
    ensures DistinctIds(SetSelected(chunks, id, flag))
  {
  }

  lemma SetKeepsNeverBoth(chunks: seq<Chunk>, k: nat)
    requires DistinctIds(chunks) && NeverBoth(chunks)
    requires k < |chunks| && !chunks[k].isCompleted
    ensures NeverBoth(SetSelected(chunks, chunks[k].id, true))
  {
    var t := SetSelected(chunks, chunks[k].id, true);
    forall i | 0 <= i < |t| ensures !(t[i].isSelected && t[i].isCompleted) {
      if chunks[i].id == chunks[k].id {
        assert i == k;
      }
    }
  }

  /** Dropping the last chunk keeps ids unique, and the last id is not among the others. */
  lemma DistinctSplit(s: seq<Chunk>)
    requires DistinctIds(s) && s != []
    ensures DistinctIds(s[..|s| - 1])
    ensures forall c :: c in s[..|s| - 1] ==> c.id != s[|s| - 1].id
  {
    var init := s[..|s| - 1];
    assert forall i :: 0 <= i < |init| ==> init[i] == s[i];
  }

  lemma {:induction false} DistinctIdsCard(s: seq<Chunk>)
    requires DistinctIds(s)
    ensures |Ids(s)| == |s|
  {
    if s != [] {
      var last := s[|s| - 1];
      var init := s[..|s| - 1];
      DistinctSplit(s);
      DistinctIdsCard(init);
      assert s == init + [last];
      IdsAppend(init, last);
      assert last.id !in Ids(init);
    }
  }

  lemma FlaggedAppend(init: seq<Chunk>, last: Chunk)
    ensures FlaggedIds(init + [last]) ==
      FlaggedIds(init) + (if last.isSelected then {last.id} else {})
  {
    var s := init + [last];
    assert forall i :: 0 <= i < |init| ==> s[i] == init[i];
    assert s[|init|] == last;
  }

  lemma {:induction false} FlaggedCard(s: seq<Chunk>)
    requires DistinctIds(s)
    ensures |FlaggedIds(s)| == CountSelected(s)
  {
    if s != [] {
      var init := s[..|s| - 1];
      var last := s[|s| - 1];
      DistinctSplit(s);
      FlaggedCard(init);
      assert s == init + [last];
      FlaggedAppend(init, last);
      assert last.id !in FlaggedIds(init);
    }
  }

  lemma {:induction false} CountAfterMark(s: seq<Chunk>, t: seq<Chunk>)
    requires |s| == |t| && NeverBoth(s)
    requires forall i :: 0 <= i < |s| ==> t[i].isCompleted == (s[i].isCompleted || s[i].isSelected)
    ensures CountCompleted(t) == CountCompleted(s) + CountSelected(s)
  {
    if |s| > 0 {
      CountAfterMark(s[..|s| - 1], t[..|t| - 1]);
    }
  }

  /** A correct guess: the selected chunks become completed, the selection is
      cleared, and the number of completed chunks grows by exactly the number of
      chunks selected. */
  lemma CorrectGuessKeepsConsistent(chunks: seq<Chunk>, selected: seq<Chunk>)
    requires Consistent(chunks, selected)
    ensures var t := ClearSelected(MarkCompleted(chunks, Ids(selected)));
      Consistent(t, []) && CountSelected(t) == 0 &&
      CountCompleted(t) == CountCompleted(chunks) + |selected|
  {
    var t := ClearSelected(MarkCompleted(chunks, Ids(selected)));
    assert FlaggedIds(t) == {};
    assert Ids([]) == {};
    forall i | 0 <= i < |chunks|
      ensures t[i].isCompleted == (chunks[i].isCompleted || chunks[i].isSelected)
    {
      if chunks[i].id in FlaggedIds(chunks) {
        var j :| 0 <= j < |chunks| && chunks[j].isSelected && chunks[j].id == chunks[i].id;
        assert i == j;
      }
    }
    CountAfterMark(chunks, t);
    FlaggedCard(chunks);
    DistinctIdsCard(selected);
    NoneSelected(t);
  }

  /** A wrong guess only clears the selection. */
  lemma WrongGuessKeepsConsistent(chunks: seq<Chunk>, selected: seq<Chunk>)
    requires Consistent(chunks, selected)
    ensures Consistent(ClearSelected(chunks), []) && CountSelected(ClearSelected(chunks)) == 0
    ensures CountCompleted(ClearSelected(chunks)) == CountCompleted(chunks)
  {
    var t := ClearSelected(chunks);
    assert FlaggedIds(t) == {};
    assert Ids([]) == {};
    CountCompletedSame(chunks, t);
    NoneSelected(t);
  }

  lemma {:induction false} NoneSelected(s: seq<Chunk>)
    requires forall i :: 0 <= i < |s| ==> !s[i].isSelected
    ensures CountSelected(s) == 0
  {
    if |s| > 0 {
      NoneSelected(s[..|s| - 1]);
    }
  }

  lemma {:induction false} NoneCompleted(s: seq<Chunk>)
    requires forall i :: 0 <= i < |s| ==> !s[i].isCompleted
    ensures CountCompleted(s) == 0
  {
    if |s| > 0 {
      NoneCompleted(s[..|s| - 1]);
    }
  }

  /** The board a new game starts from: the chunks of distinct words in any
      shuffled order form a consistent board with nothing selected or completed. */
  lemma FreshBoardConsistent(words: seq<string>, order: seq<nat>)
    requires Distinct(words)
    requires IsPermutation(order, 3 * |words|)
    ensures var cs := Permute(AllChunks(words), order);
      |cs| == 3 * |words| && Consistent(cs, []) && CountCompleted(cs) == 0
  {
    var all := AllChunks(words);
    var cs := Permute(all, order);
    ChunkIdsDistinct(words);
    PermutationInjective(order, 3 * |words|);
    forall i | 0 <= i < |cs| ensures !cs[i].isSelected && !cs[i].isCompleted {
      ChunkTags(words, order[i]);
    }
    assert FlaggedIds(cs) == {};
    assert Ids([]) == {};
    NoneCompleted(cs);
  }

  /** When the count of completed chunks equals the length, every chunk is completed. */
  lemma {:induction false} FullCountAllCompleted(s: seq<Chunk>)
    requires CountCompleted(s) == |s|
    ensures forall i :: 0 <= i < |s| ==> s[i].isCompleted
  {
    if |s| > 0 {
      var init := s[..|s| - 1];
      FullCountAllCompleted(init);
      assert forall i :: 0 <= i < |init| ==> s[i] == init[i];
    }
  }
}
