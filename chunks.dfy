/** Cutting the chosen words into three-letter chunks (App.game.js, startGame),
    and the arbitrary reorderings that stand for the two random shuffles. */
module Chunks {
  import Decimal

  /** One tile of the board: a piece of a chosen word and its two flags. */
  datatype Chunk = Chunk(
    text: string,
    wordIndex: int,
    chunkIndex: int,
    id: string,
    isSelected: bool,
    isCompleted: bool)

  /** JavaScript's `substring(start, end)` for `start <= end`: both ends are
      clamped to the length of the string, so a short word yields short chunks. */
  function Substring(s: string, start: nat, end: nat): (r: string)
    requires start <= end
    ensures |r| <= end - start
    ensures end <= |s| ==> r == s[start..end]
    ensures |s| <= start ==> r == ""
    ensures start < |s| < end ==> r == s[start..]
  {
    var e := if end <= |s| then end else |s|;
    var b := if start <= e then start else e;
    s[b..e]
  }

  /** `Array.prototype.indexOf`: the first position that holds `x`, or -1. */
  function IndexOf(xs: seq<string>, x: string): (r: int)
    ensures -1 <= r < |xs|
    ensures r == -1 <==> x !in xs
    ensures 0 <= r ==> xs[r] == x && forall i :: 0 <= i < r ==> xs[i] != x
  {
    if |xs| == 0 then -1
    else if xs[0] == x then 0
    else
      var k := IndexOf(xs[1..], x);
      if k == -1 then -1 else k + 1
  }

  predicate Distinct(words: seq<string>) {
    forall i, j :: 0 <= i < j < |words| ==> words[i] != words[j]
  }

  /** The template literal `${word}-${offset}`. */
  function ChunkId(word: string, offset: nat): string {
    word + "-" + Decimal.NatToString(offset)
  }

  /** The chunk pushed for word `w` at offset `3 * k`, before any shuffle. */
  function ChunkAt(words: seq<string>, w: nat, k: nat): Chunk
    requires w < |words| && k < 3
  {
    Chunk(Substring(words[w], 3 * k, 3 * k + 3), IndexOf(words, words[w]), k,
          ChunkId(words[w], 3 * k), false, false)
  }

  /** The whole unshuffled list, word by word and offset by offset. */
  function AllChunks(words: seq<string>): seq<Chunk> {
    ChunksUpTo(words, |words|)
  }

  /** The chunks of the first `n` words. */
  function ChunksUpTo(words: seq<string>, n: nat): (r: seq<Chunk>)
    requires n <= |words|
    ensures |r| == 3 * n
  {
    if n == 0 then []
    else ChunksUpTo(words, n - 1) +
         [ChunkAt(words, n - 1, 0), ChunkAt(words, n - 1, 1), ChunkAt(words, n - 1, 2)]
  }

  /** Position `3 * w + k` of the list holds the chunk of word `w` at offset `3 * k`. */
  lemma {:induction false} ChunksUpToAt(words: seq<string>, n: nat, w: nat, k: nat)
    requires n <= |words| && w < n && k < 3
    ensures ChunksUpTo(words, n)[3 * w + k] == ChunkAt(words, w, k)
  {
    if w < n - 1 {
      ChunksUpToAt(words, n - 1, w, k);
      ChunksPrefix(words, n, 3 * w + k);
    } else {
      ChunksLastWord(words, n, k);
    }
  }

  /** Adding a word leaves the chunks of the earlier words where they were. */
  lemma ChunksPrefix(words: seq<string>, n: nat, j: nat)
    requires 0 < n <= |words| && j < 3 * (n - 1)
    ensures ChunksUpTo(words, n)[j] == ChunksUpTo(words, n - 1)[j]
  {
    var prefix := ChunksUpTo(words, n - 1);
    var last := [ChunkAt(words, n - 1, 0), ChunkAt(words, n - 1, 1), ChunkAt(words, n - 1, 2)];
    assert ChunksUpTo(words, n) == prefix + last;
  }

  /** The last word's three chunks come last, in offset order. */
  lemma ChunksLastWord(words: seq<string>, n: nat, k: nat)
    requires 0 < n <= |words| && k < 3
    ensures ChunksUpTo(words, n)[3 * (n - 1) + k] == ChunkAt(words, n - 1, k)
  {
    var prefix := ChunksUpTo(words, n - 1);
    var last := [ChunkAt(words, n - 1, 0), ChunkAt(words, n - 1, 1), ChunkAt(words, n - 1, 2)];
    assert ChunksUpTo(words, n) == prefix + last;
    assert ChunksUpTo(words, n)[|prefix| + k] == last[k];
    if k == 0 {
      assert last[0] == ChunkAt(words, n - 1, 0);
    } else if k == 1 {
      assert last[1] == ChunkAt(words, n - 1, 1);
    } else {
      assert last[2] == ChunkAt(words, n - 1, 2);
    }
  }

  lemma AllChunksAt(words: seq<string>, j: nat)
    requires j < 3 * |words|
    ensures |AllChunks(words)| == 3 * |words|
    ensures AllChunks(words)[j] == ChunkAt(words, j / 3, j % 3)
  {
    ChunksUpToAt(words, |words|, j / 3, j % 3);
  }

  /** The `forEach` over the chosen words, pushing each word's chunks. */
  method BuildChunks(words: seq<string>) returns (all: seq<Chunk>)
    ensures all == AllChunks(words)
  {
    all := [];
    for w := 0 to |words|
      invariant all == ChunksUpTo(words, w)
    {
      all := PushWordChunks(words, w, all);
    }
  }

  /** The inner `for` over offsets 0, 3 and 6 of word `w`, pushing one chunk
      per offset. */
  method PushWordChunks(words: seq<string>, w: nat, acc: seq<Chunk>) returns (all: seq<Chunk>)
    requires w < |words|
    ensures all == acc + [ChunkAt(words, w, 0), ChunkAt(words, w, 1), ChunkAt(words, w, 2)]
  {
    var word := words[w];
    all := acc;
    var i := 0;
    ghost var k := 0;
    while i < 9
      invariant 0 <= k <= 3 && i == 3 * k
      invariant |all| == |acc| + k && all[..|acc|] == acc
      invariant forall m :: 0 <= m < k ==> all[|acc| + m] == ChunkAt(words, w, m)
    {
      assert i / 3 == k;
      all := all + [Chunk(Substring(word, i, i + 3), IndexOf(words, word), i / 3,
                          ChunkId(word, i), false, false)];
      i, k := i + 3, k + 1;
    }
    assert all == acc + [all[|acc|], all[|acc| + 1], all[|acc| + 2]];
  }

  /** Reading a word's three chunks in order gives back the word, cut to nine
      characters (a nine-letter word comes back whole). */
  lemma ChunksSpellWord(words: seq<string>, w: nat)
    requires w < |words|
    ensures |AllChunks(words)| == 3 * |words|
    ensures AllChunks(words)[3 * w].text + AllChunks(words)[3 * w + 1].text
              + AllChunks(words)[3 * w + 2].text
            == words[w][..if |words[w]| < 9 then |words[w]| else 9]
  {
    var word := words[w];
    ChunksUpToAt(words, |words|, w, 0);
    ChunksUpToAt(words, |words|, w, 1);
    ChunksUpToAt(words, |words|, w, 2);
    var a, b, c := Substring(word, 0, 3), Substring(word, 3, 6), Substring(word, 6, 9);
    SubstringJoin(word, 0, 3, 6);
    SubstringJoin(word, 0, 6, 9);
    assert a + b + c == Substring(word, 0, 9);
  }

  lemma SubstringJoin(s: string, a: nat, b: nat, c: nat)
    requires a <= b <= c
    ensures Substring(s, a, b) + Substring(s, b, c) == Substring(s, a, c)
  {
  }

  /** With distinct words, every chunk carries its word's position and its own
      offset: each word owns exactly the chunks 3w, 3w+1, 3w+2, numbered 0, 1, 2. */
  lemma ChunkTags(words: seq<string>, j: nat)
    requires Distinct(words)
    requires j < 3 * |words|
    ensures AllChunks(words)[j].wordIndex == j / 3
    ensures AllChunks(words)[j].chunkIndex == j % 3
    ensures !AllChunks(words)[j].isSelected && !AllChunks(words)[j].isCompleted
  {
    AllChunksAt(words, j);
  }

  /** `indexOf` returns the first occurrence, so every chunk carries the
      position of the first copy of its word: a repeated word's chunks carry the
      position of its earlier copy, not their own. */
  lemma RepeatedWordSharesIndex(words: seq<string>, j: nat)
    requires j < 3 * |words|
    ensures 0 <= AllChunks(words)[j].wordIndex <= j / 3
    ensures words[AllChunks(words)[j].wordIndex] == words[j / 3]
    ensures forall i :: 0 <= i < AllChunks(words)[j].wordIndex ==> words[i] != words[j / 3]
    ensures (exists i :: 0 <= i < j / 3 && words[i] == words[j / 3]) ==>
      AllChunks(words)[j].wordIndex < j / 3
  {
    AllChunksAt(words, j);
    assert words[j / 3] in words;
  }

  /** With distinct words no two chunks share an id, since an id is the word
      followed by "-" and one offset digit. */
  lemma ChunkIdsDistinct(words: seq<string>)
    requires Distinct(words)
    ensures forall i, j :: 0 <= i < j < |AllChunks(words)| ==>
      AllChunks(words)[i].id != AllChunks(words)[j].id
  {
    var cs := AllChunks(words);
    forall i, j | 0 <= i < j < |cs|
      ensures cs[i].id != cs[j].id
    {
      var wi, ki, wj, kj := i / 3, i % 3, j / 3, j % 3;
      var a, b := cs[i].id, cs[j].id;
      assert a == words[wi] + "-" + [Decimal.DigitChar(3 * ki)] by {
        AllChunksAt(words, i);
        OffsetDigit(ki);
      }
      assert b == words[wj] + "-" + [Decimal.DigitChar(3 * kj)] by {
        AllChunksAt(words, j);
        OffsetDigit(kj);
      }
      if wi == wj {
        assert ki != kj;
        assert a[|a| - 1] != b[|b| - 1];
      } else if |a| == |b| {
        assert words[wi] != words[wj];
        assert a[..|words[wi]|] == words[wi];
        assert b[..|words[wj]|] == words[wj];
      }
    }
  }

  lemma OffsetDigit(k: nat)
    requires k < 3
    ensures Decimal.NatToString(3 * k) == [Decimal.DigitChar(3 * k)]
  {
  }

  /* ---- Reorderings standing for `sort(() => Math.random() - 0.5)` ---- */

  function Range(n: nat): seq<nat> {
    seq(n, i => i)
  }

  /** `order` lists each of 0 .. n-1 exactly once. */
  ghost predicate IsPermutation(order: seq<nat>, n: nat) {
    |order| == n &&
    (forall i :: 0 <= i < |order| ==> order[i] < n) &&
    multiset(order) == multiset(Range(n))
  }

  /** The list after a shuffle that moved `s[order[i]]` to position `i`. */
  function Permute<T>(s: seq<T>, order: seq<nat>): seq<T>
    requires forall i :: 0 <= i < |order| ==> order[i] < |s|
  {
    seq(|order|, i requires 0 <= i < |order| => s[order[i]])
  }

  /** A shuffle keeps exactly the same elements, with the same multiplicities. */
  lemma PermuteKeepsElements<T>(s: seq<T>, order: seq<nat>)
    requires IsPermutation(order, |s|)
    ensures |Permute(s, order)| == |s|
    ensures multiset(Permute(s, order)) == multiset(s)
  {
    PermuteSameMultiset(s, order, Range(|s|));
    assert Permute(s, Range(|s|)) == s;
  }

  lemma {:induction false} PermuteSameMultiset<T>(s: seq<T>, p: seq<nat>, q: seq<nat>)
    requires forall i :: 0 <= i < |p| ==> p[i] < |s|
    requires forall i :: 0 <= i < |q| ==> q[i] < |s|
    requires multiset(p) == multiset(q)
    ensures multiset(Permute(s, p)) == multiset(Permute(s, q))
    decreases |p|
  {
    if |p| == 0 {
      assert |q| == |multiset(q)| == 0;
      assert Permute(s, p) == [] == Permute(s, q);
    } else {
      var x := p[0];
      assert x in multiset(q) by { assert x in p; }
      var j :| 0 <= j < |q| && q[j] == x;
      RemoveOne(q, j);
      RemoveOne(p, 0);
      assert Without(p, 0) == p[1..];
      PermuteSplit(s, p, 0);
      PermuteSplit(s, q, j);
      PermuteSameMultiset(s, Without(p, 0), Without(q, j));
    }
  }

  function Without(q: seq<nat>, j: nat): seq<nat>
    requires j < |q|
  {
    q[..j] + q[j + 1..]
  }

  lemma RemoveOne(q: seq<nat>, j: nat)
    requires j < |q|
    ensures multiset(Without(q, j)) == multiset(q) - multiset{q[j]}
  {
    assert q == q[..j] + [q[j]] + q[j + 1..];
  }

  /** Taking one position out of the order takes its element out of the result. */
  lemma PermuteSplit<T>(s: seq<T>, q: seq<nat>, j: nat)
    requires forall i :: 0 <= i < |q| ==> q[i] < |s|
    requires j < |q|
    ensures forall i :: 0 <= i < |Without(q, j)| ==> Without(q, j)[i] < |s|
    ensures multiset(Permute(s, q)) == multiset(Permute(s, Without(q, j))) + multiset{s[q[j]]}
  {
    var left, right := q[..j], q[j + 1..];
    assert q == left + [q[j]] + right;
    PermuteAppend(s, left + [q[j]], right);
    PermuteAppend(s, left, [q[j]]);
    PermuteAppend(s, left, right);
  }

  lemma PermuteAppend<T>(s: seq<T>, a: seq<nat>, b: seq<nat>)
    requires forall i :: 0 <= i < |a| ==> a[i] < |s|
    requires forall i :: 0 <= i < |b| ==> b[i] < |s|
    ensures Permute(s, a + b) == Permute(s, a) + Permute(s, b)
  {
  }

  lemma {:induction false} RangeMultiplicity(n: nat, v: nat)
    ensures multiset(Range(n))[v] == if v < n then 1 else 0
  {
    if n > 0 {
      assert Range(n) == Range(n - 1) + [n - 1];
      RangeMultiplicity(n - 1, v);
    }
  }

  /** No position is moved to twice. */
  lemma PermutationInjective(order: seq<nat>, n: nat)
    requires IsPermutation(order, n)
    ensures forall i, j :: 0 <= i < j < |order| ==> order[i] != order[j]
  {
    forall i, j | 0 <= i < j < |order|
      ensures order[i] != order[j]
    {
      if order[i] == order[j] {
        var v := order[i];
        assert order == order[..j] + order[j..];
        assert v in order[..j];
        assert order[j..][0] == v;
        assert multiset(order)[v] >= 2;
        RangeMultiplicity(n, v);
        assert false;
      }
    }
  }

  /** Shuffling a list of distinct words keeps them distinct. */
  lemma PermuteDistinct(words: seq<string>, order: seq<nat>)
    requires Distinct(words)
    requires IsPermutation(order, |words|)
    ensures Distinct(Permute(words, order))
  {
    var p := Permute(words, order);
    PermutationInjective(order, |words|);
    forall i, j | 0 <= i < j < |p| ensures p[i] != p[j] {
      assert order[i] != order[j];
      if order[i] < order[j] {
        assert words[order[i]] != words[order[j]];
      } else {
        assert words[order[j]] != words[order[i]];
      }
    }
  }
}
