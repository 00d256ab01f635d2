/** The high-score table kept after a victory (App.game.js, endGame): the new
    entry is added, the list is sorted by level and then by date, both
    descending, and only the first ten entries are kept. */
module HighScores {

  /** One entry; the ISO date string is modelled by its instant as an integer. */
  datatype HighScore = HighScore(name: string, level: int, date: int)

  const TableSize: nat := 10

  /** The comparator `(a, b) => b.level - a.level || new Date(b.date) - new Date(a.date)`
      is negative, so that `a` goes first, exactly when `a` is strictly better. */
  predicate Better(a: HighScore, b: HighScore) {
    a.level > b.level || (a.level == b.level && a.date > b.date)
  }

  /** No entry is strictly better than the one before it. */
  predicate Ranked(s: seq<HighScore>) {
    forall i :: 0 < i < |s| ==> !Better(s[i], s[i - 1])
  }

  /** Places `x` in front of the first entry that is not strictly better than
      it; `x` comes earlier in the list being sorted, so it stays ahead of the
      entries equal to it. */
  function Insert(x: HighScore, s: seq<HighScore>): (r: seq<HighScore>)
    ensures multiset(r) == multiset(s) + multiset{x}
    ensures |r| == |s| + 1
    ensures r[0] == x || (|s| > 0 && r[0] == s[0])
  {
    if s == [] || !Better(s[0], x) then [x] + s
    else
      assert s == [s[0]] + s[1..];
      [s[0]] + Insert(x, s[1..])
  }

  /** Inserting into a ranked list keeps it ranked. */
  lemma {:induction false} InsertKeepsRanked(x: HighScore, s: seq<HighScore>)
    requires Ranked(s)
    ensures Ranked(Insert(x, s))
  {
    if s != [] && Better(s[0], x) {
      var tail := s[1..];
      assert Ranked(tail) by {
        assert forall i :: 0 <= i < |tail| ==> tail[i] == s[i + 1];
      }
      InsertKeepsRanked(x, tail);
      var t := Insert(x, tail);
      assert Insert(x, s) == [s[0]] + t;
      assert t[0] == x || t[0] == tail[0];
    }
  }

  /** `Array.prototype.sort` with the comparator above; the sort is stable, as
      the language requires since ES2019. */
  function Sort(s: seq<HighScore>): (r: seq<HighScore>)
    ensures multiset(r) == multiset(s)
    ensures |r| == |s|
    ensures Ranked(r)
  {
    if s == [] then []
    else
      assert s == [s[0]] + s[1..];
      InsertKeepsRanked(s[0], Sort(s[1..]));
      Insert(s[0], Sort(s[1..]))
  }

  /** `.slice(0, n)` */
  function Take(s: seq<HighScore>, n: nat): seq<HighScore> {
    if |s| <= n then s else s[..n]
  }

  /** `[...highScores, newScore].sort(...).slice(0, 10)` */
  function Merge(table: seq<HighScore>, entry: HighScore): seq<HighScore> {
    Take(Sort(table + [entry]), TableSize)
  }

  /* ---- What the table promises ---- */

  /** "Not strictly better" is transitive, so a ranked list is ranked between
      any two positions, not only neighbours. */
  lemma {:induction false} RankedEverywhere(s: seq<HighScore>, i: nat, j: nat)
    requires Ranked(s)
    requires i < j < |s|
    ensures !Better(s[j], s[i])
    decreases j - i
  {
    if i + 1 < j {
      RankedEverywhere(s, i + 1, j);
    }
  }

  /** Sorting a list that is already ranked leaves it as it is. */
  lemma {:induction false} SortRankedIsIdentity(s: seq<HighScore>)
    requires Ranked(s)
    ensures Sort(s) == s
  {
    if s != [] {
      var rest := s[1..];
      assert Ranked(rest) by {
        assert forall i :: 0 <= i < |rest| ==> rest[i] == s[i + 1];
      }
      SortRankedIsIdentity(rest);
      assert s == [s[0]] + rest;
      assert Sort(s) == Insert(s[0], rest);
      assert rest == [] || !Better(rest[0], s[0]);
    }
  }

  /** The merged table is ranked, holds at most ten entries (fewer only when
      there were fewer to keep), and every entry comes from the old table or is
      the new one, with no entry duplicated. */
  lemma MergeShape(table: seq<HighScore>, entry: HighScore)
    ensures Ranked(Merge(table, entry))
    ensures |Merge(table, entry)| == if |table| + 1 <= TableSize then |table| + 1 else TableSize
    ensures multiset(Merge(table, entry)) <= multiset(table) + multiset{entry}
  {
    var sorted := Sort(table + [entry]);
    var r := Merge(table, entry);
    assert multiset(table + [entry]) == multiset(table) + multiset{entry};
    assert sorted == r + sorted[|r|..];
    assert multiset(sorted) == multiset(r) + multiset(sorted[|r|..]);
  }

  /** While the table has room nothing is dropped: the result is exactly the old
      entries and the new one. */
  lemma MergeKeepsAllWhileRoom(table: seq<HighScore>, entry: HighScore)
    requires |table| < TableSize
    ensures multiset(Merge(table, entry)) == multiset(table) + multiset{entry}
    ensures entry in Merge(table, entry)
  {
    assert multiset(table + [entry]) == multiset(table) + multiset{entry};
    assert entry in multiset(Merge(table, entry));
  }

  /** No entry that was cut from the table is strictly better than one that was
      kept: the table keeps the top ten. */
  lemma MergeKeepsTheBest(table: seq<HighScore>, entry: HighScore, dropped: HighScore, kept: HighScore)
    requires dropped in multiset(table) + multiset{entry} - multiset(Merge(table, entry))
    requires kept in Merge(table, entry)
    ensures !Better(dropped, kept)
  {
    var sorted := Sort(table + [entry]);
    var r := Merge(table, entry);
    var tail := sorted[|r|..];
    assert multiset(table + [entry]) == multiset(table) + multiset{entry};
    assert sorted == r + tail;
    assert multiset(sorted) == multiset(r) + multiset(tail);
    assert dropped in multiset(tail);
    var j :| 0 <= j < |tail| && tail[j] == dropped;
    var i :| 0 <= i < |r| && r[i] == kept;
    RankedEverywhere(sorted, i, |r| + j);
  }

  /** An entry strictly better than every old one heads the new table. */
  lemma MergeRecordGoesFirst(table: seq<HighScore>, entry: HighScore)
    requires forall i :: 0 <= i < |table| ==> Better(entry, table[i])
    ensures Merge(table, entry)[0] == entry
  {
    var sorted := Sort(table + [entry]);
    assert entry in multiset(sorted) by {
      assert multiset(table + [entry]) == multiset(table) + multiset{entry};
    }
    var k :| 0 <= k < |sorted| && sorted[k] == entry;
    if sorted[0] != entry {
      var first := sorted[0];
      assert first in multiset(table + [entry]);
      assert first in table + [entry];
      RankedEverywhere(sorted, 0, k);
      assert false;
    }
  }

  /** Ties on level are broken by the later date. */
  lemma MergeExample()
    ensures Merge([HighScore("A", 5, 100)], HighScore("B", 5, 200)) ==
      [HighScore("B", 5, 200), HighScore("A", 5, 100)]
  {
    var a, b := HighScore("A", 5, 100), HighScore("B", 5, 200);
    assert [a] + [b] == [a, b];
    assert [a, b][1..] == [b];
    assert [b][1..] == [];
  }

  /** A full tie (same level, same date) keeps the older entry ahead of the new one. */
  lemma MergeTieKeepsOrder()
    ensures Merge([HighScore("A", 5, 100)], HighScore("B", 5, 100)) ==
      [HighScore("A", 5, 100), HighScore("B", 5, 100)]
  {
    var a, b := HighScore("A", 5, 100), HighScore("B", 5, 100);
    assert [a] + [b] == [a, b];
    assert [a, b][1..] == [b];
    assert [b][1..] == [];
  }
}
