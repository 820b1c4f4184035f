/**
 * The per-column consensus of `alignmentHtml` in sabre.js: the characters of
 * a column's cells that are not end gaps are counted (`_.countBy`), the
 * characters with the largest count form the consensus, and every cell is
 * tagged against it.
 */
module Consensus {

  /** The CSS classes a cell can get: `aligned-char`, `end-gap`, `mismatch`, `tie-match`. */
  datatype Tag = AlignedChar | EndGap | Mismatch | TieMatch

  /** One cell of a column: its character and whether `isEndGap` holds for it. */
  datatype Cell = Cell(ch: char, endGap: bool)

  /** `columnFiltered`: the characters of the cells that are not end gaps, in row order. */
  function Counted(cells: seq<Cell>): (r: seq<char>)
    ensures |r| <= |cells|
    ensures forall c :: multiset(r)[c] == multiset(cells)[Cell(c, false)]
  {
    if cells == [] then []
    else
      var rest := Counted(cells[..|cells| - 1]);
      var last := cells[|cells| - 1];
      assert cells == cells[..|cells| - 1] + [last];
      if last.endGap then rest else rest + [last.ch]
  }

  /** The largest count, in `r`, of a character of `xs`; 0 when `xs` is empty. */
  function MaxOver(r: seq<char>, xs: seq<char>): (m: nat)
    ensures forall k :: 0 <= k < |xs| ==> multiset(r)[xs[k]] <= m
    ensures xs == [] ==> m == 0
    ensures xs != [] ==> exists k :: 0 <= k < |xs| && multiset(r)[xs[k]] == m
  {
    if xs == [] then 0
    else
      var rest := MaxOver(r, xs[1..]);
      assert forall k :: 1 <= k < |xs| ==> xs[k] == xs[1..][k - 1];
      if multiset(r)[xs[0]] >= rest then multiset(r)[xs[0]] else rest
  }

  /** `countsSorted[0][1]`: the largest count of any character among `filtered`. */
  function MaxCount(filtered: seq<char>): (m: nat)
    ensures forall c :: multiset(filtered)[c] <= m
    ensures filtered == [] <==> m == 0
    ensures filtered != [] ==> exists c :: c in filtered && multiset(filtered)[c] == m
  {
    var m := MaxOver(filtered, filtered);
    assert forall c :: c in filtered ==> multiset(filtered)[c] <= m by {
      forall c | c in filtered ensures multiset(filtered)[c] <= m {
        var k :| 0 <= k < |filtered| && filtered[k] == c;
      }
    }
    assert filtered != [] ==> exists c :: c in filtered && multiset(filtered)[c] == m by {
      if filtered != [] {
        var k :| 0 <= k < |filtered| && multiset(filtered)[filtered[k]] == m;
        assert filtered[k] in filtered;
      }
    }
    m
  }

  /** `consensuses`: every character whose count equals the largest count. */
  function ConsensusOf(filtered: seq<char>): set<char>
  {
    set c | c in filtered && multiset(filtered)[c] == MaxCount(filtered)
  }

  /** A character is in the consensus iff it occurs and no character occurs more often. */
  lemma ConsensusChar(filtered: seq<char>, c: char)
    ensures c in ConsensusOf(filtered) <==>
      multiset(filtered)[c] > 0 && forall d :: multiset(filtered)[d] <= multiset(filtered)[c]
  {
    if multiset(filtered)[c] > 0 && forall d :: multiset(filtered)[d] <= multiset(filtered)[c] {
      assert c in filtered;
      var d :| d in filtered && multiset(filtered)[d] == MaxCount(filtered);
    }
  }

  /** The consensus of the column's cells. */
  function ColumnConsensus(cells: seq<Cell>): set<char>
  {
    ConsensusOf(Counted(cells))
  }

  /** The consensus is empty exactly when every cell of the column is an end gap. */
  lemma ConsensusEmptyIff(cells: seq<Cell>)
    ensures ColumnConsensus(cells) == {} <==> forall k :: 0 <= k < |cells| ==> cells[k].endGap
  {
    var f := Counted(cells);
    if f != [] {
      var c :| c in f && multiset(f)[c] == MaxCount(f);
      assert c in ColumnConsensus(cells);
      assert multiset(cells)[Cell(c, false)] > 0;
      assert Cell(c, false) in cells;
    } else {
      forall k | 0 <= k < |cells| ensures cells[k].endGap {
        assert cells[k] in multiset(cells);
      }
    }
  }

  /** The consensus depends only on which cells the column holds, not on the order of the rows. */
  lemma ConsensusOrderFree(cells: seq<Cell>, other: seq<Cell>)
    requires multiset(cells) == multiset(other)
    ensures ColumnConsensus(cells) == ColumnConsensus(other)
  {
    var f, g := Counted(cells), Counted(other);
    assert multiset(f) == multiset(g) by {
      forall c ensures multiset(f)[c] == multiset(g)[c] { }
    }
    forall c ensures c in ConsensusOf(f) <==> c in ConsensusOf(g) {
      ConsensusChar(f, c);
      ConsensusChar(g, c);
    }
  }

  /**
   * The classes pushed for one cell: `aligned-char` with `mismatch` when the
   * consensus is non-empty and lacks the character, and `tie-match` when the
   * consensus has several members including it; or `end-gap` alone.
   */
  function Classify(ch: char, endGap: bool, consensus: set<char>): (tags: seq<Tag>)
    ensures |tags| > 0 && (tags[0] == AlignedChar || tags[0] == EndGap)
    ensures (AlignedChar in tags) != (EndGap in tags)
    ensures EndGap in tags <==> endGap
    ensures Mismatch in tags <==> !endGap && |consensus| > 0 && ch !in consensus
    ensures TieMatch in tags <==> !endGap && |consensus| > 1 && ch in consensus
    ensures !(Mismatch in tags && TieMatch in tags)
  {
    if endGap then [EndGap]
    else
      [AlignedChar] +
      (if |consensus| > 0 && ch !in consensus then [Mismatch] else []) +
      (if |consensus| > 1 && ch in consensus then [TieMatch] else [])
  }

  /** A count of `c` in the column that no other character's count exceeds. */
  ghost predicate MostFrequent(f: seq<char>, c: char)
  {
    forall d :: multiset(f)[d] <= multiset(f)[c]
  }

  /**
   * What the tags of an aligned cell say about its column: no `mismatch`
   * exactly when its character is a most frequent one, and `tie-match`
   * exactly when, besides, another character is just as frequent.
   */
  lemma AlignedCellTags(cells: seq<Cell>, r: nat)
    requires r < |cells| && !cells[r].endGap
    ensures var f := Counted(cells); var c := cells[r].ch;
      var tags := Classify(c, false, ConsensusOf(f));
      (Mismatch !in tags <==> MostFrequent(f, c)) &&
      (TieMatch in tags <==> MostFrequent(f, c) && exists d :: d != c && multiset(f)[d] == multiset(f)[c])
  {
    var f := Counted(cells);
    var c := cells[r].ch;
    var s := ConsensusOf(f);
    assert cells[r] == Cell(c, false);
    assert multiset(cells)[Cell(c, false)] > 0;
    ConsensusChar(f, c);
    assert c in s <==> MostFrequent(f, c);
    if c in s {
      TieIff(f, c);
    }
    var top :| top in f && multiset(f)[top] == MaxCount(f);
    assert top in s;
    assert |s| > 0;
    var tags := Classify(c, false, s);
    assert Mismatch !in tags <==> c in s;
    assert TieMatch in tags <==> c in s && |s| > 1;
  }

  /** Beside a consensus character, the consensus has another member iff another character is as frequent. */
  lemma TieIff(f: seq<char>, c: char)
    requires c in ConsensusOf(f)
    ensures |ConsensusOf(f)| > 1 <==> exists d :: d != c && multiset(f)[d] == multiset(f)[c]
  {
    var s := ConsensusOf(f);
    ConsensusChar(f, c);
    if |s| > 1 {
      assert |s - {c}| == |s| - 1;
      var d :| d in s - {c};
      ConsensusChar(f, d);
      assert d != c && multiset(f)[d] == multiset(f)[c];
    }
    if exists d :: d != c && multiset(f)[d] == multiset(f)[c] {
      var d :| d != c && multiset(f)[d] == multiset(f)[c];
      ConsensusChar(f, d);
      assert {c, d} <= s;
      Subset(s, {c, d});
    }
  }

  lemma Subset(s: set<char>, t: set<char>)
    requires t <= s
    ensures |t| <= |s|
  {
    assert s == t + (s - t);
  }
}
