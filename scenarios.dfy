/**
 * Worked examples of the engine on small inputs: the parse of two records,
 * the blocks of a 7-column row at width 3, and a column whose internal gap
 * ties with a residue.
 */
module Scenarios {
  import opened Results
  import opened Gaps
  import opened Consensus
  import opened Chunking
  import opened Layout
  import Fasta

  /** The gap of `AC-GT` at index 2 follows residues of a row with 4 of them: internal. */
  lemma NotEndGap()
    ensures !IsEndGap("AC-GT", 2, 0, 4)
  {
    var line := "AC-GT";
    assert line[..2] == "AC";
    assert |Ungapped("AC")| <= 2;
    assert line[0] != GAP;
    assert FirstResidue(line) == Some(0);
  }

  /** Neither cell of the column is an end gap, so both characters are counted. */
  lemma TieCounted()
    ensures Counted([Cell('-', false), Cell('G', false)]) == ['-', 'G']
  {
    var cells := [Cell('-', false), Cell('G', false)];
    assert cells[..1] == [Cell('-', false)];
    assert [Cell('-', false)][..0] == [];
    assert Counted([Cell('-', false)]) == ['-'];
  }

  /** `-` and `G` occur once each. */
  lemma TieCounts(d: char)
    ensures multiset(['-', 'G'])[d] == if d == '-' || d == 'G' then 1 else 0
  {
    assert multiset(['-', 'G']) == multiset{'-'} + multiset{'G'};
  }

  /** Both characters share the largest count. */
  lemma TieConsensus()
    ensures ColumnConsensus([Cell('-', false), Cell('G', false)]) == {'-', 'G'}
  {
    TieCounted();
    var f: seq<char> := ['-', 'G'];
    forall c ensures c in ConsensusOf(f) <==> c == '-' || c == 'G' {
      ConsensusChar(f, c);
      TieCounts(c);
      forall d ensures multiset(f)[d] <= 1 { TieCounts(d); }
    }
  }

  /** A two-member consensus tags each of its members `tie-match`. */
  lemma TieTags()
    ensures Classify('-', false, {'-', 'G'}) == [AlignedChar, TieMatch]
    ensures Classify('G', false, {'-', 'G'}) == [AlignedChar, TieMatch]
  {
    assert |{'-', 'G'}| == 2;
  }

  /** The rows `AC-GT` and `ACGGT` as parsed records. */
  function TwoRows(): seq<Fasta.Record>
  {
    [Fasta.Record(">s0", "s0", "AC-GT", "ACGT"), Fasta.Record(">s1", "s1", "ACGGT", "ACGGT")]
  }

  /** At width 5 the two rows form a single block. */
  lemma TwoRowsBlock()
    ensures SameLength(TwoRows()) && NumBlocks(TwoRows(), 5) == 1
    ensures BlockLines(TwoRows(), 5, 0) == ["AC-GT", "ACGGT"]
  {
    var a: string := "AC-GT";
    var b: string := "ACGGT";
    assert a[..5] == a && a[5..] == [];
    assert b[..5] == b && b[5..] == [];
    assert Chunks(a, 5) == [a];
    assert Chunks(b, 5) == [b];
  }

  /** Column 2 of that block, with no offsets before it. */
  lemma TwoRowsColumn()
    ensures SameLength(TwoRows()) && NumBlocks(TwoRows(), 5) == 1
    ensures BlockColumn(TwoRows(), 5, 0, map[], 2) == [Cell('-', false), Cell('G', false)]
  {
    TwoRowsBlock();
    NotEndGap();
  }

  /**
   * Rows `AC-GT` and `ACGGT` at width 5: the gap in column 3 of the first row
   * is internal, so it is counted like a residue, the column's consensus is
   * the tie {'-', 'G'} and both cells are tagged `aligned-char tie-match`.
   */
  lemma InternalGapTies()
    ensures SameLength(TwoRows()) && NumBlocks(TwoRows(), 5) == 1
    ensures BlockCell(TwoRows(), 5, 0, map[], 0, 2) == [AlignedChar, TieMatch]
    ensures BlockCell(TwoRows(), 5, 0, map[], 1, 2) == [AlignedChar, TieMatch]
  {
    TwoRowsColumn();
    TieConsensus();
    TieTags();
  }

  /** Width 3 on a 7-column row: blocks of widths 3, 3 and 1, labelled 1-3, 4-6 and 7-7. */
  lemma SevenColumns()
    ensures Chunks("ACGT-AC", 3) == ["ACG", "T-A", "C"]
    ensures BlockColumns(0, 3, "ACG") == ColumnRange(1, 3)
    ensures BlockColumns(1, 3, "T-A") == ColumnRange(4, 6)
    ensures BlockColumns(2, 3, "C") == ColumnRange(7, 7)
  {
    var s: string := "ACGT-AC";
    assert s[..3] == "ACG" && s[3..] == "T-AC";
    assert "T-AC"[..3] == "T-A" && "T-AC"[3..] == "C";
    assert "C"[..1] == "C" && "C"[1..] == [];
  }

  /** One section per header, each with the line after it. */
  lemma TwoSections()
    ensures Fasta.Sections([">s1", "ACGT", ">s2", "AC-T"]) ==
      [Fasta.Section(">s1", "ACGT"), Fasta.Section(">s2", "AC-T")]
  {
    var lines: seq<string> := [">s1", "ACGT", ">s2", "AC-T"];
    assert lines[1..] == ["ACGT", ">s2", "AC-T"];
    assert lines[1..][1..] == [">s2", "AC-T"];
    assert lines[1..][1..][1..] == ["AC-T"];
    assert ["AC-T"][1..] == [];
    assert Fasta.Body(["AC-T"]) == "AC-T";
    assert Fasta.Body([">s2", "AC-T"]) == "";
    assert Fasta.Body(["ACGT", ">s2", "AC-T"]) == "ACGT";
  }

  /** A header `>` followed by a two-character word has that word as its id. */
  lemma WordOf(h: string, w: string)
    requires |h| == 3 && h[0] == '>' && h[1..] == w
    requires !Fasta.IsSpace(w[0]) && !Fasta.IsSpace(w[1])
    ensures Fasta.HeaderId(h) == Some(w)
  {
    assert w[1..][1..] == [];
    assert Fasta.Span(w, true) == 0;
    assert w[0..] == w;
    assert Fasta.Span(w[1..], false) == 1;
    assert Fasta.Span(w, false) == 2;
    assert w[0..2] == w;
  }

  /** The ungapped forms of the two sequences. */
  lemma UngappedScenario()
    ensures Ungapped("ACGT") == "ACGT" && Ungapped("AC-T") == "ACT"
  {
    UngappedNoGap("ACGT");
    var s: string := "AC-T";
    assert s == "AC-" + ['T'];
    assert "AC-" == "AC" + ['-'];
    UngappedSnoc("AC-", 'T');
    UngappedSnoc("AC", '-');
    UngappedNoGap("AC");
  }

  /** Both sections make records. */
  lemma TwoMade()
    ensures Fasta.MakeRecord(Fasta.Section(">s1", "ACGT")) == Ok(Fasta.Record(">s1", "s1", "ACGT", "ACGT"))
    ensures Fasta.MakeRecord(Fasta.Section(">s2", "AC-T")) == Ok(Fasta.Record(">s2", "s2", "AC-T", "ACT"))
  {
    WordOf(">s1", "s1");
    WordOf(">s2", "s2");
    UngappedScenario();
  }

  /** Two records, the second with a gap: ids `s1` and `s2`, of 4 and 3 residues. */
  lemma TwoRecords()
    ensures Fasta.ParseLines([">s1", "ACGT", ">s2", "AC-T"]) ==
      Ok([Fasta.Record(">s1", "s1", "ACGT", "ACGT"), Fasta.Record(">s2", "s2", "AC-T", "ACT")])
  {
    var x1, x2 := Fasta.Section(">s1", "ACGT"), Fasta.Section(">s2", "AC-T");
    TwoSections();
    assert Fasta.Emitted([x1, x2]) == [x1, x2];
    TwoSectionRecords(x1, x2);
  }

  /** Text that starts with a non-space character loses only its trailing whitespace. */
  lemma TrimNoLead(t: string)
    requires t != [] && !Fasta.IsSpace(t[0])
    ensures Fasta.Trim(t) == Fasta.TrimEnd(t)
  {
    assert Fasta.Span(t, true) == 0;
    assert t[0..] == t;
  }

  /** One trailing newline after a non-space character is all that `TrimEnd` removes. */
  lemma TrimEndNewline(t: string)
    requires |t| >= 2 && t[|t| - 1] == Fasta.NEWLINE && !Fasta.IsSpace(t[|t| - 2])
    ensures Fasta.TrimEnd(t) == t[..|t| - 1]
  {
    var u := t[..|t| - 1];
    assert u[|u| - 1] == t[|t| - 2];
  }

  /** The four lines joined with '\n'. */
  lemma TwoRecordsJoin()
    ensures Fasta.JoinLines([">s1", "ACGT", ">s2", "AC-T"]) == ">s1\nACGT\n>s2\nAC-T"
  {
    var ls: seq<string> := [">s1", "ACGT", ">s2", "AC-T"];
    assert ls[1..][1..][1..] == ["AC-T"];
    assert Fasta.JoinLines(ls[1..][1..]) == ">s2\nAC-T";
    assert Fasta.JoinLines(ls[1..]) == "ACGT\n>s2\nAC-T";
  }

  /** The trimmed text is the four lines joined. */
  lemma TwoRecordsTrim(t: string)
    requires t == ">s1\nACGT\n>s2\nAC-T\n"
    ensures Fasta.Trim(t) == Fasta.JoinLines([">s1", "ACGT", ">s2", "AC-T"])
  {
    TrimNoLead(t);
    TrimEndNewline(t);
    assert t[..|t| - 1] == ">s1\nACGT\n>s2\nAC-T";
    TwoRecordsJoin();
  }

  /** Splitting the joined lines gives them back. */
  lemma TwoRecordsSplit()
    ensures Fasta.SplitLines(Fasta.JoinLines([">s1", "ACGT", ">s2", "AC-T"])) == [">s1", "ACGT", ">s2", "AC-T"]
  {
    var ls: seq<string> := [">s1", "ACGT", ">s2", "AC-T"];
    assert Fasta.NEWLINE !in ls[0] && Fasta.NEWLINE !in ls[1] && Fasta.NEWLINE !in ls[2] && Fasta.NEWLINE !in ls[3];
    Fasta.SplitJoin(ls);
  }

  /** The text itself, with its trailing newline: `trim`, `split` and the loop give the two records. */
  lemma TwoRecordsText()
    ensures Fasta.Parse(">s1\nACGT\n>s2\nAC-T\n") ==
      Ok([Fasta.Record(">s1", "s1", "ACGT", "ACGT"), Fasta.Record(">s2", "s2", "AC-T", "ACT")])
  {
    var t := ">s1\nACGT\n>s2\nAC-T\n";
    TwoRecordsSplit();
    TwoRecordsTrim(t);
    TwoRecords();
    assert Fasta.Parse(t) == Fasta.ParseLines(Fasta.SplitLines(Fasta.Trim(t)));
  }

  /** The records of the two sections. */
  lemma TwoSectionRecords(x1: Fasta.Section, x2: Fasta.Section)
    requires x1 == Fasta.Section(">s1", "ACGT") && x2 == Fasta.Section(">s2", "AC-T")
    ensures Fasta.ToRecords([x1, x2]) ==
      Ok([Fasta.Record(">s1", "s1", "ACGT", "ACGT"), Fasta.Record(">s2", "s2", "AC-T", "ACT")])
  {
    var r1 := Fasta.Record(">s1", "s1", "ACGT", "ACGT");
    var r2 := Fasta.Record(">s2", "s2", "AC-T", "ACT");
    TwoMade();
    assert [] + [x1] == [x1];
    assert Fasta.Made([]) == [];
    assert Fasta.ToRecords([]) == Ok([]);
    Fasta.ToRecordsSnoc([], x1);
    assert [] + [r1] == [r1];
    assert Fasta.ToRecords([x1]) == Ok([r1]);
    assert [x1] + [x2] == [x1, x2];
    Fasta.ToRecordsSnoc([x1], x2);
    assert [r1] + [r2] == [r1, r2];
  }

  /** Empty input has no header, so there are no sequences. */
  lemma EmptyInput()
    ensures Fasta.Parse("") == Ok([])
  {
    assert Fasta.Trim("") == "";
    assert Fasta.SplitLines("") == [""];
    assert Fasta.Sections([""]) == [];
  }
}
