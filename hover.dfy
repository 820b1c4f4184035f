/**
 * The position arithmetic of the `mouseover` handler in sabre.js: hovering
 * the cell at index `offLine` of a block row shows the cell's 1-based
 * alignment column, its position in the ungapped sequence and its character.
 */
module Hover {
  import opened Results
  import opened Gaps
  import opened Chunking
  import opened Consensus
  import opened Layout
  import Fasta

  /** The three numbers of the hover table that are computed rather than copied. */
  datatype HoverInfo = HoverInfo(posAlignment: nat, posSeq: nat, character: Option<char>)

  /** `s.substr(start, len)`: at most `len` characters of `s` from `start` on; empty from the end on. */
  function Substr(s: string, start: nat, len: nat): (r: string)
    ensures |r| == if start >= |s| then 0 else Min(len, |s| - start)
    ensures forall j :: 0 <= j < |r| ==> r[j] == s[start + j]
  {
    if start >= |s| then [] else s[start..Min(start + len, |s|)]
  }

  /**
   * The handler for row `rec` of block `block` at index `offLine`, where
   * `endGapCell` is whether the hovered cell carries the `end-gap` class.
   * `blockOffsets[block]` is read unguarded: a block with no snapshot is an
   * error (None). The character is `subseq[subseq.length - 1]`, undefined
   * (None) for an empty `subseq`.
   */
  function HoverPosition(blockOffsets: seq<Offsets>, n: nat, rec: Fasta.Record, block: nat, offLine: nat,
                         endGapCell: bool): (r: Option<HoverInfo>)
    ensures r.None? <==> block >= |blockOffsets|
  {
    if block >= |blockOffsets| then None
    else
      var offBlock := OffsetOf(blockOffsets[block], rec.id);
      var subseq := Substr(rec.aligned, block * n, offLine + 1);
      var posAlignment := block * n + offLine + 1;
      var posSeq := offBlock + |Ungapped(subseq)|;
      var posSeq' := if posSeq == |rec.ungapped| && endGapCell then posSeq + 1 else posSeq;
      Some(HoverInfo(posAlignment, posSeq', if subseq == [] then None else Some(subseq[|subseq| - 1])))
  }

  /**
   * On a cell of the row whose snapshot counts the residues before the
   * block: the alignment position is the column's 1-based index, the
   * character is the row's character there, and the sequence position is
   * the number of residues up to and including the column, one more for
   * an end gap after the last residue.
   */
  lemma HoverOnRow(blockOffsets: seq<Offsets>, n: nat, rec: Fasta.Record, block: nat, offLine: nat, endGapCell: bool)
    requires block < |blockOffsets| && block * n + offLine < |rec.aligned|
    requires rec.ungapped == Ungapped(rec.aligned)
    requires OffsetOf(blockOffsets[block], rec.id) == |Ungapped(rec.aligned[..block * n])|
    ensures var h := HoverPosition(blockOffsets, n, rec, block, offLine, endGapCell).value;
      var s := rec.aligned; var p := block * n + offLine;
      h.posAlignment == p + 1 && h.character == Some(s[p]) && h.posSeq == RowPosition(s, p, endGapCell)
  {
    var a: nat := block * n;
    SubstrAt(rec.aligned, a, offLine);
    var subseq := Substr(rec.aligned, a, offLine + 1);
    assert subseq != [] && subseq[|subseq| - 1] == rec.aligned[a + offLine];
  }

  /**
   * The sequence position shown for column `p` of the row `s`: the residues
   * up to and including `p`, one more for an end gap after the last residue.
   */
  function RowPosition(s: string, p: nat, endGapCell: bool): nat
    requires p < |s|
  {
    var upTo := |Ungapped(s[..p + 1])|;
    if endGapCell && upTo == |Ungapped(s)| then upTo + 1 else upTo
  }

  /** The `subseq` of a cell inside the row: the row from the block's start up to and including the cell. */
  lemma SubstrAt(s: string, a: nat, offLine: nat)
    requires a + offLine < |s|
    ensures Substr(s, a, offLine + 1) == s[a..a + offLine + 1]
    ensures |Ungapped(s[..a])| + |Ungapped(Substr(s, a, offLine + 1))| == |Ungapped(s[..a + offLine + 1])|
  {
    var p := a + offLine;
    var subseq := Substr(s, a, offLine + 1);
    assert subseq == s[a..p + 1];
    assert s[..p + 1] == s[..a] + subseq;
    UngappedAppend(s[..a], subseq);
  }

  /**
   * The sequence position shown for each kind of cell, when the cell is
   * tagged `end-gap` exactly as the layout tags it:
   * - for a residue, its 1-based position in the ungapped sequence;
   * - for a trailing end gap, one past the last residue;
   * - for a leading end gap of a row with residues after it, 0;
   * - for an internal gap, the number of residues before it, strictly
   *   between 0 and the sequence's length.
   */
  lemma HoverCases(blockOffsets: seq<Offsets>, n: nat, rec: Fasta.Record, block: nat, offLine: nat, endGapCell: bool)
    requires block < |blockOffsets| && block * n + offLine < |rec.aligned|
    requires rec.ungapped == Ungapped(rec.aligned)
    requires OffsetOf(blockOffsets[block], rec.id) == |Ungapped(rec.aligned[..block * n])|
    requires var s := rec.aligned; var p := block * n + offLine;
      endGapCell <==> s[p] == GAP && (GapsFrom(s, p) || |Ungapped(s[..p + 1])| == 0)
    ensures var s := rec.aligned; var p := block * n + offLine; var len := |rec.ungapped|;
      var h := HoverPosition(blockOffsets, n, rec, block, offLine, endGapCell).value;
      (s[p] != GAP ==> 1 <= h.posSeq <= len && rec.ungapped[h.posSeq - 1] == s[p]) &&
      (s[p] == GAP && GapsFrom(s, p) ==> h.posSeq == len + 1) &&
      (s[p] == GAP && !GapsFrom(s, p) && |Ungapped(s[..p + 1])| == 0 ==> h.posSeq == 0) &&
      (s[p] == GAP && !GapsFrom(s, p) && |Ungapped(s[..p + 1])| > 0 ==>
        0 < h.posSeq < len && h.posSeq == |Ungapped(s[..p])|)
  {
    var a: nat := block * n;
    HoverOnRow(blockOffsets, n, rec, block, offLine, endGapCell);
    PositionCases(rec.aligned, a + offLine, endGapCell);
  }

  /** `HoverCases` for column `p` of the row `s`, with the sequence position that `HoverOnRow` gives. */
  lemma PositionCases(s: string, p: nat, endGapCell: bool)
    requires p < |s|
    requires endGapCell <==> s[p] == GAP && (GapsFrom(s, p) || |Ungapped(s[..p + 1])| == 0)
    ensures var len := |Ungapped(s)|; var posSeq := RowPosition(s, p, endGapCell);
      (s[p] != GAP ==> 1 <= posSeq <= len && Ungapped(s)[posSeq - 1] == s[p]) &&
      (s[p] == GAP && GapsFrom(s, p) ==> posSeq == len + 1) &&
      (s[p] == GAP && !GapsFrom(s, p) && |Ungapped(s[..p + 1])| == 0 ==> posSeq == 0) &&
      (s[p] == GAP && !GapsFrom(s, p) && |Ungapped(s[..p + 1])| > 0 ==>
        0 < posSeq < len && posSeq == |Ungapped(s[..p])|)
  {
    UngappedPrefixStep(s, p);
    if s[p] != GAP {
      UngappedAt(s, p);
      PrefixAtMost(s, p + 1);
    } else if GapsFrom(s, p) {
      UngappedPrefixAll(s, p);
    } else {
      GapBeforeResidue(s, p);
    }
  }

  /** At most all residues of `s` lie in a prefix of it. */
  lemma PrefixAtMost(s: string, p: nat)
    requires p <= |s|
    ensures |Ungapped(s[..p])| <= |Ungapped(s)|
  {
    assert s == s[..p] + s[p..];
    UngappedAppend(s[..p], s[p..]);
  }

  /** A gap with a residue after it has fewer residues up to it than the whole row. */
  lemma GapBeforeResidue(s: string, p: nat)
    requires p < |s| && s[p] == GAP && !GapsFrom(s, p)
    ensures |Ungapped(s[..p + 1])| < |Ungapped(s)|
  {
    assert !GapsFrom(s, p + 1);
    UngappedPrefixAll(s, p + 1);
    PrefixAtMost(s, p + 1);
  }

  /**
   * Hovering cell `(k, offLine)` of block `block` of the layout meets what
   * `HoverCases` assumes: the snapshot counts the row's residues before the
   * block's first column, and the block tags the cell `end-gap` exactly
   * when it is a gap with no residue after it or none up to it.
   */
  lemma HoverInBlock(seqs: seq<Fasta.Record>, n: nat, blockOffsets: seq<Offsets>, k: nat, block: nat, offLine: nat)
    requires n > 0 && SameLength(seqs) && WellFormed(seqs) && block < NumBlocks(seqs, n)
    requires block < |blockOffsets| && IsSnapshot(blockOffsets[block], seqs, n, block)
    requires k < |seqs| && offLine < |BlockLines(seqs, n, block)[0]|
    ensures block * n + offLine < |seqs[k].aligned|
    ensures OffsetOf(blockOffsets[block], seqs[k].id) == |Ungapped(seqs[k].aligned[..block * n])|
    ensures var s := seqs[k].aligned; var p := block * n + offLine;
      p < |s| && (EndGap in BlockCell(seqs, n, block, blockOffsets[block], k, offLine) <==>
        s[p] == GAP && (GapsFrom(s, p) || |Ungapped(s[..p + 1])| == 0))
  {
    var s := seqs[k].aligned;
    BlockCellEndGap(seqs, n, block, blockOffsets[block], k, offLine);
    AllSameShape(seqs, n);
    BlockCellAt(s, n, block, offLine);
  }
}
