/**
 * The block loop of `alignmentHtml` in sabre.js, without the HTML: every row
 * is cut into width-`n` chunks, block `i` holds chunk `i` of every row, its
 * cells are tagged against the consensus of their column, its rows are
 * labelled with sequence positions, and the running per-sequence offsets are
 * snapshotted into `blockOffsets[i]` before the block updates them.
 */
module Layout {
  import opened Gaps
  import opened Chunking
  import opened Consensus
  import Fasta

  /** The object `offset` (and each `blockOffsets[i]`): sequence id to residues shown so far. */
  type Offsets = map<string, nat>

  /** `offset[id] || 0`: an id that is absent reads as 0, the same as a stored 0. */
  function OffsetOf(m: Offsets, id: string): nat
  {
    if id in m then m[id] else 0
  }

  /** The rows of an alignment have one length; otherwise `_.zip` pads with `undefined`. */
  predicate SameLength(seqs: seq<Fasta.Record>)
  {
    forall k :: 0 <= k < |seqs| ==> |seqs[k].aligned| == |seqs[0].aligned|
  }

  /** `offset` is keyed by id, so the rows need distinct ids. */
  predicate DistinctIds(seqs: seq<Fasta.Record>)
  {
    forall j, k :: 0 <= j < |seqs| && 0 <= k < |seqs| && j != k ==> seqs[j].id != seqs[k].id
  }

  /** Records as `parseMultiFasta` builds them: `ungapped` is `seq` without gaps. */
  predicate WellFormed(seqs: seq<Fasta.Record>)
  {
    forall k :: 0 <= k < |seqs| ==> seqs[k].ungapped == Ungapped(seqs[k].aligned)
  }

  function Ids(seqs: seq<Fasta.Record>): set<string>
  {
    set k | 0 <= k < |seqs| :: seqs[k].id
  }

  /** The number of blocks, `_.zip(...chunkedSequences).length`. */
  function NumBlocks(seqs: seq<Fasta.Record>, n: nat): nat
    requires n > 0
  {
    if seqs == [] then 0 else |Chunks(seqs[0].aligned, n)|
  }

  lemma AllSameShape(seqs: seq<Fasta.Record>, n: nat)
    requires n > 0 && SameLength(seqs)
    ensures forall k :: 0 <= k < |seqs| ==> |Chunks(seqs[k].aligned, n)| == NumBlocks(seqs, n)
    ensures forall k, i :: 0 <= k < |seqs| && 0 <= i < NumBlocks(seqs, n) ==>
      |Chunks(seqs[k].aligned, n)[i]| == |Chunks(seqs[0].aligned, n)[i]|
  {
    forall k | 0 <= k < |seqs| ensures |Chunks(seqs[k].aligned, n)| == NumBlocks(seqs, n) {
      ChunksSameShape(seqs[0].aligned, seqs[k].aligned, n, 0);
    }
    forall k, i | 0 <= k < |seqs| && 0 <= i < NumBlocks(seqs, n)
      ensures |Chunks(seqs[k].aligned, n)[i]| == |Chunks(seqs[0].aligned, n)[i]|
    {
      ChunksSameShape(seqs[0].aligned, seqs[k].aligned, n, i);
    }
  }

  /** `block`: chunk `i` of every row, in row order. */
  function BlockLines(seqs: seq<Fasta.Record>, n: nat, i: nat): (lines: seq<string>)
    requires n > 0 && SameLength(seqs) && i < NumBlocks(seqs, n)
    ensures |lines| == |seqs|
    ensures forall k :: 0 <= k < |seqs| ==> i < |Chunks(seqs[k].aligned, n)| && lines[k] == Chunks(seqs[k].aligned, n)[i]
    ensures forall k :: 0 <= k < |seqs| ==> 0 < |lines[k]| == |lines[0]| <= n
  {
    AllSameShape(seqs, n);
    ChunksShape(seqs[0].aligned, n);
    seq(|seqs|, k requires 0 <= k < |seqs| => Chunks(seqs[k].aligned, n)[i])
  }

  /** Residues of `s` in the columns before block `i`. */
  function PrefixLen(s: string, n: nat, i: nat): nat
  {
    |Ungapped(s[..Min(i * n, |s|)])|
  }

  /** Blocks `0..i-1` cover the first `i * n` columns, or all of them from the last block on. */
  lemma ChunksPrefix(s: string, n: nat, i: nat)
    requires n > 0 && i <= |Chunks(s, n)|
    ensures Concat(Chunks(s, n)[..i]) == s[..Min(i * n, |s|)]
  {
    if i < |Chunks(s, n)| {
      ChunkPrefix(s, n, i);
      ChunkSlice(s, n, i);
    } else {
      ChunksAll(s, n);
      ChunksBounds(s, n);
    }
  }

  /** That count is the total ungapped length of the chunks of blocks `0..i-1`. */
  lemma PrefixLenChunks(s: string, n: nat, i: nat)
    requires n > 0 && i <= |Chunks(s, n)|
    ensures PrefixLen(s, n, i) == |Ungapped(Concat(Chunks(s, n)[..i]))|
  {
    ChunksPrefix(s, n, i);
  }

  /** Each block adds the residues of its chunk. */
  lemma PrefixLenStep(s: string, n: nat, i: nat)
    requires n > 0 && i < |Chunks(s, n)|
    ensures PrefixLen(s, n, i + 1) == PrefixLen(s, n, i) + |Ungapped(Chunks(s, n)[i])|
  {
    var cs := Chunks(s, n);
    ChunksPrefix(s, n, i);
    ChunksPrefix(s, n, i + 1);
    assert cs[..i + 1] == cs[..i] + [cs[i]];
    ConcatAppend(cs[..i], [cs[i]]);
    assert Concat([cs[i]]) == cs[i];
    UngappedAppend(Concat(cs[..i]), cs[i]);
  }

  /** After the last block every residue has been counted. */
  lemma PrefixLenEnd(s: string, n: nat)
    requires n > 0
    ensures PrefixLen(s, n, |Chunks(s, n)|) == |Ungapped(s)|
  {
    ChunksPrefix(s, n, |Chunks(s, n)|);
    ChunksAll(s, n);
  }

  /**
   * `blockOffsets[i]` as it must be: every row's id reads the residues of its
   * chunks before block `i`, and only ids of rows with such residues are
   * stored.
   */
  ghost predicate IsSnapshot(m: Offsets, seqs: seq<Fasta.Record>, n: nat, i: nat)
  {
    (forall k :: 0 <= k < |seqs| ==> OffsetOf(m, seqs[k].id) == PrefixLen(seqs[k].aligned, n, i)) &&
    (forall id :: id in m ==> m[id] > 0 && id in Ids(seqs))
  }

  /** A snapshot is determined by the alignment and the block: two of them are the same map. */
  lemma SnapshotUnique(m: Offsets, m': Offsets, seqs: seq<Fasta.Record>, n: nat, i: nat)
    requires IsSnapshot(m, seqs, n, i) && IsSnapshot(m', seqs, n, i)
    ensures m == m'
  {
    forall id | id in m ensures id in m' && m'[id] == m[id] {
      var k :| 0 <= k < |seqs| && seqs[k].id == id;
      assert OffsetOf(m, id) == OffsetOf(m', id);
    }
    forall id | id in m' ensures id in m {
      var k :| 0 <= k < |seqs| && seqs[k].id == id;
      assert OffsetOf(m, id) == OffsetOf(m', id);
    }
  }

  /** One cell per row of column `c`, with whether `isEndGap` holds for it given the offsets before the block. */
  function Column(lines: seq<string>, seqs: seq<Fasta.Record>, offset: Offsets, c: nat): (cells: seq<Cell>)
    requires |lines| == |seqs|
    requires forall k :: 0 <= k < |lines| ==> c < |lines[k]|
    ensures |cells| == |lines|
  {
    seq(|lines|, k requires 0 <= k < |lines| =>
      Cell(lines[k][c], IsEndGap(lines[k], c, OffsetOf(offset, seqs[k].id), |seqs[k].ungapped|)))
  }

  /** The classes of `bases[[r, c]]`. */
  function CellTags(lines: seq<string>, seqs: seq<Fasta.Record>, offset: Offsets, r: nat, c: nat): seq<Tag>
    requires |lines| == |seqs| && r < |lines|
    requires forall k :: 0 <= k < |lines| ==> c < |lines[k]|
  {
    var column := Column(lines, seqs, offset, c);
    Classify(column[r].ch, column[r].endGap, ColumnConsensus(column))
  }

  /**
   * The map the nested loops have built once every row of the columns before
   * `cols`, and the first `rows` rows of column `cols`, have been stored:
   * each store `bases[[r, c]] = cell(r, c)` in loop order.
   */
  function Grid(nrows: nat, cols: nat, rows: nat, cell: (nat, nat) -> seq<Tag>): map<(nat, nat), seq<Tag>>
    requires rows <= nrows
    decreases cols, rows
  {
    if rows > 0 then Grid(nrows, cols, rows - 1, cell)[(rows - 1, cols) := cell(rows - 1, cols)]
    else if cols > 0 then Grid(nrows, cols - 1, nrows, cell)
    else map[]
  }

  /** The stores so far cover exactly the cells visited, each holding its own value. */
  lemma {:induction false} GridAt(nrows: nat, cols: nat, rows: nat, cell: (nat, nat) -> seq<Tag>, r: nat, c: nat)
    requires rows <= nrows
    ensures (r, c) in Grid(nrows, cols, rows, cell) <==> r < nrows && (c < cols || (c == cols && r < rows))
    ensures (r, c) in Grid(nrows, cols, rows, cell) ==> Grid(nrows, cols, rows, cell)[(r, c)] == cell(r, c)
    decreases cols, rows
  {
    if rows > 0 {
      GridAt(nrows, cols, rows - 1, cell, r, c);
    } else if cols > 0 {
      GridAt(nrows, cols - 1, nrows, cell, r, c);
    }
  }

  /** Once every column before `cols` is done, the grid holds exactly the cells of those columns. */
  lemma GridFull(nrows: nat, cols: nat, cell: (nat, nat) -> seq<Tag>)
    ensures forall r: nat, c: nat :: (r, c) in Grid(nrows, cols, 0, cell) <==> r < nrows && c < cols
    ensures forall r: nat, c: nat :: r < nrows && c < cols ==> Grid(nrows, cols, 0, cell)[(r, c)] == cell(r, c)
  {
    forall r: nat, c: nat ensures (r, c) in Grid(nrows, cols, 0, cell) <==> r < nrows && c < cols {
      GridAt(nrows, cols, 0, cell, r, c);
    }
    forall r: nat, c: nat | r < nrows && c < cols ensures Grid(nrows, cols, 0, cell)[(r, c)] == cell(r, c) {
      GridAt(nrows, cols, 0, cell, r, c);
    }
  }

  /** `CellTags` on the block's cells; nothing outside them is ever looked up. */
  function CellFn(lines: seq<string>, seqs: seq<Fasta.Record>, offset: Offsets, w: nat): (nat, nat) -> seq<Tag>
    requires |lines| == |seqs|
    requires forall k :: 0 <= k < |lines| ==> w <= |lines[k]|
  {
    (r: nat, c: nat) => if r < |lines| && c < w then CellTags(lines, seqs, offset, r, c) else []
  }

  lemma CellFnAt(lines: seq<string>, seqs: seq<Fasta.Record>, offset: Offsets, w: nat, r: nat, c: nat)
    requires |lines| == |seqs|
    requires forall k :: 0 <= k < |lines| ==> w <= |lines[k]|
    requires r < |lines| && c < w
    ensures CellFn(lines, seqs, offset, w)(r, c) ==
      Classify(lines[r][c], IsEndGap(lines[r], c, OffsetOf(offset, seqs[r].id), |seqs[r].ungapped|),
        ColumnConsensus(Column(lines, seqs, offset, c)))
  {
  }

  /** `bases` of a block whose first `w` columns are classified: one entry per cell, keyed `(row, column)`. */
  function BlockTags(lines: seq<string>, seqs: seq<Fasta.Record>, offset: Offsets, w: nat): (bases: map<(nat, nat), seq<Tag>>)
    requires |lines| == |seqs|
    requires forall k :: 0 <= k < |lines| ==> w <= |lines[k]|
    ensures forall r: nat, c: nat :: (r, c) in bases <==> r < |lines| && c < w
    ensures forall r: nat, c: nat :: r < |lines| && c < w ==> bases[(r, c)] == CellTags(lines, seqs, offset, r, c)
  {
    var cell := CellFn(lines, seqs, offset, w);
    GridFull(|lines|, w, cell);
    Grid(|lines|, w, 0, cell)
  }

  /**
   * The `colIdx` loop of a block: for every column the consensus of its
   * cells that are not end gaps, then the classes of each of its cells.
   */
  method ClassifyBlock(lines: seq<string>, seqs: seq<Fasta.Record>, offset: Offsets, widthAlign: nat)
    returns (bases: map<(nat, nat), seq<Tag>>)
    requires |lines| == |seqs|
    requires forall k :: 0 <= k < |lines| ==> widthAlign <= |lines[k]|
    ensures bases == BlockTags(lines, seqs, offset, widthAlign)
  {
    ghost var cell := CellFn(lines, seqs, offset, widthAlign);
    bases := map[];
    for colIdx := 0 to widthAlign
      invariant bases == Grid(|lines|, colIdx, 0, cell)
    {
      var column := Column(lines, seqs, offset, colIdx);
      var consensuses := ColumnConsensus(column);
      bases := ClassifyColumn(lines, seqs, offset, widthAlign, colIdx, consensuses, bases);
    }
  }

  /** The `rowIdx` loop: the classes of every cell of column `colIdx`, given the column's consensus. */
  method ClassifyColumn(lines: seq<string>, seqs: seq<Fasta.Record>, offset: Offsets, widthAlign: nat, colIdx: nat,
                        consensuses: set<char>, bases0: map<(nat, nat), seq<Tag>>)
    returns (bases: map<(nat, nat), seq<Tag>>)
    requires |lines| == |seqs|
    requires forall k :: 0 <= k < |lines| ==> widthAlign <= |lines[k]|
    requires colIdx < widthAlign
    requires consensuses == ColumnConsensus(Column(lines, seqs, offset, colIdx))
    requires bases0 == Grid(|lines|, colIdx, 0, CellFn(lines, seqs, offset, widthAlign))
    ensures bases == Grid(|lines|, colIdx, |lines|, CellFn(lines, seqs, offset, widthAlign))
  {
    ghost var cell := CellFn(lines, seqs, offset, widthAlign);
    bases := bases0;
    for rowIdx := 0 to |lines|
      invariant bases == Grid(|lines|, colIdx, rowIdx, cell)
    {
      var endGap := IsEndGap(lines[rowIdx], colIdx, OffsetOf(offset, seqs[rowIdx].id), |seqs[rowIdx].ungapped|);
      var tags := Classify(lines[rowIdx][colIdx], endGap, consensuses);
      GridStore(lines, seqs, offset, widthAlign, colIdx, rowIdx, tags);
      bases := bases[(rowIdx, colIdx) := tags];
    }
  }

  /** One store of the `rowIdx` loop extends the grid by the classes of cell `(rowIdx, colIdx)`. */
  lemma GridStore(lines: seq<string>, seqs: seq<Fasta.Record>, offset: Offsets, widthAlign: nat, colIdx: nat, rowIdx: nat,
                  tags: seq<Tag>)
    requires |lines| == |seqs|
    requires forall k :: 0 <= k < |lines| ==> widthAlign <= |lines[k]|
    requires colIdx < widthAlign && rowIdx < |lines|
    requires tags == Classify(lines[rowIdx][colIdx],
      IsEndGap(lines[rowIdx], colIdx, OffsetOf(offset, seqs[rowIdx].id), |seqs[rowIdx].ungapped|),
      ColumnConsensus(Column(lines, seqs, offset, colIdx)))
    ensures var cell := CellFn(lines, seqs, offset, widthAlign);
      Grid(|lines|, colIdx, rowIdx + 1, cell) == Grid(|lines|, colIdx, rowIdx, cell)[(rowIdx, colIdx) := tags]
  {
    CellFnAt(lines, seqs, offset, widthAlign, rowIdx, colIdx);
  }

  /** The `[start]` and `[end]` position labels of a row. */
  datatype RowLabel = RowLabel(start: nat, end: nat)

  /**
   * The labels of a row whose sequence had `off` residues in earlier blocks
   * and has `len` in this one: a row with residues is labelled with their
   * first and last 1-based position; a row without residues gets `0 0` before
   * the sequence's first residue and the next position twice after it.
   */
  function RowLabelOf(off: nat, len: nat): (rl: RowLabel)
    ensures len > 0 ==> rl.start == off + 1 && rl.end == off + len
    ensures len == 0 ==> rl.start == rl.end
    ensures len == 0 ==> (rl.start == 0 <==> off == 0)
    ensures len == 0 && off > 0 ==> rl.start == off + 1
  {
    var start := if off > 0 then off + 1 else if len > 0 then 1 else 0;
    RowLabel(start, start + len - (if len > 0 then 1 else 0))
  }

  /**
   * The rows' `map` callback: each row's labels from its id's offset before
   * the block, then that offset advanced by the row's residues (stored only
   * once it is positive).
   */
  method LabelRows(lines: seq<string>, seqs: seq<Fasta.Record>, offset0: Offsets)
    returns (labels: seq<RowLabel>, offset: Offsets)
    requires |lines| == |seqs| && DistinctIds(seqs)
    ensures |labels| == |lines|
    ensures forall j :: 0 <= j < |lines| ==>
      labels[j] == RowLabelOf(OffsetOf(offset0, seqs[j].id), |Ungapped(lines[j])|)
    ensures forall j :: 0 <= j < |lines| ==>
      OffsetOf(offset, seqs[j].id) == OffsetOf(offset0, seqs[j].id) + |Ungapped(lines[j])|
    ensures forall id :: id in offset && id !in offset0 ==> id in Ids(seqs)
    ensures forall id :: id !in Ids(seqs) ==> OffsetOf(offset, id) == OffsetOf(offset0, id)
    ensures (forall id :: id in offset0 ==> offset0[id] > 0) ==> forall id :: id in offset ==> offset[id] > 0
  {
    offset := offset0;
    labels := [];
    for j := 0 to |lines|
      invariant |labels| == j
      invariant forall q :: 0 <= q < j ==>
        labels[q] == RowLabelOf(OffsetOf(offset0, seqs[q].id), |Ungapped(lines[q])|)
      invariant forall q :: 0 <= q < j ==>
        OffsetOf(offset, seqs[q].id) == OffsetOf(offset0, seqs[q].id) + |Ungapped(lines[q])|
      invariant forall q :: j <= q < |lines| ==> OffsetOf(offset, seqs[q].id) == OffsetOf(offset0, seqs[q].id)
      invariant forall id :: id in offset && id !in offset0 ==> id in Ids(seqs)
      invariant forall id :: id !in Ids(seqs) ==> OffsetOf(offset, id) == OffsetOf(offset0, id)
      invariant (forall id :: id in offset0 ==> offset0[id] > 0) ==> forall id :: id in offset ==> offset[id] > 0
    {
      var id := seqs[j].id;
      var subseq := Ungapped(lines[j]);
      ghost var before := offset;
      var start := if OffsetOf(offset, id) > 0 then offset[id] + 1 else 0;
      if OffsetOf(offset, id) > 0 {
        offset := offset[id := offset[id] + |subseq|];
      } else if |subseq| > 0 {
        start := 1;
        offset := offset[id := |subseq|];
      }
      var end := start + |subseq| - (if |subseq| > 0 then 1 else 0);
      OffsetAdvance(before, offset, id, |subseq|);
      assert id in Ids(seqs);
      assert forall q :: 0 <= q < |lines| && q != j ==> seqs[q].id != id;
      assert RowLabel(start, end) == RowLabelOf(OffsetOf(before, id), |subseq|);
      labels := labels + [RowLabel(start, end)];
    }
  }

  /** One row's update of `offset`: its id advances by the row's residues and no other entry changes. */
  lemma OffsetAdvance(m: Offsets, m': Offsets, id: string, len: nat)
    requires m' == if OffsetOf(m, id) > 0 then m[id := m[id] + len] else if len > 0 then m[id := len] else m
    ensures OffsetOf(m', id) == OffsetOf(m, id) + len
    ensures forall x :: x != id ==> OffsetOf(m', x) == OffsetOf(m, x)
    ensures forall x :: x in m' ==> x in m || x == id
    ensures (forall x :: x in m ==> m[x] > 0) ==> forall x :: x in m' ==> m'[x] > 0
  {
  }

  /** The labels of every row of a block, from the offsets before it. */
  function RowLabels(lines: seq<string>, seqs: seq<Fasta.Record>, offset: Offsets): (labels: seq<RowLabel>)
    requires |lines| == |seqs|
    ensures |labels| == |lines|
  {
    seq(|lines|, j requires 0 <= j < |lines| => RowLabelOf(OffsetOf(offset, seqs[j].id), |Ungapped(lines[j])|))
  }

  /** What one alignment block shows: its column label, the classes of its cells and its rows' position labels. */
  datatype Block = Block(columns: ColumnRange, bases: map<(nat, nat), seq<Tag>>, rows: seq<RowLabel>)

  /** Block `i` of the alignment, given the offsets `offset` before it. */
  function BlockAt(seqs: seq<Fasta.Record>, n: nat, i: nat, offset: Offsets): Block
    requires n > 0 && SameLength(seqs) && i < NumBlocks(seqs, n)
  {
    var lines := BlockLines(seqs, n, i);
    Block(BlockColumns(i, n, lines[0]), BlockTags(lines, seqs, offset, Min(n, |lines[0]|)), RowLabels(lines, seqs, offset))
  }

  /** The offsets after block `i` are the snapshot of block `i + 1`. */
  lemma SnapshotStep(m: Offsets, m': Offsets, seqs: seq<Fasta.Record>, n: nat, i: nat)
    requires n > 0 && SameLength(seqs) && i < NumBlocks(seqs, n)
    requires IsSnapshot(m, seqs, n, i)
    requires forall j :: 0 <= j < |seqs| ==>
      OffsetOf(m', seqs[j].id) == OffsetOf(m, seqs[j].id) + |Ungapped(BlockLines(seqs, n, i)[j])|
    requires forall id :: id in m' && id !in m ==> id in Ids(seqs)
    requires forall id :: id in m' ==> m'[id] > 0
    ensures IsSnapshot(m', seqs, n, i + 1)
  {
    AllSameShape(seqs, n);
    forall j | 0 <= j < |seqs| ensures OffsetOf(m', seqs[j].id) == PrefixLen(seqs[j].aligned, n, i + 1) {
      PrefixLenStep(seqs[j].aligned, n, i);
    }
  }

  /**
   * The block loop of `alignmentHtml(sequences, n)`: `chunked` on every row,
   * then for each block the snapshot `blockOffsets[i]` of `offset` and the
   * block itself, which advances `offset`. `offset` is returned as it is
   * after the last block.
   */
  method AlignmentLayout(seqs: seq<Fasta.Record>, n: nat)
    returns (blocks: seq<Block>, blockOffsets: seq<Offsets>, offset: Offsets)
    requires n > 0 && SameLength(seqs) && DistinctIds(seqs)
    ensures |blocks| == NumBlocks(seqs, n) && |blockOffsets| == |blocks|
    ensures forall i :: 0 <= i < |blocks| ==> IsSnapshot(blockOffsets[i], seqs, n, i)
    ensures forall i :: 0 <= i < |blocks| ==> blocks[i] == BlockAt(seqs, n, i, blockOffsets[i])
    ensures IsSnapshot(offset, seqs, n, |blocks|)
  {
    var chunkedSequences := ChunkRows(seqs, n);
    var count := if seqs == [] then 0 else |chunkedSequences[0]|;
    assert count == NumBlocks(seqs, n);
    offset := map[];
    blockOffsets := [];
    blocks := [];
    for i := 0 to count
      invariant |blocks| == i && |blockOffsets| == i
      invariant IsSnapshot(offset, seqs, n, i)
      invariant forall b :: 0 <= b < i ==> IsSnapshot(blockOffsets[b], seqs, n, b)
      invariant forall b :: 0 <= b < i ==> blocks[b] == BlockAt(seqs, n, b, blockOffsets[b])
    {
      ghost var prevOffsets, prevBlocks := blockOffsets, blocks;
      blockOffsets := blockOffsets + [offset];
      var block, after := LayoutBlock(seqs, n, i, chunkedSequences, offset);
      blocks := blocks + [block];
      forall b | 0 <= b < i + 1
        ensures IsSnapshot(blockOffsets[b], seqs, n, b) && blocks[b] == BlockAt(seqs, n, b, blockOffsets[b])
      {
        if b < i {
          assert blockOffsets[b] == prevOffsets[b] && blocks[b] == prevBlocks[b];
        }
      }
      offset := after;
    }
  }

  /** `sequences.map(s => chunked(s.seq, n))`: the chunks of every row, in row order. */
  method ChunkRows(seqs: seq<Fasta.Record>, n: nat) returns (chunkedSequences: seq<seq<string>>)
    requires n > 0
    ensures |chunkedSequences| == |seqs|
    ensures forall q :: 0 <= q < |seqs| ==> chunkedSequences[q] == Chunks(seqs[q].aligned, n)
  {
    chunkedSequences := [];
    for k := 0 to |seqs|
      invariant |chunkedSequences| == k
      invariant forall q :: 0 <= q < k ==> chunkedSequences[q] == Chunks(seqs[q].aligned, n)
    {
      var chunks := Chunked(seqs[k].aligned, n);
      chunkedSequences := chunkedSequences + [chunks];
    }
  }

  /**
   * The body of the `forEach` over the zipped blocks, for block `i`: its
   * rows, its column label, the classes of its cells (from the offsets
   * before it) and its row labels, which advance the offsets.
   */
  method LayoutBlock(seqs: seq<Fasta.Record>, n: nat, i: nat, chunkedSequences: seq<seq<string>>, offset: Offsets)
    returns (blk: Block, after: Offsets)
    requires n > 0 && SameLength(seqs) && DistinctIds(seqs) && i < NumBlocks(seqs, n)
    requires |chunkedSequences| == |seqs|
    requires forall q :: 0 <= q < |seqs| ==> chunkedSequences[q] == Chunks(seqs[q].aligned, n)
    requires IsSnapshot(offset, seqs, n, i)
    ensures blk == BlockAt(seqs, n, i, offset)
    ensures IsSnapshot(after, seqs, n, i + 1)
  {
    var block := ZipAt(seqs, n, i, chunkedSequences);
    var columns := BlockColumns(i, n, block[0]);
    var widthAlign := Min(n, |block[0]|);
    var bases := ClassifyBlock(block, seqs, offset, widthAlign);
    var labels;
    labels, after := LabelRows(block, seqs, offset);
    assert labels == RowLabels(block, seqs, offset);
    SnapshotStep(offset, after, seqs, n, i);
    blk := Block(columns, bases, labels);
  }

  /** Entry `i` of `_.zip(...chunkedSequences)`: chunk `i` of every row. */
  method ZipAt(seqs: seq<Fasta.Record>, n: nat, i: nat, chunkedSequences: seq<seq<string>>) returns (block: seq<string>)
    requires n > 0 && SameLength(seqs) && i < NumBlocks(seqs, n)
    requires |chunkedSequences| == |seqs|
    requires forall q :: 0 <= q < |seqs| ==> chunkedSequences[q] == Chunks(seqs[q].aligned, n)
    ensures block == BlockLines(seqs, n, i)
  {
    ghost var lines := BlockLines(seqs, n, i);
    block := [];
    for k := 0 to |seqs|
      invariant block == lines[..k]
    {
      block := block + [chunkedSequences[k][i]];
    }
    assert block == lines;
  }

  /** Block `i`'s row of `s` is the stretch of `s` from column `i * n` on, after `PrefixLen` residues. */
  lemma RowStretch(s: string, n: nat, i: nat)
    requires n > 0 && i < |Chunks(s, n)|
    ensures var line := Chunks(s, n)[i]; var a := i * n;
      0 < |line| && a + |line| <= |s| && line == s[a..a + |line|] && PrefixLen(s, n, i) == |Ungapped(s[..a])|
  {
    BlockColumnsCover(s, n, i);
  }

  /** Column `c` of block `i` is alignment column `i * n + c`; the block's row is that stretch of `s`. */
  lemma BlockCellAt(s: string, n: nat, i: nat, c: nat)
    requires n > 0 && i < |Chunks(s, n)| && c < |Chunks(s, n)[i]|
    ensures i * n + c < |s| && Chunks(s, n)[i][c] == s[i * n + c]
    ensures Chunks(s, n)[i][..c] == s[i * n..i * n + c]
    ensures PrefixLen(s, n, i) == |Ungapped(s[..i * n])|
  {
    var line := Chunks(s, n)[i];
    var a: nat := i * n;
    RowStretch(s, n, i);
    assert line[..c] == s[a..a + c];
  }

  /**
   * `isEndGap` on a block's row, with the offset before the block, in terms
   * of the whole row: the cell is a gap with no residue after it (trailing)
   * or no residue up to it (leading).
   */
  lemma EndGapInRow(s: string, n: nat, i: nat, c: nat)
    requires n > 0 && i < |Chunks(s, n)| && c < |Chunks(s, n)[i]|
    ensures i * n + c < |s|
    ensures IsEndGap(Chunks(s, n)[i], c, PrefixLen(s, n, i), |Ungapped(s)|) <==>
      s[i * n + c] == GAP && (GapsFrom(s, i * n + c) || |Ungapped(s[..i * n + c + 1])| == 0)
  {
    var line := Chunks(s, n)[i];
    var a: nat := i * n;
    RowStretch(s, n, i);
    EndGapAt(s, a, line, c, PrefixLen(s, n, i));
  }

  /** `EndGapInRow` for a row `line` that is the stretch of `s` from column `a` on. */
  lemma EndGapAt(s: string, a: nat, line: string, c: nat, off: nat)
    requires a + |line| <= |s| && line == s[a..a + |line|] && c < |line| && off == |Ungapped(s[..a])|
    ensures IsEndGap(line, c, off, |Ungapped(s)|) <==>
      s[a + c] == GAP && (GapsFrom(s, a + c) || |Ungapped(s[..a + c + 1])| == 0)
  {
    var p := a + c;
    IsEndGapIff(line, c, off, |Ungapped(s)|);
    assert line[c] == s[p];
    PrefixResidues(s, a, line, c);
    PrefixResidues(s, a, line, c + 1);
    assert s == s[..p] + s[p..];
    UngappedAppend(s[..p], s[p..]);
    UngappedPrefixAll(s, p);
  }

  /** The residues of `s` before column `a + c` are those before `a` and those of `line[..c]`. */
  lemma PrefixResidues(s: string, a: nat, line: string, c: nat)
    requires a + |line| <= |s| && line == s[a..a + |line|] && c <= |line|
    ensures |Ungapped(s[..a + c])| == |Ungapped(s[..a])| + |Ungapped(line[..c])|
  {
    assert s[..a + c] == s[..a] + line[..c];
    UngappedAppend(s[..a], line[..c]);
  }

  /**
   * Row labels against the whole sequence: a row with residues is labelled
   * with the 1-based positions, in the ungapped sequence, of exactly the
   * residues it shows.
   */
  lemma RowLabelInSequence(s: string, n: nat, i: nat)
    requires n > 0 && i < |Chunks(s, n)| && |Ungapped(Chunks(s, n)[i])| > 0
    ensures var rl := RowLabelOf(PrefixLen(s, n, i), |Ungapped(Chunks(s, n)[i])|);
      1 <= rl.start <= rl.end <= |Ungapped(s)| &&
      Ungapped(s)[rl.start - 1..rl.end] == Ungapped(Chunks(s, n)[i])
  {
    var a: nat := i * n;
    RowStretch(s, n, i);
    StretchLabel(s, a, Chunks(s, n)[i], PrefixLen(s, n, i));
  }

  /** The label of a stretch of `s` from column `a` on, after `off` residues, spans the stretch's residues. */
  lemma StretchLabel(s: string, a: nat, line: string, off: nat)
    requires a + |line| <= |s| && line == s[a..a + |line|] && off == |Ungapped(s[..a])| && |Ungapped(line)| > 0
    ensures var rl := RowLabelOf(off, |Ungapped(line)|);
      1 <= rl.start <= rl.end <= |Ungapped(s)| && Ungapped(s)[rl.start - 1..rl.end] == Ungapped(line)
  {
    StretchResidues(s, a, line);
  }

  /** The residues of a stretch of `s` from column `a` on sit in `Ungapped(s)` right after those before `a`. */
  lemma StretchResidues(s: string, a: nat, line: string)
    requires a + |line| <= |s| && line == s[a..a + |line|]
    ensures var off := |Ungapped(s[..a])|;
      off + |Ungapped(line)| <= |Ungapped(s)| && Ungapped(s)[off..off + |Ungapped(line)|] == Ungapped(line)
  {
    var b := a + |line|;
    assert s == s[..a] + line + s[b..];
    UngappedAppend(s[..a] + line, s[b..]);
    UngappedAppend(s[..a], line);
  }

  /** The last block's rows end the sequence: its offset plus its residues is the whole residue count. */
  lemma LastRowEnd(s: string, n: nat)
    requires n > 0 && |Chunks(s, n)| > 0
    ensures var i := |Chunks(s, n)| - 1;
      PrefixLen(s, n, i) + |Ungapped(Chunks(s, n)[i])| == |Ungapped(s)|
  {
    PrefixLenStep(s, n, |Chunks(s, n)| - 1);
    PrefixLenEnd(s, n);
  }

  /** Blocks whose chunks show no residue leave the offset where it was. */
  lemma {:induction false} PrefixLenGapBlocks(s: string, n: nat, i: nat, j: nat)
    requires n > 0 && i <= j <= |Chunks(s, n)|
    requires forall k :: i <= k < j ==> |Ungapped(Chunks(s, n)[k])| == 0
    ensures PrefixLen(s, n, j) == PrefixLen(s, n, i)
  {
    if i < j {
      PrefixLenGapBlocks(s, n, i, j - 1);
      PrefixLenStep(s, n, j - 1);
    }
  }

  /**
   * The `end` label of the last block whose row shows a residue is the
   * length of the sequence without gaps.
   */
  lemma LastResidueLabel(s: string, n: nat, i: nat)
    requires n > 0 && i < |Chunks(s, n)|
    requires |Ungapped(Chunks(s, n)[i])| > 0
    requires forall k :: i < k < |Chunks(s, n)| ==> |Ungapped(Chunks(s, n)[k])| == 0
    ensures RowLabelOf(PrefixLen(s, n, i), |Ungapped(Chunks(s, n)[i])|).end == |Ungapped(s)|
  {
    PrefixLenStep(s, n, i);
    PrefixLenGapBlocks(s, n, i + 1, |Chunks(s, n)|);
    PrefixLenEnd(s, n);
  }

  /** After the last block, `offset[id]` is the length of the sequence without gaps. */
  lemma FinalOffsets(seqs: seq<Fasta.Record>, n: nat, m: Offsets)
    requires n > 0 && SameLength(seqs) && WellFormed(seqs)
    requires IsSnapshot(m, seqs, n, NumBlocks(seqs, n))
    ensures forall k :: 0 <= k < |seqs| ==> OffsetOf(m, seqs[k].id) == |seqs[k].ungapped|
  {
    AllSameShape(seqs, n);
    forall k | 0 <= k < |seqs| ensures OffsetOf(m, seqs[k].id) == |seqs[k].ungapped| {
      PrefixLenEnd(seqs[k].aligned, n);
    }
  }

  /**
   * The classes of cell `(k, c)` of block `i`, with the snapshot before the
   * block: `end-gap` exactly for a gap with no residue of its row after it or
   * none up to it, `aligned-char` otherwise.
   */
  lemma BlockCellEndGap(seqs: seq<Fasta.Record>, n: nat, i: nat, m: Offsets, k: nat, c: nat)
    requires n > 0 && SameLength(seqs) && WellFormed(seqs) && i < NumBlocks(seqs, n)
    requires IsSnapshot(m, seqs, n, i)
    requires k < |seqs| && c < |BlockLines(seqs, n, i)[0]|
    ensures var s := seqs[k].aligned; var p := i * n + c;
      p < |s| && (EndGap in BlockCell(seqs, n, i, m, k, c) <==> s[p] == GAP && (GapsFrom(s, p) || |Ungapped(s[..p + 1])| == 0))
  {
    ColumnCell(seqs, n, i, m, k, c);
    var column := BlockColumn(seqs, n, i, m, c);
    ClassifyEndGap(column[k].ch, column[k].endGap, ColumnConsensus(column));
  }

  lemma ClassifyEndGap(ch: char, endGap: bool, consensus: set<char>)
    ensures EndGap in Classify(ch, endGap, consensus) <==> endGap
  {
  }

  /**
   * For an aligned cell `(k, c)` of block `i`: no `mismatch` exactly when its
   * character is a most frequent one of the column's counted cells, and
   * `tie-match` exactly when another character is as frequent too.
   */
  lemma BlockCellConsensus(seqs: seq<Fasta.Record>, n: nat, i: nat, m: Offsets, k: nat, c: nat)
    requires n > 0 && SameLength(seqs) && WellFormed(seqs) && i < NumBlocks(seqs, n)
    requires IsSnapshot(m, seqs, n, i)
    requires k < |seqs| && c < |BlockLines(seqs, n, i)[0]|
    requires !BlockColumn(seqs, n, i, m, c)[k].endGap
    ensures var column := BlockColumn(seqs, n, i, m, c); var f := Counted(column); var ch := column[k].ch;
      AlignedChar in BlockCell(seqs, n, i, m, k, c) &&
      (Mismatch !in BlockCell(seqs, n, i, m, k, c) <==> MostFrequent(f, ch)) &&
      (TieMatch in BlockCell(seqs, n, i, m, k, c) <==>
        MostFrequent(f, ch) && exists d :: d != ch && multiset(f)[d] == multiset(f)[ch])
  {
    var column := BlockColumn(seqs, n, i, m, c);
    ColumnCell(seqs, n, i, m, k, c);
    AlignedCellTags(column, k);
    assert BlockCell(seqs, n, i, m, k, c) == Classify(column[k].ch, false, ConsensusOf(Counted(column)));
  }

  /** `bases[[k, c]]` of block `i` holds the classes of its cell `(k, c)`. */
  lemma BlockBases(seqs: seq<Fasta.Record>, n: nat, i: nat, m: Offsets, k: nat, c: nat)
    requires n > 0 && SameLength(seqs) && i < NumBlocks(seqs, n)
    requires k < |seqs| && c < |BlockLines(seqs, n, i)[0]|
    ensures (k, c) in BlockAt(seqs, n, i, m).bases
    ensures BlockAt(seqs, n, i, m).bases[(k, c)] == BlockCell(seqs, n, i, m, k, c)
  {
    var lines := BlockLines(seqs, n, i);
    assert Min(n, |lines[0]|) == |lines[0]|;
  }

  /** The classes of cell `(k, c)` of block `i`, with the snapshot `m` before the block. */
  function BlockCell(seqs: seq<Fasta.Record>, n: nat, i: nat, m: Offsets, k: nat, c: nat): seq<Tag>
    requires n > 0 && SameLength(seqs) && i < NumBlocks(seqs, n)
    requires k < |seqs| && c < |BlockLines(seqs, n, i)[0]|
  {
    CellTags(BlockLines(seqs, n, i), seqs, m, k, c)
  }

  /** Column `c` of block `i`, with the snapshot `m` before the block. */
  function BlockColumn(seqs: seq<Fasta.Record>, n: nat, i: nat, m: Offsets, c: nat): seq<Cell>
    requires n > 0 && SameLength(seqs) && i < NumBlocks(seqs, n)
    requires c < |BlockLines(seqs, n, i)[0]|
  {
    Column(BlockLines(seqs, n, i), seqs, m, c)
  }

  /** Cell `k` of column `c` of block `i` holds alignment column `i * n + c` of row `k`, and is an end gap as that column is. */
  lemma ColumnCell(seqs: seq<Fasta.Record>, n: nat, i: nat, m: Offsets, k: nat, c: nat)
    requires n > 0 && SameLength(seqs) && WellFormed(seqs) && i < NumBlocks(seqs, n)
    requires IsSnapshot(m, seqs, n, i)
    requires k < |seqs| && c < |BlockLines(seqs, n, i)[0]|
    ensures var s := seqs[k].aligned; var p := i * n + c;
      p < |s| && BlockColumn(seqs, n, i, m, c)[k].ch == s[p] &&
      (BlockColumn(seqs, n, i, m, c)[k].endGap <==> s[p] == GAP && (GapsFrom(s, p) || |Ungapped(s[..p + 1])| == 0))
  {
    var lines := BlockLines(seqs, n, i);
    var s := seqs[k].aligned;
    var line := lines[k];
    assert line == Chunks(s, n)[i];
    var off := OffsetOf(m, seqs[k].id);
    assert off == PrefixLen(s, n, i);
    assert |seqs[k].ungapped| == |Ungapped(s)|;
    assert BlockColumn(seqs, n, i, m, c)[k] == Cell(line[c], IsEndGap(line, c, off, |seqs[k].ungapped|));
    BlockCellAt(s, n, i, c);
    EndGapInRow(s, n, i, c);
  }
}
