# sabre alignment layout and consensus engine, in Dafny

sabre renders a multiple-sequence alignment from FASTA text. This project
models the engine behind that view in `src/static/js/sabre.js`, without the
DOM:

- `parseMultiFasta` turns the text into records `{header, id, seq, ungapped}`.
- `chunked` cuts every aligned row into width-`n` blocks; block `i` gets a
  1-based column label.
- `isEndGap` decides whether a gap in a block row is a leading or trailing
  end gap of its sequence.
- Each column gets a consensus: the most frequent characters among its cells
  that are not end gaps. Each cell is then tagged `aligned-char` or
  `end-gap`, plus `mismatch` or `tie-match`.
- A running map `offset` counts each sequence's residues shown so far. It is
  snapshotted into `blockOffsets[i]` before block `i` and then advanced by
  that block while its rows get their `[start]`/`[end]` labels.
- The `mouseover` handler computes a hovered cell's alignment column and its
  position in the ungapped sequence.

Modules follow the parts of the engine:

- `Results`: `Option` and `Result`.
- `Gaps`: `ungapped`, `isEndGap`.
- `Chunking`: `chunked` and block column labels.
- `Fasta`: `trim`, `split('\n')`, the header regex and the `parseMultiFasta` loop.
- `Consensus`: counting, the consensus set and cell tags.
- `Layout`: the block loop of `alignmentHtml`.
- `Hover`: the position arithmetic of the `mouseover` handler.
- `Scenarios`: worked examples.

The loops of the source become methods with loop invariants, each proved
equal to a reference function:

- `Chunked`, for the `chunked` loop.
- `ParseMultiFasta`, `ScanLines` and `ScanLine`, for the `parseMultiFasta` loop.
- `AlignmentLayout`, `LayoutBlock`, `ZipAt`, `ClassifyBlock`, `ClassifyColumn`
  and `LabelRows`, for the block, column, row and label loops.

The properties are proved as lemmas over those reference functions. JavaScript
truthiness of `offset[id]` (`offset || 0`, `!offset`, `offset[id] ? … : 0`) is
modelled by `Layout.OffsetOf`, which reads an absent id as 0. The source never
stores 0, and `IsSnapshot` says so. `bases[[row, col]]` is a
`map<(nat, nat), seq<Tag>>`, and the tags are kept in the order they are
pushed.

Some behaviour of the code that a reader may not expect, kept as written:

- An intermediate header whose sequence is empty still produces a record.
  Only the last record is dropped when its sequence is empty.
- A block row that has no residues, after the sequence has started, is
  labelled `[off+1] … [off+1]`, not `0`. Before the sequence's first residue it
  is labelled `0 … 0` (`Layout.RowLabelOf`).
- An internal `-` counts in the consensus like any other character. So for the
  rows `AC-GT` and `ACGGT`, column 3 has the consensus `{'-', 'G'}`, and both
  cells are tagged `aligned-char tie-match` (`Scenarios.InternalGapTies`).
- The id is the first run of non-whitespace after the `>`. A header with only
  whitespace after its `>` makes `exec(...)[1]` throw. The model returns
  `Err(MissingId(header))`, but only when that header's record is actually
  pushed. A trailing header with no sequence is dropped without its id being
  read.

## Model

| member | source | states |
|---|---|---|
| `Gaps.Ungapped` | src/static/js/sabre.js:311-313 | the result contains no `-` and is no longer than the input |
| `Gaps.UngappedCounts` | src/static/js/sabre.js:311-313 | the result has every non-`-` character as often as the input has it; its length is the input's minus its number of `-` |
| `Gaps.UngappedAt` | src/static/js/sabre.js:311-313 | order is kept: the residue at index `i` is at index (residues before `i`) of the result |
| `Gaps.UngappedAppend` | src/static/js/sabre.js:311-313 | removing gaps distributes over concatenation |
| `Gaps.UngappedNoGap` | src/static/js/sabre.js:311-313 | a string without `-` is unchanged |
| `Gaps.UngappedIdempotent` | src/static/js/sabre.js:311-313 | `ungapped(ungapped(s)) == ungapped(s)` |
| `Gaps.UngappedEmptyIff` | src/static/js/sabre.js:311-313 | the result is empty iff the input is all gaps |
| `Gaps.UngappedPrefixAll` | src/static/js/sabre.js:311-313 | a prefix holds all residues iff the rest is all gaps |
| `Gaps.FirstResidue` | src/static/js/sabre.js:303-304 | `/[^-]/.exec(line)`: None iff the line is all gaps, otherwise the index of the first non-gap character |
| `Gaps.IsEndGap` | src/static/js/sabre.js:288-309 | true only for an index that holds `-` (false for any other character or past the end) |
| `Gaps.IsEndGapIff` | src/static/js/sabre.js:288-309 | for a `-`: true iff offset plus residues before `idx` reaches the sequence length, or the offset is 0 and the row has no residue up to and including `idx` |
| `Chunking.Chunked` | src/static/js/sabre.js:280-286 | the index loop returns exactly the slices `seq.slice(i, i+n)` for `i = 0, n, 2n, …` |
| `Chunking.ChunksConcat` | src/static/js/sabre.js:280-286 | concatenating the chunks gives back the row |
| `Chunking.ChunksShape` | src/static/js/sabre.js:280-286 | every chunk is non-empty and at most `n` long; all but the last are exactly `n` long |
| `Chunking.ChunksCount` | src/static/js/sabre.js:280-286 | there are ceil(len / n) chunks |
| `Chunking.ChunksBounds` | src/static/js/sabre.js:280-286 | the chunks cover the row with less than one chunk of slack |
| `Chunking.ChunkAt` | src/static/js/sabre.js:282-283 | chunk `k` is columns `[k*n, min(k*n+n, len))`, and the chunks before it are the first `k*n` columns |
| `Chunking.ChunksSameShape` | src/static/js/sabre.js:173-181 | rows of equal length get the same number of chunks, with the same lengths, so `_.zip` pads nothing |
| `Chunking.BlockColumnsCover` | src/static/js/sabre.js:182-184 | block `i` is labelled columns `i*n+1` to `i*n+len(chunk)`, which are exactly the columns its chunk holds |
| `Chunking.BlockColumnsTile` | src/static/js/sabre.js:181-184 | block labels start at column 1 and have neither overlaps nor holes; the last one ends at the row length |
| `Fasta.Trim` | src/static/js/sabre.js:316 | `trim()`: the input without leading or trailing JavaScript whitespace |
| `Fasta.SplitJoin` | src/static/js/sabre.js:316 | `split('\n')` gives back exactly the lines that were joined, when no line holds `\n` |
| `Fasta.SplitLines` | src/static/js/sabre.js:316 | `split('\n')`: at least one line, no line holds `\n`, and joining the lines with `\n` gives back the input |
| `Fasta.FirstWordSpec` | src/static/js/sabre.js:324 | None iff all whitespace; otherwise the non-empty run of non-whitespace that starts after the leading whitespace and ends at whitespace or the end |
| `Fasta.HeaderIdSpec` | src/static/js/sabre.js:324 | `/>\s*(\S+)/.exec(header)[1]`: None iff the header is only whitespace after `>`, otherwise a non-empty token without whitespace |
| `Fasta.ParseMultiFasta` | src/static/js/sabre.js:315-344 | the method (trim, split, loop) returns the reference parse `Parse(str)` |
| `Fasta.ScanLines` | src/static/js/sabre.js:319-343 | the for-loop over the lines, with the push after it, returns `ParseLines(lines)`, including its errors |
| `Fasta.ScanLine` | src/static/js/sabre.js:319-334 | one iteration keeps the parser state invariant: pushed records are the sections before the current header, and `seq` is what followed it |
| `Fasta.PushPending` | src/static/js/sabre.js:320-328 | at a header, the pending record is pushed; if its header has no id, the whole parse fails with that error |
| `Fasta.PushLast` | src/static/js/sabre.js:335-342 | after the loop, the pending record is pushed only if its sequence is non-empty |
| `Fasta.SectionHeaders` | src/static/js/sabre.js:319-334 | one section per `>` line, in input order, carrying that line |
| `Fasta.BodyUpTo` | src/static/js/sabre.js:331-333 | a header's sequence is the concatenation of the lines up to the next header or the end |
| `Fasta.ParseLinesOutcome` | src/static/js/sabre.js:315-344 | the parse succeeds iff every emitted header has an id; record `k` is then `{header, id, seq, ungapped(seq)}` of emitted section `k`; otherwise the error is that of the first header without an id |
| `Fasta.ToRecordsAll` | src/static/js/sabre.js:322-327 | building the records either keeps each section's record, in order, when every section has an id, or fails with the error of the first section that has none |
| `Fasta.ToRecordsOutcome` | src/static/js/sabre.js:322-327 | the same outcome stated through the headers' ids: record `k` is `{header, id, seq, ungapped(seq)}` of section `k` |
| `Fasta.ToRecordsSnoc` | src/static/js/sabre.js:322-327 | pushing one more section appends its record, or fails with its error, unless the earlier sections already failed |
| `Fasta.ParseLinesShape` | src/static/js/sabre.js:315-344 | one record per header line, in order, except that exactly one fewer when the last header has an empty sequence; `ungapped == ungapped(seq)`; no header gives `[]` |
| `Fasta.ParseRecordAt` | src/static/js/sabre.js:319-342 | the header at line `i`, with lines up to `j`, gives record number (headers before `i`), whose `seq` is the lines between `i` and `j`; it exists iff `j` is a header or that `seq` is non-empty, so an empty last record is dropped while an empty earlier one is kept |
| `Fasta.ParseIgnoresPreamble` | src/static/js/sabre.js:319-334 | lines before the first header do not change the result |
| `Consensus.Counted` | src/static/js/sabre.js:200-208 | `columnFiltered`: each character as often as there are non-end-gap cells holding it |
| `Consensus.MaxCount` | src/static/js/sabre.js:210-212 | `countsSorted[0][1]`: no character is counted more often; it is 0 iff nothing is counted, otherwise some character reaches it |
| `Consensus.ConsensusChar` | src/static/js/sabre.js:209-214 | a character is in the consensus iff it occurs and no character occurs more often |
| `Consensus.ConsensusEmptyIff` | src/static/js/sabre.js:197-214 | the consensus is empty iff every cell of the column is an end gap |
| `Consensus.ConsensusOrderFree` | src/static/js/sabre.js:209-214 | the consensus depends only on the multiset of cells, not on row order |
| `Consensus.Classify` | src/static/js/sabre.js:216-243 | exactly one of `aligned-char`/`end-gap`, and `end-gap` iff the cell is an end gap; `mismatch` iff aligned, consensus non-empty and char not in it; `tie-match` iff aligned, consensus has more than one member and char in it; never both |
| `Consensus.AlignedCellTags` | src/static/js/sabre.js:216-243 | for an aligned cell: no `mismatch` iff its character is a most frequent one; `tie-match` iff another character is equally frequent too |
| `Consensus.TieIff` | src/static/js/sabre.js:233-239 | beside a consensus character, the consensus has another member iff another character is as frequent |
| `Layout.BlockLines` | src/static/js/sabre.js:173-181 | block `i` is chunk `i` of every row, with all rows non-empty, of one length, and at most `n` |
| `Layout.AlignmentLayout` | src/static/js/sabre.js:172-257 | one block per chunk; `blockOffsets[i]` counts each id's residues in blocks `0..i-1` (absent means 0); each block is classified with its own snapshot; the final `offset` counts everything |
| `Layout.ChunkRows` | src/static/js/sabre.js:173 | `sequences.map(s => chunked(s.seq, n))`: one entry per row, in row order, each the chunks of that row |
| `Layout.LayoutBlock` | src/static/js/sabre.js:181-257 | one block: its classification and labels use the offsets before it, and the offsets after it are the next block's snapshot |
| `Layout.ZipAt` | src/static/js/sabre.js:181 | entry `i` of `_.zip(...chunkedSequences)` is chunk `i` of every row |
| `Layout.ClassifyBlock` | src/static/js/sabre.js:196-244 | the `colIdx` loop fills `bases` with exactly the cells of the block's columns, each holding its tags |
| `Layout.ClassifyColumn` | src/static/js/sabre.js:216-243 | the `rowIdx` loop adds the tags of every cell of one column |
| `Layout.BlockTags` | src/static/js/sabre.js:196-244 | `bases` has an entry for exactly each (row, column) of the block, holding that cell's tags |
| `Layout.GridAt` | src/static/js/sabre.js:196-244 | the stores made so far by the nested loops cover exactly the cells visited |
| `Layout.RowLabelOf` | src/static/js/sabre.js:250-257 | with residues, `start == off+1` and `end == off+len`; without, `start == end`, which is 0 iff there was no prior offset |
| `Layout.LabelRows` | src/static/js/sabre.js:246-257 | every row gets its label from its id's offset before the block; each id advances by its row's residues; no other id changes; stored values stay positive |
| `Layout.OffsetAdvance` | src/static/js/sabre.js:250-256 | one row's update advances its id by the row's residues and leaves every other id alone |
| `Layout.SnapshotStep` | src/static/js/sabre.js:187 | the offsets after block `i` are exactly the snapshot that block `i+1` takes |
| `Layout.SnapshotUnique` | src/static/js/sabre.js:187 | a snapshot is determined by the alignment and the block index |
| `Layout.PrefixLenChunks` | src/static/js/sabre.js:178-187 | the snapshot value is the total ungapped length of the row's chunks in blocks `0..i-1` |
| `Layout.PrefixLenStep` | src/static/js/sabre.js:250-256 | each block adds the residues of its chunk |
| `Layout.FinalOffsets` | src/static/js/sabre.js:250-256 | after the last block, `offset[id] == ungapped(seq).length` |
| `Layout.RowLabelInSequence` | src/static/js/sabre.js:250-257 | a row with residues is labelled with the 1-based positions, in the ungapped sequence, of exactly the residues it shows |
| `Layout.LastResidueLabel` | src/static/js/sabre.js:250-257 | in the last block whose row shows a residue, the row's `end` label is the sequence's residue count, even when later blocks show only gaps |
| `Layout.LastRowEnd` | src/static/js/sabre.js:250-257 | the last block's offset plus its residues is the sequence's whole residue count |
| `Layout.EndGapInRow` | src/static/js/sabre.js:288-309 | `isEndGap` with the snapshot offset, in terms of the whole row: a gap with only gaps after it (trailing) or no residue up to it (leading) |
| `Layout.ColumnCell` | src/static/js/sabre.js:198-207 | cell `k` of column `c` in block `i` holds alignment column `i*n+c` of row `k`, and is an end gap exactly as that column is |
| `Layout.BlockCellEndGap` | src/static/js/sabre.js:216-243 | a cell is tagged `end-gap` iff it is a gap with no residue of its row after it or none up to it |
| `Layout.BlockCellConsensus` | src/static/js/sabre.js:197-243 | an aligned cell of a block has `mismatch` unless its character is most frequent, and `tie-match` iff another character is equally frequent |
| `Layout.BlockBases` | src/static/js/sabre.js:217-241 | `bases[[k, c]]` of the block holds the tags of cell `(k, c)` |
| `Hover.Substr` | src/static/js/sabre.js:81 | `substr(start, len)`: the at most `len` characters from `start` on, empty past the end |
| `Hover.HoverPosition` | src/static/js/sabre.js:76-89 | fails iff the block has no snapshot |
| `Hover.HoverOnRow` | src/static/js/sabre.js:76-89 | alignment position `block*n + offLine + 1`; the character is the row's character there; the sequence position is the residues up to and including it, plus 1 only for an `end-gap` cell at the total |
| `Hover.HoverCases` | src/static/js/sabre.js:76-89 | hovering a residue shows its 1-based ungapped position; a trailing end gap shows total+1; a leading end gap 0; an internal gap the residues before it |
| `Hover.PositionCases` | src/static/js/sabre.js:83-89 | the same four cases for the position of a column of a whole row |
| `Hover.HoverInBlock` | src/static/js/sabre.js:76-89 | hovering a cell of the layout meets what `HoverCases` assumes: the snapshot counts the row's residues before the block, and the `end-gap` tag is as the layout gives it |
| `Scenarios.InternalGapTies` | src/static/js/sabre.js:196-243 | rows `AC-GT`, `ACGGT` at width 5: column 3 is a tie between `-` and `G`, and both cells are tagged `aligned-char tie-match` |
| `Scenarios.SevenColumns` | src/static/js/sabre.js:280-286 | width 3 on 7 columns gives chunks of widths 3, 3, 1, labelled 1-3, 4-6, 7-7 |
| `Scenarios.TwoRecords` | src/static/js/sabre.js:315-344 | the lines `>s1`, `ACGT`, `>s2`, `AC-T` parse to ids `s1`, `s2` with 4 and 3 residues |
| `Scenarios.TwoRecordsText` | src/static/js/sabre.js:315-344 | the text `>s1\nACGT\n>s2\nAC-T\n`, trailing newline included, is trimmed, split and parsed to the same two records |
| `Scenarios.EmptyInput` | src/static/js/sabre.js:315-344 | empty input gives no records |

## Left out

- DOM lookup, event listeners, `run`, `getSequences`, `showError`, `displayResults` and the show/hide helpers (src/static/js/sabre.js:5-37, 129-170). This is UI wiring. Only its "no sequences found" input, an empty parse, is modelled (`Scenarios.EmptyInput`).
- HTML building, label widths, space padding and `padStart` (src/static/js/sabre.js:174-177, 189-194, 258-272, 52-69, 91-126). This is presentation. The model returns the block label, the tags and the row labels as data.
- `readFile`, FileReader, pako gzip and FilePond (src/static/js/sabre.js:24-37, 346-365). These are asynchronous browser I/O and foreign libraries.
- `parseInt` of the width field (src/static/js/sabre.js:158). The width is a parameter with `n > 0` as a precondition. For a width of 0 or less, the loop of `chunked` (src/static/js/sabre.js:282, `i += n`) never reaches `seq.length`, so the source never returns for a non-empty row. The model does not cover that non-terminating case.
- `exampleData` (src/static/js/sabre.js:371-470). It is data, not logic.
- Lodash and the regex engine are modelled by their meaning: `countBy` as multiset counts, `zip` as taking chunk `i` of every row, `cloneDeep` as a value copy, and the header regex as the first non-whitespace token after `>`.
- Sort order of `Object.entries(counts)` (src/static/js/sabre.js:210). The consensus is a set. Order affects only display, never membership.
- Layout.AlignmentLayout: requires equal row lengths, because `_.zip` at line 181 would pad with `undefined` otherwise. The source does not check this.
- Layout.AlignmentLayout, Layout.LabelRows, Layout.LayoutBlock: require distinct ids, because `offset` and `blockOffsets` are keyed by id. The source accepts repeated ids and then lets them share one counter. That case is not modelled.
- Ids that name properties of `Object.prototype` (such as `constructor`) make `offset[id]` read an inherited value in JavaScript. The model reads them as absent, like any other id.
- Hover.HoverPosition: `offLine`, the value of `indexOf`, is taken as a `nat`. The handler runs only for a `data-char` element of the line, so it is never -1. The hovered `end-gap` class is a parameter.
- Line endings: the input is split on `\n` only, as in the source. A `\r` stays in its line.
- String length: the model's `string` is a sequence of Unicode scalar values (`char`). sabre.js measures and cuts strings by UTF-16 code units (`.length`, `slice`, `substr`, `line[colIdx]`, `substring`). A character outside the Basic Multilingual Plane, such as U+1F600, is one `char` in the model but two code units in the source. For such input, the model's chunk widths, `ungapped(...).length`, offsets, row labels and hover positions differ from the source's, and the model never splits a surrogate pair the way `chunked` can. Alignments of residue letters and `-` use only BMP characters, where the two agree.
