/**
 * `chunked(seq, n)` of sabre.js: an aligned row cut into consecutive slices
 * of width `n`, and the 1-based alignment-column labels of a block.
 */
module Chunking {

  function Min(a: int, b: int): int { if a <= b then a else b }

  /** Reference definition of the slices `seq.slice(i, i + n)` for i = 0, n, 2n, ... below |s|. */
  function Chunks(s: string, n: nat): seq<string>
    requires n > 0
    decreases |s|
  {
    if s == [] then [] else [s[..Min(n, |s|)]] + Chunks(s[Min(n, |s|)..], n)
  }

  /** The strings of `ss` joined end to end. */
  function Concat(ss: seq<string>): string
  {
    if ss == [] then [] else ss[0] + Concat(ss[1..])
  }

  /** `chunked(seq, n)`: the index loop that pushes `seq.slice(i, i + n)` into `ret`. */
  method Chunked(s: string, n: nat) returns (ret: seq<string>)
    requires n > 0
    ensures ret == Chunks(s, n)
  {
    ret := [];
    var i := 0;
    while i < |s|
      invariant ret + Chunks(s[Min(i, |s|)..], n) == Chunks(s, n)
      decreases |s| - i
    {
      // JavaScript's slice clamps its end to the length of the string
      var slice := s[i..Min(i + n, |s|)];
      ChunksFrom(s, n, i);
      ret := ret + [slice];
      i := i + n;
    }
    assert s[Min(i, |s|)..] == [];
  }

  /** The chunks from column `i` on are the slice at `i` followed by the chunks from `i + n` on. */
  lemma ChunksFrom(s: string, n: nat, i: nat)
    requires n > 0 && i < |s|
    ensures Chunks(s[Min(i, |s|)..], n) == [s[i..Min(i + n, |s|)]] + Chunks(s[Min(i + n, |s|)..], n)
  {
    var rest := s[i..];
    assert rest[..Min(n, |rest|)] == s[i..Min(i + n, |s|)];
    assert rest[Min(n, |rest|)..] == s[Min(i + n, |s|)..];
  }

  lemma {:induction false} ConcatAppend(a: seq<string>, b: seq<string>)
    ensures Concat(a + b) == Concat(a) + Concat(b)
  {
    if a != [] {
      assert (a + b)[1..] == a[1..] + b;
      ConcatAppend(a[1..], b);
    } else {
      assert a + b == b;
    }
  }

  /** Concatenating the chunks gives back the row. */
  lemma {:induction false} ChunksConcat(s: string, n: nat)
    requires n > 0
    ensures Concat(Chunks(s, n)) == s
    decreases |s|
  {
    if s != [] {
      var m := Min(n, |s|);
      ChunksConcat(s[m..], n);
      assert s == s[..m] + s[m..];
    }
  }

  /** Every chunk is non-empty and at most `n` long; all but the last are exactly `n` long. */
  lemma {:induction false} ChunksShape(s: string, n: nat)
    requires n > 0
    ensures forall k :: 0 <= k < |Chunks(s, n)| ==> 0 < |Chunks(s, n)[k]| <= n
    ensures forall k :: 0 <= k < |Chunks(s, n)| - 1 ==> |Chunks(s, n)[k]| == n
    decreases |s|
  {
    if s != [] {
      var m := Min(n, |s|);
      ChunksShape(s[m..], n);
      var r := Chunks(s, n);
      forall k | 0 < k < |r| ensures r[k] == Chunks(s[m..], n)[k - 1] { }
      if |r| > 1 {
        assert s[m..] != [];
      }
    }
  }

  lemma MulAtLeast(d: int, n: int)
    requires n > 0 && d >= 1
    ensures d * n >= n
  {
  }

  lemma MulMono(a: int, b: int, n: int)
    requires n > 0 && a < b
    ensures a * n + n <= b * n
  {
    MulAtLeast(b - a, n);
    assert (b - a) * n == b * n - a * n;
  }

  lemma DivUnique(a: int, n: int, q: int)
    requires n > 0 && q * n <= a < q * n + n
    ensures a / n == q
  {
    var q' := a / n;
    assert a == q' * n + a % n;
    if q' > q {
      MulMono(q, q', n);
    } else if q' < q {
      MulMono(q', q, n);
    }
  }

  /** The chunks cover `s` and waste less than a whole chunk: (q - 1) * n < |s| <= q * n for q chunks. */
  lemma {:induction false} ChunksBounds(s: string, n: nat)
    requires n > 0
    ensures |Chunks(s, n)| * n < |s| + n && |s| <= |Chunks(s, n)| * n
    decreases |s|
  {
    if s != [] {
      var t := s[Min(n, |s|)..];
      ChunksBounds(t, n);
      MulStep(|Chunks(t, n)|, n);
    }
  }

  /** There are ceil(|s| / n) chunks. */
  lemma ChunksCount(s: string, n: nat)
    requires n > 0
    ensures |Chunks(s, n)| == (|s| + n - 1) / n
  {
    ChunksBounds(s, n);
    DivUnique(|s| + n - 1, n, |Chunks(s, n)|);
  }

  lemma MulStep(k: nat, n: nat)
    ensures (k + 1) * n == k * n + n
  {
  }

  /**
   * Chunk `k` is the slice of columns [k*n, min(k*n+n, |s|)), and the chunks
   * before it make up exactly the first k*n columns.
   */
  lemma ChunkAt(s: string, n: nat, k: nat)
    requires n > 0 && k < |Chunks(s, n)|
    ensures k * n < |s|
    ensures Chunks(s, n)[k] == s[k * n..Min(k * n + n, |s|)]
    ensures Concat(Chunks(s, n)[..k]) == s[..k * n]
  {
    ChunkSlice(s, n, k);
    ChunkPrefix(s, n, k);
  }

  /** After the first chunk, chunk `k` of `s` is chunk `k - 1` of the rest, which starts at column `n`. */
  lemma ChunksTail(s: string, n: nat, k: nat)
    requires n > 0 && 0 < k < |Chunks(s, n)|
    ensures |s| > n && Chunks(s, n)[k] == Chunks(s[n..], n)[k - 1] && k - 1 < |Chunks(s[n..], n)|
    ensures Chunks(s, n)[..k] == [s[..n]] + Chunks(s[n..], n)[..k - 1]
  {
  }

  lemma {:induction false} ChunkSlice(s: string, n: nat, k: nat)
    requires n > 0 && k < |Chunks(s, n)|
    ensures k * n < |s|
    ensures Chunks(s, n)[k] == s[k * n..Min(k * n + n, |s|)]
    decreases |s|
  {
    if k > 0 {
      var t := s[n..];
      ChunksTail(s, n, k);
      ChunkSlice(t, n, k - 1);
      var a, b := (k - 1) * n, k * n;
      assert b == a + n by {
        MulStep(k - 1, n);
      }
      SliceShift(s, n, a, Min(a + n, |t|));
    }
  }

  lemma SliceShift(s: string, n: nat, a: nat, b: nat)
    requires n <= |s| && a <= b <= |s| - n
    ensures s[n..][a..b] == s[n + a..n + b]
  {
  }

  lemma {:induction false} ChunkPrefix(s: string, n: nat, k: nat)
    requires n > 0 && k < |Chunks(s, n)|
    ensures k * n <= |s|
    ensures Concat(Chunks(s, n)[..k]) == s[..k * n]
    decreases |s|
  {
    if k == 0 {
      assert Chunks(s, n)[..0] == [];
    } else {
      var t := s[n..];
      ChunksTail(s, n, k);
      ChunkPrefix(t, n, k - 1);
      MulStep(k - 1, n);
      assert Concat(Chunks(s, n)[..k]) == s[..n] + Concat(Chunks(t, n)[..k - 1]);
      assert s[..k * n] == s[..n] + t[..(k - 1) * n];
    }
  }

  /** Taking every chunk gives back the whole row. */
  lemma ChunksAll(s: string, n: nat)
    requires n > 0
    ensures Concat(Chunks(s, n)[..|Chunks(s, n)|]) == s
  {
    ChunksConcat(s, n);
    assert Chunks(s, n)[..|Chunks(s, n)|] == Chunks(s, n);
  }

  /** Rows of equal length are cut into the same number of chunks, of the same lengths. */
  lemma {:induction false} ChunksSameShape(s: string, t: string, n: nat, k: nat)
    requires n > 0 && |s| == |t|
    ensures |Chunks(s, n)| == |Chunks(t, n)|
    ensures k < |Chunks(s, n)| ==> |Chunks(s, n)[k]| == |Chunks(t, n)[k]|
    decreases |s|
  {
    if s != [] {
      var m := Min(n, |s|);
      ChunksSameShape(s[m..], t[m..], n, if k > 0 then k - 1 else 0);
    }
  }

  /** A 1-based, inclusive range of alignment columns. */
  datatype ColumnRange = ColumnRange(first: nat, last: nat)

  /**
   * The column label of block `i` (`startAlign`, `widthAlign`, `endAlign`),
   * where `firstLine` is the block's row for the first sequence.
   */
  function BlockColumns(i: nat, n: nat, firstLine: string): ColumnRange
    requires n > 0 && |firstLine| > 0
  {
    var startAlign := i * n + 1;
    var widthAlign := Min(n, |firstLine|);
    ColumnRange(startAlign, startAlign + widthAlign - 1)
  }

  /** Block `i` of a row is labelled with exactly the columns its chunk covers. */
  lemma BlockColumnsCover(s: string, n: nat, i: nat)
    requires n > 0 && i < |Chunks(s, n)|
    ensures 0 < |Chunks(s, n)[i]| <= n
    ensures BlockColumns(i, n, Chunks(s, n)[i]) == ColumnRange(i * n + 1, i * n + |Chunks(s, n)[i]|)
    ensures i * n + |Chunks(s, n)[i]| <= |s|
    ensures Chunks(s, n)[i] == s[i * n..i * n + |Chunks(s, n)[i]|]
  {
    ChunksShape(s, n);
    ChunkAt(s, n, i);
    var c := Chunks(s, n)[i];
    assert |c| == Min(i * n + n, |s|) - i * n;
    assert i * n + |c| == Min(i * n + n, |s|);
    assert Min(n, |c|) == |c|;
  }

  /**
   * Consecutive blocks' column labels tile 1..|s| with no overlap and no hole:
   * block 0 starts at column 1, each block starts right after the previous one
   * ends, and the last one ends at column |s|.
   */
  lemma BlockColumnsTile(s: string, n: nat, i: nat)
    requires n > 0 && i < |Chunks(s, n)|
    ensures 0 < |Chunks(s, n)[i]|
    ensures i == 0 ==> BlockColumns(i, n, Chunks(s, n)[i]).first == 1
    ensures i + 1 < |Chunks(s, n)| ==>
      0 < |Chunks(s, n)[i + 1]| &&
      BlockColumns(i, n, Chunks(s, n)[i]).last + 1 == BlockColumns(i + 1, n, Chunks(s, n)[i + 1]).first
    ensures i + 1 == |Chunks(s, n)| ==> BlockColumns(i, n, Chunks(s, n)[i]).last == |s|
  {
    BlockColumnsCover(s, n, i);
    if i + 1 < |Chunks(s, n)| {
      BlockColumnsNext(s, n, i);
    }
    if i + 1 == |Chunks(s, n)| {
      BlockColumnsLast(s, n, i);
    }
  }

  lemma BlockColumnsNext(s: string, n: nat, i: nat)
    requires n > 0 && i + 1 < |Chunks(s, n)|
    ensures 0 < |Chunks(s, n)[i]| && 0 < |Chunks(s, n)[i + 1]|
    ensures BlockColumns(i, n, Chunks(s, n)[i]).last + 1 == BlockColumns(i + 1, n, Chunks(s, n)[i + 1]).first
  {
    ChunksShape(s, n);
    assert |Chunks(s, n)[i]| == n;
    MulStep(i, n);
  }

  lemma BlockColumnsLast(s: string, n: nat, i: nat)
    requires n > 0 && i + 1 == |Chunks(s, n)|
    ensures 0 < |Chunks(s, n)[i]|
    ensures BlockColumns(i, n, Chunks(s, n)[i]).last == |s|
  {
    ChunksShape(s, n);
    ChunkSlice(s, n, i);
    ChunksBounds(s, n);
    MulStep(i, n);
  }
}
