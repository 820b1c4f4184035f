/**
 * Gap utilities of sabre.js: `ungapped` and `isEndGap`.
 * A gap is the character '-'; every other character is a residue.
 */
module Gaps {
  import opened Results

  const GAP: char := '-'

  /** `seq.replace(/-/g, '')`: the residues of `s`, in order. */
  function Ungapped(s: string): (r: string)
    ensures GAP !in r
    ensures |r| <= |s|
  {
    if s == [] then []
    else
      assert s == s[..|s| - 1] + [s[|s| - 1]];
      if s[|s| - 1] == GAP then Ungapped(s[..|s| - 1])
      else Ungapped(s[..|s| - 1]) + [s[|s| - 1]]
  }

  /**
   * Exactly the residues are kept, each as often as it occurs: the result
   * has the characters of `s` except every gap, and so the length of `s`
   * less its number of gaps.
   */
  lemma {:induction false} UngappedCounts(s: string)
    ensures multiset(Ungapped(s)) == multiset(s)[GAP := 0]
    ensures |Ungapped(s)| == |s| - multiset(s)[GAP]
  {
    if s != [] {
      var s' := s[..|s| - 1];
      assert s == s' + [s[|s| - 1]];
      UngappedCounts(s');
    }
  }

  /** Every position of `s` from `from` on holds a gap. */
  ghost predicate GapsFrom(s: string, from: nat)
  {
    forall q :: from <= q < |s| ==> s[q] == GAP
  }

  lemma {:induction false} UngappedSnoc(s: string, c: char)
    ensures Ungapped(s + [c]) == Ungapped(s) + (if c == GAP then [] else [c])
  {
    assert (s + [c])[..|s + [c]| - 1] == s;
  }

  /** Removing gaps distributes over concatenation. */
  lemma {:induction false} UngappedAppend(a: string, b: string)
    ensures Ungapped(a + b) == Ungapped(a) + Ungapped(b)
    decreases |b|
  {
    if b == [] {
      assert a + b == a;
    } else {
      var b' := b[..|b| - 1];
      var c := b[|b| - 1];
      assert b == b' + [c];
      assert a + b == (a + b') + [c];
      UngappedSnoc(a + b', c);
      UngappedAppend(a, b');
      UngappedSnoc(b', c);
    }
  }

  /** Going one position further in a prefix adds that position's residue, if any. */
  lemma UngappedPrefixStep(s: string, i: nat)
    requires i < |s|
    ensures Ungapped(s[..i + 1]) == Ungapped(s[..i]) + (if s[i] == GAP then [] else [s[i]])
  {
    assert s[..i + 1] == s[..i] + [s[i]];
    UngappedSnoc(s[..i], s[i]);
  }

  /** A string without gaps is left as it is. */
  lemma {:induction false} UngappedNoGap(s: string)
    requires GAP !in s
    ensures Ungapped(s) == s
  {
    if s != [] {
      assert s == s[..|s| - 1] + [s[|s| - 1]];
      assert GAP !in s[..|s| - 1];
      UngappedNoGap(s[..|s| - 1]);
    }
  }

  /** `ungapped` is idempotent. */
  lemma UngappedIdempotent(s: string)
    ensures Ungapped(Ungapped(s)) == Ungapped(s)
  {
    UngappedNoGap(Ungapped(s));
  }

  /**
   * Order is kept: the residue at position `i` of `s` is the residue at
   * position (number of residues before `i`) of `Ungapped(s)`.
   */
  lemma UngappedAt(s: string, i: nat)
    requires i < |s| && s[i] != GAP
    ensures |Ungapped(s[..i])| < |Ungapped(s)|
    ensures Ungapped(s)[|Ungapped(s[..i])|] == s[i]
  {
    assert s == s[..i] + ([s[i]] + s[i + 1..]);
    UngappedAppend(s[..i], [s[i]] + s[i + 1..]);
    UngappedAppend([s[i]], s[i + 1..]);
    UngappedSnoc([], s[i]);
    assert [s[i]] == [] + [s[i]];
  }

  /** A string has no residue exactly when it is all gaps. */
  lemma {:induction false} UngappedEmptyIff(s: string)
    ensures |Ungapped(s)| == 0 <==> GapsFrom(s, 0)
  {
    if s != [] {
      var s' := s[..|s| - 1];
      assert s == s' + [s[|s| - 1]];
      UngappedSnoc(s', s[|s| - 1]);
      UngappedEmptyIff(s');
      if GapsFrom(s, 0) {
        assert GapsFrom(s', 0) by {
          forall q | 0 <= q < |s'| ensures s'[q] == GAP { assert s'[q] == s[q]; }
        }
      }
    }
  }

  /**
   * The residues before position `p` are all of them exactly when
   * every position from `p` on is a gap.
   */
  lemma UngappedPrefixAll(s: string, p: nat)
    requires p <= |s|
    ensures |Ungapped(s[..p])| == |Ungapped(s)| <==> GapsFrom(s, p)
  {
    assert s == s[..p] + s[p..];
    UngappedAppend(s[..p], s[p..]);
    UngappedEmptyIff(s[p..]);
    if GapsFrom(s[p..], 0) {
      forall q | p <= q < |s| ensures s[q] == GAP { assert s[q] == s[p..][q - p]; }
    }
    if GapsFrom(s, p) {
      forall q | 0 <= q < |s[p..]| ensures s[p..][q] == GAP { assert s[p..][q] == s[q + p]; }
    }
  }

  /** `/[^-]/.exec(line)`: the index of the first residue of `line`, if it has one. */
  function FirstResidue(line: string): (r: Option<nat>)
    ensures r.None? <==> GapsFrom(line, 0)
    ensures r.Some? ==> r.value < |line| && line[r.value] != GAP
    ensures r.Some? ==> forall q :: 0 <= q < r.value ==> line[q] == GAP
  {
    if line == [] then None
    else if line[0] != GAP then Some(0)
    else
      match FirstResidue(line[1..])
      case None =>
        assert forall q :: 1 <= q < |line| ==> line[q] == line[1..][q - 1];
        None
      case Some(k) =>
        assert forall q :: 1 <= q < |line| ==> line[q] == line[1..][q - 1];
        Some(k + 1)
  }

  /**
   * `isEndGap(line, idx, offset, seqLength)`: whether the character at `idx`
   * of a block row is a leading or trailing end gap of its sequence.
   * `offset` is the sequence's residue count before this block (absent and 0
   * are the same: the caller passes 0 for an absent entry) and `seqLength`
   * the sequence's total residue count.
   */
  function IsEndGap(line: string, idx: nat, offset: nat, seqLength: nat): (r: bool)
    ensures r ==> idx < |line| && line[idx] == GAP
  {
    if idx >= |line| || line[idx] != GAP then false
    else if offset + |Ungapped(line[..idx])| >= seqLength then true
    else if offset == 0 && (FirstResidue(line).None? || FirstResidue(line).value > idx) then true
    else false
  }

  /**
   * `isEndGap` in closed form: a gap is an end gap when the residues before it
   * reach the sequence's total (trailing), or when nothing precedes the block
   * and the row has no residue up to and including `idx` (leading).
   */
  lemma IsEndGapIff(line: string, idx: nat, offset: nat, seqLength: nat)
    ensures IsEndGap(line, idx, offset, seqLength) <==>
      idx < |line| && line[idx] == GAP &&
      (offset + |Ungapped(line[..idx])| >= seqLength ||
       (offset == 0 && |Ungapped(line[..idx + 1])| == 0))
  {
    if idx < |line| && line[idx] == GAP {
      var upTo := line[..idx + 1];
      UngappedEmptyIff(upTo);
      var f := FirstResidue(line);
      if f.Some? && f.value <= idx {
        assert upTo[f.value] != GAP;
      }
      if f.None? || f.value > idx {
        forall q | 0 <= q < |upTo| ensures upTo[q] == GAP {
          assert upTo[q] == line[q];
        }
      }
    }
  }
}
