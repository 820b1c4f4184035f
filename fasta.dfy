/**
 * `parseMultiFasta` of sabre.js: trimmed text split into lines; every line
 * starting with '>' opens a record whose sequence is the concatenation of the
 * lines that follow it up to the next header.
 */
module Fasta {
  import opened Results
  import opened Gaps
  import Chunking

  /** The characters `\s` matches in a JavaScript regular expression; `trim` removes the same ones. */
  predicate IsSpace(c: char)
  {
    var k := c as int;
    k == 0x09 || k == 0x0A || k == 0x0B || k == 0x0C || k == 0x0D || k == 0x20 || k == 0xA0 ||
    k == 0x1680 || (0x2000 <= k <= 0x200A) || k == 0x2028 || k == 0x2029 || k == 0x202F ||
    k == 0x205F || k == 0x3000 || k == 0xFEFF
  }

  ghost predicate AllSpace(s: string)
  {
    forall k :: 0 <= k < |s| ==> IsSpace(s[k])
  }

  /** The length of the longest prefix of `s` made only of whitespace (`space`) or only of non-whitespace. */
  function Span(s: string, space: bool): (k: nat)
    ensures k <= |s|
    ensures forall j :: 0 <= j < k ==> IsSpace(s[j]) == space
    ensures k < |s| ==> IsSpace(s[k]) != space
  {
    if s == [] || IsSpace(s[0]) != space then 0
    else
      var k := Span(s[1..], space);
      assert forall j :: 1 <= j < 1 + k ==> s[j] == s[1..][j - 1];
      1 + k
  }

  /** `s` without its trailing whitespace. */
  function TrimEnd(s: string): (r: string)
    ensures |r| <= |s| && r == s[..|r|]
    ensures AllSpace(s[|r|..])
    ensures r == [] || !IsSpace(r[|r| - 1])
  {
    if s == [] || !IsSpace(s[|s| - 1]) then s
    else
      var r := TrimEnd(s[..|s| - 1]);
      assert s[|r|..] == s[..|s| - 1][|r|..] + [s[|s| - 1]];
      r
  }

  /** `str.trim()`: `s` without leading and trailing whitespace. */
  function Trim(s: string): (r: string)
    ensures exists i, j :: 0 <= i <= j <= |s| && r == s[i..j] && AllSpace(s[..i]) && AllSpace(s[j..])
    ensures r == [] || (!IsSpace(r[0]) && !IsSpace(r[|r| - 1]))
  {
    var i := Span(s, true);
    var r := TrimEnd(s[i..]);
    assert r == s[i..i + |r|];
    assert s[i + |r|..] == s[i..][|r|..];
    assert r != [] ==> r[0] == s[i];
    r
  }

  const NEWLINE: char := '\n'

  /** The lines of `ls` joined with '\n' between them. */
  function JoinLines(ls: seq<string>): string
    requires |ls| > 0
  {
    if |ls| == 1 then ls[0] else ls[0] + [NEWLINE] + JoinLines(ls[1..])
  }

  /** `str.split('\n')`: the lines of `s`, which joined again give back `s` ("" gives [""]). */
  function SplitLines(s: string): (ls: seq<string>)
    ensures |ls| > 0
    ensures forall k :: 0 <= k < |ls| ==> NEWLINE !in ls[k]
    ensures JoinLines(ls) == s
  {
    if s == [] then [""]
    else
      var rest := SplitLines(s[1..]);
      assert s == [s[0]] + s[1..];
      if s[0] == NEWLINE then
        assert ([""] + rest)[1..] == rest;
        [""] + rest
      else
        var ls := [[s[0]] + rest[0]] + rest[1..];
        assert ls[1..] == rest[1..];
        assert |rest| > 1 ==> JoinLines(rest) == rest[0] + [NEWLINE] + JoinLines(rest[1..]);
        assert forall k :: 1 <= k < |ls| ==> ls[k] == rest[k];
        ls
  }

  /** A first line without '\n' joins the first line of what follows it. */
  lemma {:induction false} SplitLinesWord(a: string, rest: string)
    requires NEWLINE !in a
    ensures SplitLines(a + rest) == [a + SplitLines(rest)[0]] + SplitLines(rest)[1..]
  {
    if a == [] {
      var ls := SplitLines(rest);
      assert a + rest == rest && a + ls[0] == ls[0];
      assert [ls[0]] + ls[1..] == ls;
    } else {
      var s, ls := a + rest, SplitLines(rest);
      assert s[0] == a[0] != NEWLINE && s[1..] == a[1..] + rest;
      var inner := SplitLines(s[1..]);
      assert SplitLines(s) == [[s[0]] + inner[0]] + inner[1..];
      SplitLinesWord(a[1..], rest);
      assert inner[0] == a[1..] + ls[0] && inner[1..] == ls[1..];
      assert [a[0]] + (a[1..] + ls[0]) == a + ls[0];
    }
  }

  /** `split('\n')` undoes joining lines that hold no '\n'. */
  lemma {:induction false} SplitJoin(ls: seq<string>)
    requires |ls| > 0 && forall k :: 0 <= k < |ls| ==> NEWLINE !in ls[k]
    ensures SplitLines(JoinLines(ls)) == ls
  {
    if |ls| == 1 {
      SplitLinesWord(ls[0], []);
      assert ls[0] + [] == ls[0];
    } else {
      var tail := JoinLines(ls[1..]);
      SplitJoin(ls[1..]);
      var nl := [NEWLINE] + tail;
      assert nl[0] == NEWLINE && nl[1..] == tail;
      assert SplitLines(nl) == [""] + ls[1..];
      assert ls[0] + [NEWLINE] + tail == ls[0] + nl;
      SplitLinesWord(ls[0], nl);
      assert ls[0] + "" == ls[0];
      assert [ls[0]] + ls[1..] == ls;
    }
  }

  /** `line.startsWith('>')`. */
  predicate IsHeader(line: string)
  {
    |line| > 0 && line[0] == '>'
  }

  /** A line that starts with '>'. */
  type HeaderLine = line: string | IsHeader(line) witness ">"

  /**
   * The first run of non-whitespace in `s`, after the whitespace that begins
   * it, or `None` when `s` is all whitespace.
   */
  function FirstWord(s: string): Option<string>
  {
    if s == [] then None
    else if IsSpace(s[0]) then FirstWord(s[1..])
    else Some(s[..Span(s, false)])
  }

  /**
   * `FirstWord` is `None` exactly for an all-whitespace string; otherwise it is
   * the non-empty stretch of non-whitespace that starts after the leading
   * whitespace and ends at whitespace or at the end.
   */
  lemma {:induction false} FirstWordSpec(s: string)
    ensures FirstWord(s).None? <==> AllSpace(s)
    ensures FirstWord(s).Some? ==> var w := FirstWord(s).value; var i := Span(s, true); var e := i + |w|;
      w != [] && e <= |s| && w == s[i..e] &&
      (forall k :: i <= k < e ==> !IsSpace(s[k])) && (e == |s| || IsSpace(s[e]))
  {
    if s != [] {
      var t := s[1..];
      if IsSpace(s[0]) {
        FirstWordSpec(t);
        assert Span(s, true) == 1 + Span(t, true);
        assert forall k :: 1 <= k < |s| ==> s[k] == t[k - 1];
        if FirstWord(t).Some? {
          var w := FirstWord(t).value;
          var i := Span(t, true);
          assert s[i + 1..i + 1 + |w|] == t[i..i + |w|];
        }
      } else {
        assert Span(s, true) == 0;
        assert !AllSpace(s);
      }
    }
  }

  /**
   * `/>\s*(\S+)/.exec(header)[1]` for a header line: the first run of
   * non-whitespace after the '>', or `None` where `exec` finds no match
   * (the header has nothing but whitespace after its '>').
   */
  function HeaderId(header: string): Option<string>
    requires IsHeader(header)
  {
    FirstWord(header[1..])
  }

  /** A header has no id exactly when only whitespace follows its '>'; an id is a non-empty token without whitespace. */
  lemma HeaderIdSpec(header: string)
    requires IsHeader(header)
    ensures HeaderId(header).None? <==> AllSpace(header[1..])
    ensures HeaderId(header).Some? ==>
      HeaderId(header).value != [] && forall k :: 0 <= k < |HeaderId(header).value| ==> !IsSpace(HeaderId(header).value[k])
  {
    var s := header[1..];
    FirstWordSpec(s);
    if FirstWord(s).Some? {
      var w := FirstWord(s).value;
      var i := Span(s, true);
      assert forall k :: 0 <= k < |w| ==> w[k] == s[i + k];
    }
  }

  /** A header line with the sequence accumulated after it. */
  datatype Section = Section(header: HeaderLine, body: string)

  /** What `seq += line` accumulates from the lines following a header: everything up to the next header. */
  function Body(lines: seq<string>): string
  {
    if lines == [] || IsHeader(lines[0]) then "" else lines[0] + Body(lines[1..])
  }

  /** Reference definition: one section per header line, in input order; lines before the first header are dropped. */
  function Sections(lines: seq<string>): seq<Section>
  {
    if lines == [] then []
    else if IsHeader(lines[0]) then [Section(lines[0], Body(lines[1..]))] + Sections(lines[1..])
    else Sections(lines[1..])
  }

  /** The header lines of `lines`, in order. */
  function HeaderLines(lines: seq<string>): seq<string>
  {
    if lines == [] then []
    else if IsHeader(lines[0]) then [lines[0]] + HeaderLines(lines[1..])
    else HeaderLines(lines[1..])
  }

  /** Every section is pushed, except a last one whose sequence is empty (`if (header && seq)`). */
  function Emitted(secs: seq<Section>): (r: seq<Section>)
    ensures secs == [] ==> r == []
    ensures secs != [] && secs[|secs| - 1].body == "" ==> r == secs[..|secs| - 1]
    ensures secs != [] && secs[|secs| - 1].body != "" ==> r == secs
  {
    if secs != [] && secs[|secs| - 1].body == "" then secs[..|secs| - 1] else secs
  }

  /** A parsed FASTA record `{header, id, seq, ungapped}`; `aligned` is the field `seq`, the gapped row. */
  datatype Record = Record(header: string, id: string, aligned: string, ungapped: string)

  /** `exec(header)` returned null, so reading `[1]` of it throws. */
  datatype ParseError = MissingId(header: string)

  /** The record pushed for a section. */
  function MakeRecord(sec: Section): Result<Record, ParseError>
  {
    match HeaderId(sec.header)
    case None => Err(MissingId(sec.header))
    case Some(id) => Ok(Record(sec.header, id, sec.body, Ungapped(sec.body)))
  }

  /** The result of `MakeRecord` for every section, in order. */
  function Made(secs: seq<Section>): (rs: seq<Result<Record, ParseError>>)
    ensures |rs| == |secs| && forall k :: 0 <= k < |secs| ==> rs[k] == MakeRecord(secs[k])
  {
    seq(|secs|, k requires 0 <= k < |secs| => MakeRecord(secs[k]))
  }

  /** The values of `rs` in order, or the first error among them. */
  function Collect(rs: seq<Result<Record, ParseError>>): Result<seq<Record>, ParseError>
  {
    if rs == [] then Ok([])
    else
      match rs[0]
      case Err(e) => Err(e)
      case Ok(r) =>
        match Collect(rs[1..])
        case Err(e) => Err(e)
        case Ok(tail) => Ok([r] + tail)
  }

  /** The records of `secs` in order, or the error of the first section that has none. */
  function ToRecords(secs: seq<Section>): Result<seq<Record>, ParseError>
  {
    Collect(Made(secs))
  }

  function ParseLines(lines: seq<string>): Result<seq<Record>, ParseError>
  {
    ToRecords(Emitted(Sections(lines)))
  }

  /** Reference definition of `parseMultiFasta(str)`. */
  function Parse(str: string): Result<seq<Record>, ParseError>
  {
    ParseLines(SplitLines(Trim(str)))
  }

  /** `parseMultiFasta(str)`: the for-loop over the lines updating `header` and `seq` (here `body`) and pushing records. */
  method ParseMultiFasta(str: string) returns (result: Result<seq<Record>, ParseError>)
    ensures result == Parse(str)
  {
    var lines := SplitLines(Trim(str));
    result := ScanLines(lines);
  }

  /** The loop of `parseMultiFasta` over the trimmed input's lines. */
  method ScanLines(lines: seq<string>) returns (result: Result<seq<Record>, ParseError>)
    ensures result == ParseLines(lines)
  {
    var sequences: seq<Record> := [];
    var header: Option<HeaderLine> := None;
    var body: string := "";
    for i := 0 to |lines|
      invariant header.None? ==> Sections(lines[..i]) == [] && sequences == []
      invariant header.Some? ==> Pending(lines[..i], header.value, body, sequences)
    {
      var failed;
      failed, header, body, sequences := ScanLine(lines, i, header, body, sequences);
      assert lines[..i + 1] == lines[..i] + [lines[i]];
      if failed.Some? {
        result := Err(failed.value);
        return;
      }
    }
    assert lines[..|lines|] == lines;
    if header.Some? {
      result := PushLast(lines, header.value, body, sequences);
    } else {
      result := Ok(sequences);
    }
  }

  /**
   * One iteration of the loop, on line `i`: a header pushes the pending
   * record (failing when its header has no id) and starts a new one; any
   * other line is appended to the pending `seq`.
   */
  method ScanLine(lines: seq<string>, i: nat, header0: Option<HeaderLine>, body0: string, sequences0: seq<Record>)
    returns (failed: Option<ParseError>, header: Option<HeaderLine>, body: string, sequences: seq<Record>)
    requires i < |lines|
    requires header0.None? ==> Sections(lines[..i]) == [] && sequences0 == []
    requires header0.Some? ==> Pending(lines[..i], header0.value, body0, sequences0)
    ensures failed.Some? ==> ParseLines(lines) == Err(failed.value)
    ensures failed.None? && header.None? ==> Sections(lines[..i] + [lines[i]]) == [] && sequences == []
    ensures failed.None? && header.Some? ==> Pending(lines[..i] + [lines[i]], header.value, body, sequences)
  {
    failed, header, body, sequences := None, header0, body0, sequences0;
    var line := lines[i];
    if IsHeader(line) {
      if header.Some? {
        failed, sequences := PushPending(lines, i, header.value, body, sequences);
        if failed.Some? {
          return;
        }
      } else {
        PendingFirstHeader(lines[..i], line);
      }
      header := Some(line);
      body := "";
    } else {
      if header.Some? {
        PendingLine(lines[..i], line, header.value, body, sequences);
      } else {
        SectionsSnoc(lines[..i], line);
      }
      body := body + line;
    }
  }

  /** A header line `i` after a pending record: the record is pushed, or the parse fails when it has no id. */
  method PushPending(lines: seq<string>, i: nat, header: HeaderLine, body: string, sequences0: seq<Record>)
    returns (failed: Option<ParseError>, sequences: seq<Record>)
    requires i < |lines| && IsHeader(lines[i])
    requires Pending(lines[..i], header, body, sequences0)
    ensures failed.Some? ==> ParseLines(lines) == Err(failed.value)
    ensures failed.None? ==> Pending(lines[..i] + [lines[i]], lines[i], "", sequences)
  {
    var id := HeaderId(header);
    if id.None? {
      failed, sequences := Some(MissingId(header)), sequences0;
      FailsAtHeader(lines, i, header, body, sequences0);
      return;
    }
    var r := Record(header, id.value, body, Ungapped(body));
    PendingNextHeader(lines[..i], lines[i], header, body, sequences0, r);
    failed, sequences := None, sequences0 + [r];
  }

  /** After the loop: the last record is pushed only when its `seq` is non-empty. */
  method PushLast(lines: seq<string>, header: HeaderLine, body: string, sequences: seq<Record>)
    returns (result: Result<seq<Record>, ParseError>)
    requires Pending(lines, header, body, sequences)
    ensures result == ParseLines(lines)
  {
    PendingAtEnd(lines, header, body, sequences);
    if body != "" {
      var id := HeaderId(header);
      if id.None? {
        result := Err(MissingId(header));
        return;
      }
      result := Ok(sequences + [Record(header, id.value, body, Ungapped(body))]);
    } else {
      result := Ok(sequences);
    }
  }

  /**
   * The parser's state after a prefix `p` of the lines whose last header is
   * `header`: the sections before it became `sequences`, and `body` is what
   * has been accumulated after it.
   */
  ghost predicate Pending(p: seq<string>, header: HeaderLine, body: string, sequences: seq<Record>)
  {
    var s := Sections(p);
    |s| > 0 && s[|s| - 1] == Section(header, body) && ToRecords(s[..|s| - 1]) == Ok(sequences)
  }

  lemma {:induction false} BodySnoc(p: seq<string>, l: string)
    ensures Body(p + [l]) == if Sections(p) != [] then Body(p) else Body(p) + (if IsHeader(l) then "" else l)
  {
    if p == [] {
      assert [] + [l] == [l];
      assert [l][1..] == [];
    } else {
      assert (p + [l])[1..] == p[1..] + [l];
      BodySnoc(p[1..], l);
    }
  }

  /** How one more line changes the sections: a header opens one, another line extends the last. */
  lemma {:induction false} SectionsSnoc(p: seq<string>, l: string)
    ensures IsHeader(l) ==> Sections(p + [l]) == Sections(p) + [Section(l, "")]
    ensures !IsHeader(l) && Sections(p) == [] ==> Sections(p + [l]) == []
    ensures !IsHeader(l) && Sections(p) != [] ==>
      var s := Sections(p);
      Sections(p + [l]) == s[..|s| - 1] + [Section(s[|s| - 1].header, s[|s| - 1].body + l)]
  {
    if p == [] {
      assert [] + [l] == [l];
      assert [l][1..] == [];
    } else {
      var q := p[1..];
      assert (p + [l])[1..] == q + [l];
      SectionsSnoc(q, l);
      if IsHeader(p[0]) {
        BodySnoc(q, l);
        var s := Sections(q);
        var first := Section(p[0], Body(q));
        assert Sections(p) == [first] + s;
        if IsHeader(l) {
          assert Body(q + [l]) == Body(q);
          assert Sections(p + [l]) == [first] + (s + [Section(l, "")]);
          assert [first] + (s + [Section(l, "")]) == ([first] + s) + [Section(l, "")];
        } else if s == [] {
          assert Sections(p + [l]) == [Section(p[0], Body(q) + l)];
        } else {
          assert Body(q + [l]) == Body(q);
          assert Sections(p)[..|Sections(p)| - 1] == [first] + s[..|s| - 1];
          assert Sections(p + [l]) == [first] + (s[..|s| - 1] + [Section(s[|s| - 1].header, s[|s| - 1].body + l)]);
        }
      }
    }
  }

  /** A header line after a pending record: the record is pushed and a new one starts. */
  lemma PendingNextHeader(p: seq<string>, l: HeaderLine, header: HeaderLine, body: string, sequences: seq<Record>, r: Record)
    requires Pending(p, header, body, sequences)
    requires MakeRecord(Section(header, body)) == Ok(r)
    ensures Pending(p + [l], l, "", sequences + [r])
  {
    SectionsSnoc(p, l);
    var s := Sections(p);
    assert Sections(p + [l])[..|s|] == s;
    assert s == s[..|s| - 1] + [Section(header, body)];
    ToRecordsSnoc(s[..|s| - 1], Section(header, body));
  }

  /** The first header line: a record starts and nothing has been pushed. */
  lemma PendingFirstHeader(p: seq<string>, l: HeaderLine)
    requires Sections(p) == []
    ensures Pending(p + [l], l, "", [])
  {
    SectionsSnoc(p, l);
    assert Sections(p + [l]) == [Section(l, "")];
  }

  /** A sequence line after a header is appended to the pending record. */
  lemma PendingLine(p: seq<string>, l: string, header: HeaderLine, body: string, sequences: seq<Record>)
    requires !IsHeader(l) && Pending(p, header, body, sequences)
    ensures Pending(p + [l], header, body + l, sequences)
  {
    SectionsSnoc(p, l);
    var s := Sections(p);
    assert Sections(p + [l])[..|s| - 1] == s[..|s| - 1];
  }

  lemma {:induction false} BodyBeforeHeader(p: seq<string>, q: seq<string>)
    requires q != [] && IsHeader(q[0])
    ensures Body(p + q) == Body(p)
  {
    if p == [] {
      assert p + q == q;
    } else {
      assert (p + q)[1..] == p[1..] + q;
      BodyBeforeHeader(p[1..], q);
    }
  }

  /** The sections of lines that continue with a header are those of the two parts. */
  lemma {:induction false} SectionsSplit(p: seq<string>, q: seq<string>)
    requires q != [] && IsHeader(q[0])
    ensures Sections(p + q) == Sections(p) + Sections(q)
  {
    if p == [] {
      assert p + q == q;
    } else {
      assert (p + q)[1..] == p[1..] + q;
      SectionsSplit(p[1..], q);
      BodyBeforeHeader(p[1..], q);
    }
  }

  lemma EmittedAppend(a: seq<Section>, b: seq<Section>)
    requires b != []
    ensures Emitted(a + b) == a + Emitted(b)
  {
    if b[|b| - 1].body == "" {
      assert (a + b)[..|a + b| - 1] == a + b[..|b| - 1];
    }
  }

  /** The values of two runs of results are those of each, in order. */
  lemma {:induction false} CollectAppendOk(a: seq<Result<Record, ParseError>>, b: seq<Result<Record, ParseError>>)
    requires Collect(a).Ok? && Collect(b).Ok?
    ensures Collect(a + b) == Ok(Collect(a).value + Collect(b).value)
  {
    if a == [] {
      assert a + b == b;
      assert Collect(a).value + Collect(b).value == Collect(b).value;
    } else {
      var r := a[0].value;
      var rest := Collect(a[1..]).value;
      var rb := Collect(b).value;
      assert (a + b)[0] == a[0];
      assert (a + b)[1..] == a[1..] + b;
      CollectAppendOk(a[1..], b);
      assert [r] + (rest + rb) == ([r] + rest) + rb;
    }
  }

  /** An error in the first run of results is the error of the whole. */
  lemma {:induction false} CollectAppendErr(a: seq<Result<Record, ParseError>>, b: seq<Result<Record, ParseError>>)
    requires Collect(a).Err?
    ensures Collect(a + b) == Collect(a)
  {
    assert (a + b)[0] == a[0];
    assert (a + b)[1..] == a[1..] + b;
    if a[0].Ok? {
      CollectAppendErr(a[1..], b);
    }
  }

  /** After a run of results that all succeed, an error in the second run is the error of the whole. */
  lemma {:induction false} CollectAppendErrSecond(a: seq<Result<Record, ParseError>>, b: seq<Result<Record, ParseError>>)
    requires Collect(a).Ok? && Collect(b).Err?
    ensures Collect(a + b) == Collect(b)
  {
    if a == [] {
      assert a + b == b;
    } else {
      assert (a + b)[0] == a[0];
      assert (a + b)[1..] == a[1..] + b;
      CollectAppendErrSecond(a[1..], b);
    }
  }

  lemma MadeAppend(a: seq<Section>, b: seq<Section>)
    ensures Made(a + b) == Made(a) + Made(b)
  {
  }

  /** One more section adds its record, or its error when the sections before it all have records. */
  lemma ToRecordsSnoc(a: seq<Section>, x: Section)
    ensures ToRecords(a + [x]) ==
      match ToRecords(a)
      case Err(e) => Err(e)
      case Ok(rs) => (match MakeRecord(x) case Err(e) => Err(e) case Ok(r) => Ok(rs + [r]))
  {
    MadeAppend(a, [x]);
    var last := Made([x]);
    assert last == [MakeRecord(x)];
    assert last[1..] == [];
    if ToRecords(a).Err? {
      CollectAppendErr(Made(a), last);
    } else if MakeRecord(x).Ok? {
      assert Collect(last[1..]) == Ok([]);
      assert [MakeRecord(x).value] + [] == [MakeRecord(x).value];
      assert Collect(last) == Ok([MakeRecord(x).value]);
      CollectAppendOk(Made(a), last);
    } else {
      CollectAppendErrSecond(Made(a), last);
    }
  }

  /** An error among the first sections is the error of the whole. */
  lemma ToRecordsAppendErr(a: seq<Section>, b: seq<Section>)
    requires ToRecords(a).Err?
    ensures ToRecords(a + b) == ToRecords(a)
  {
    MadeAppend(a, b);
    CollectAppendErr(Made(a), Made(b));
  }

  /** The records of the pending state followed by its last section. */
  lemma PendingRecords(p: seq<string>, header: HeaderLine, body: string, sequences: seq<Record>)
    requires Pending(p, header, body, sequences)
    ensures ToRecords(Sections(p)) ==
      (match MakeRecord(Section(header, body))
       case Err(e) => Err(e)
       case Ok(r) => Ok(sequences + [r]))
  {
    var s := Sections(p);
    var last := Section(header, body);
    assert s == s[..|s| - 1] + [last];
    ToRecordsSnoc(s[..|s| - 1], last);
  }

  /** Reaching a header with a pending record that has no id: the whole parse fails with that error. */
  lemma FailsAtHeader(lines: seq<string>, i: nat, header: HeaderLine, body: string, sequences: seq<Record>)
    requires i < |lines| && IsHeader(lines[i])
    requires Pending(lines[..i], header, body, sequences)
    requires HeaderId(header).None?
    ensures ParseLines(lines) == Err(MissingId(header))
  {
    var s := Sections(lines[..i]);
    assert lines == lines[..i] + lines[i..];
    SectionsSplit(lines[..i], lines[i..]);
    var t := Sections(lines[i..]);
    assert t != [] by { assert lines[i..][0] == lines[i]; }
    EmittedAppend(s, t);
    PendingRecords(lines[..i], header, body, sequences);
    ToRecordsAppendErr(s, Emitted(t));
  }

  /** At the end of the input, the pending record is pushed exactly when its sequence is non-empty. */
  lemma PendingAtEnd(lines: seq<string>, header: HeaderLine, body: string, sequences: seq<Record>)
    requires Pending(lines, header, body, sequences)
    ensures body == "" ==> ParseLines(lines) == Ok(sequences)
    ensures body != "" ==>
      ParseLines(lines) == (match MakeRecord(Section(header, body))
       case Err(e) => Err(e)
       case Ok(r) => Ok(sequences + [r]))
  {
    if body != "" {
      PendingRecords(lines, header, body, sequences);
    }
  }

  /** Every value in order when all results succeed; otherwise the first failure. */
  lemma {:induction false} CollectAll(rs: seq<Result<Record, ParseError>>)
    ensures Collect(rs).Ok? <==> forall k :: 0 <= k < |rs| ==> rs[k].Ok?
    ensures Collect(rs).Ok? ==>
      |Collect(rs).value| == |rs| && forall k :: 0 <= k < |rs| ==> Collect(rs).value[k] == rs[k].value
    ensures Collect(rs).Err? ==>
      exists k :: 0 <= k < |rs| && rs[k].Err? && Collect(rs) == Err(rs[k].error) &&
        forall j :: 0 <= j < k ==> rs[j].Ok?
  {
    if rs != [] {
      var tail := rs[1..];
      CollectAll(tail);
      assert forall k :: 1 <= k < |rs| ==> rs[k] == tail[k - 1];
      if rs[0].Ok? && Collect(tail).Err? {
        var k :| 0 <= k < |tail| && tail[k].Err? && Collect(tail) == Err(tail[k].error) &&
          forall j :: 0 <= j < k ==> tail[j].Ok?;
        assert rs[k + 1] == tail[k];
        assert forall j :: 0 <= j < k + 1 ==> rs[j].Ok? by {
          forall j | 0 <= j < k + 1 ensures rs[j].Ok? {
            if j > 0 { assert rs[j] == tail[j - 1]; }
          }
        }
      }
    }
  }

  /** Every section's record in order when all succeed; otherwise the error of the first that fails. */
  lemma ToRecordsAll(secs: seq<Section>)
    ensures ToRecords(secs).Ok? <==> forall k :: 0 <= k < |secs| ==> MakeRecord(secs[k]).Ok?
    ensures ToRecords(secs).Ok? ==>
      |ToRecords(secs).value| == |secs| &&
      forall k :: 0 <= k < |secs| ==> ToRecords(secs).value[k] == MakeRecord(secs[k]).value
    ensures ToRecords(secs).Err? ==>
      exists k :: 0 <= k < |secs| && MakeRecord(secs[k]).Err? && ToRecords(secs) == Err(MakeRecord(secs[k]).error) &&
        forall j :: 0 <= j < k ==> MakeRecord(secs[j]).Ok?
  {
    CollectAll(Made(secs));
  }

  /** One section per header line, carrying that header, in input order. */
  lemma {:induction false} SectionHeaders(lines: seq<string>)
    ensures |Sections(lines)| == |HeaderLines(lines)|
    ensures forall k :: 0 <= k < |Sections(lines)| ==> Sections(lines)[k].header == HeaderLines(lines)[k]
  {
    if lines != [] {
      SectionHeaders(lines[1..]);
    }
  }

  /** The sequence after a header is the concatenation of the lines up to the next header or the end. */
  lemma {:induction false} BodyUpTo(lines: seq<string>, k: nat)
    requires k <= |lines| && (k == |lines| || IsHeader(lines[k]))
    requires forall j :: 0 <= j < k ==> !IsHeader(lines[j])
    ensures Body(lines) == Chunking.Concat(lines[..k])
  {
    if k == 0 {
      assert lines[..k] == [];
    } else {
      assert lines[..k][1..] == lines[1..][..k - 1];
      BodyUpTo(lines[1..], k - 1);
    }
  }

  /** The header at line `i` opens the section numbered by the headers before it, holding the lines after it. */
  lemma SectionAt(lines: seq<string>, i: nat)
    requires i < |lines| && IsHeader(lines[i])
    ensures |HeaderLines(lines[..i])| < |Sections(lines)|
    ensures Sections(lines)[|HeaderLines(lines[..i])|] == Section(lines[i], Body(lines[i + 1..]))
  {
    assert lines == lines[..i] + lines[i..];
    assert lines[i..][0] == lines[i];
    assert lines[i..][1..] == lines[i + 1..];
    SectionsSplit(lines[..i], lines[i..]);
    SectionHeaders(lines[..i]);
  }

  /**
   * The outcome of parsing the lines: the records of the pushed sections, in
   * order, when every pushed header has an id; otherwise the error of the
   * first one that has none.
   */
  lemma ParseLinesOutcome(lines: seq<string>)
    ensures var e := Emitted(Sections(lines));
      ParseLines(lines).Ok? <==> forall k :: 0 <= k < |e| ==> HeaderId(e[k].header).Some?
    ensures var e := Emitted(Sections(lines));
      ParseLines(lines).Ok? ==>
        |ParseLines(lines).value| == |e| &&
        forall k :: 0 <= k < |e| ==>
          ParseLines(lines).value[k] == Record(e[k].header, HeaderId(e[k].header).value, e[k].body, Ungapped(e[k].body))
    ensures var e := Emitted(Sections(lines));
      ParseLines(lines).Err? ==>
        exists k :: 0 <= k < |e| && HeaderId(e[k].header).None? && ParseLines(lines) == Err(MissingId(e[k].header)) &&
          forall j :: 0 <= j < k ==> HeaderId(e[j].header).Some?
  {
    ToRecordsOutcome(Emitted(Sections(lines)));
  }

  /** `ToRecords` in terms of the headers' ids: every record, or the first section without an id. */
  lemma ToRecordsOutcome(e: seq<Section>)
    ensures ToRecords(e).Ok? <==> forall k :: 0 <= k < |e| ==> HeaderId(e[k].header).Some?
    ensures ToRecords(e).Ok? ==>
      |ToRecords(e).value| == |e| &&
      forall k :: 0 <= k < |e| ==>
        ToRecords(e).value[k] == Record(e[k].header, HeaderId(e[k].header).value, e[k].body, Ungapped(e[k].body))
    ensures ToRecords(e).Err? ==>
      exists k :: 0 <= k < |e| && HeaderId(e[k].header).None? && ToRecords(e) == Err(MissingId(e[k].header)) &&
        forall j :: 0 <= j < k ==> HeaderId(e[j].header).Some?
  {
    ToRecordsAll(e);
    if ToRecords(e).Err? {
      var k :| 0 <= k < |e| && MakeRecord(e[k]).Err? && ToRecords(e) == Err(MakeRecord(e[k]).error) &&
        forall j :: 0 <= j < k ==> MakeRecord(e[j]).Ok?;
      assert HeaderId(e[k].header).None?;
    }
  }

  /**
   * Parsed records follow the header lines: one per header, except that a
   * last header with no sequence after it gives none; every record's
   * `ungapped` is its `seq` without gaps.
   */
  lemma ParseLinesShape(lines: seq<string>)
    requires ParseLines(lines).Ok?
    ensures |Sections(lines)| == |HeaderLines(lines)|
    ensures var s := Sections(lines);
      |ParseLines(lines).value| == |s| - (if |s| > 0 && s[|s| - 1].body == "" then 1 else 0)
    ensures var rs := ParseLines(lines).value; var h := HeaderLines(lines);
      |rs| <= |h| &&
      forall k :: 0 <= k < |rs| ==>
        rs[k].header == h[k] && rs[k].ungapped == Ungapped(rs[k].aligned) && GAP !in rs[k].ungapped
    ensures HeaderLines(lines) == [] ==> ParseLines(lines) == Ok([])
  {
    SectionHeaders(lines);
    ParseLinesOutcome(lines);
  }

  lemma {:induction false} HeaderLinesAppend(p: seq<string>, q: seq<string>)
    ensures HeaderLines(p + q) == HeaderLines(p) + HeaderLines(q)
  {
    if p == [] {
      assert p + q == q;
    } else {
      assert (p + q)[1..] == p[1..] + q;
      HeaderLinesAppend(p[1..], q);
    }
  }

  lemma {:induction false} HeaderLinesNone(p: seq<string>)
    requires forall k :: 0 <= k < |p| ==> !IsHeader(p[k])
    ensures HeaderLines(p) == [] && Sections(p) == []
  {
    if p != [] {
      HeaderLinesNone(p[1..]);
    }
  }

  /**
   * The record of the header at line `i`, whose sequence lines run up to line
   * `j` (the next header or the end): it is emitted unless it is the last one
   * and has no sequence, it is numbered by the headers before it, and it holds
   * that header, its id, and the lines between `i` and `j` joined together.
   */
  lemma ParseRecordAt(lines: seq<string>, i: nat, j: nat)
    requires ParseLines(lines).Ok?
    requires i < j <= |lines| && IsHeader(lines[i])
    requires j == |lines| || IsHeader(lines[j])
    requires forall q :: i < q < j ==> !IsHeader(lines[q])
    ensures var rs := ParseLines(lines).value; var k := |HeaderLines(lines[..i])|;
      var body := Chunking.Concat(lines[i + 1..j]);
      (k < |rs| <==> j < |lines| || body != "") &&
      (k < |rs| ==> HeaderId(lines[i]).Some? && rs[k] == Record(lines[i], HeaderId(lines[i]).value, body, Ungapped(body)))
  {
    var k := |HeaderLines(lines[..i])|;
    var body := Chunking.Concat(lines[i + 1..j]);
    var secs := Sections(lines);
    var e := Emitted(secs);
    SectionBody(lines, i, j);
    HeaderIndex(lines, i, j);
    SectionHeaders(lines);
    ToRecordsAll(e);
    var rs := ParseLines(lines).value;
    assert |rs| == |e|;
    if j == |lines| && body == "" {
      assert e == secs[..|secs| - 1];
    } else {
      assert k < |e| && e[k] == secs[k];
      assert rs[k] == MakeRecord(e[k]).value;
    }
  }

  /** The section of the header at line `i` holds the lines between it and line `j`, joined. */
  lemma SectionBody(lines: seq<string>, i: nat, j: nat)
    requires i < j <= |lines| && IsHeader(lines[i])
    requires j == |lines| || IsHeader(lines[j])
    requires forall q :: i < q < j ==> !IsHeader(lines[q])
    ensures |HeaderLines(lines[..i])| < |Sections(lines)|
    ensures Sections(lines)[|HeaderLines(lines[..i])|] == Section(lines[i], Chunking.Concat(lines[i + 1..j]))
  {
    var tail := lines[i + 1..];
    SectionAt(lines, i);
    BodyUpTo(tail, j - i - 1);
    assert tail[..j - i - 1] == lines[i + 1..j];
  }

  /** The header at line `i` is the last one exactly when no later header ends its section. */
  lemma HeaderIndex(lines: seq<string>, i: nat, j: nat)
    requires i < j <= |lines| && IsHeader(lines[i])
    requires j == |lines| || IsHeader(lines[j])
    requires forall q :: i < q < j ==> !IsHeader(lines[q])
    ensures j < |lines| ==> |HeaderLines(lines[..i])| + 1 < |HeaderLines(lines)|
    ensures j == |lines| ==> |HeaderLines(lines[..i])| + 1 == |HeaderLines(lines)|
  {
    var tail := lines[i + 1..];
    var m := j - i - 1;
    assert lines == lines[..i] + ([lines[i]] + tail);
    HeaderLinesAppend(lines[..i], [lines[i]] + tail);
    HeaderLinesAppend([lines[i]], tail);
    assert tail == tail[..m] + tail[m..];
    HeaderLinesAppend(tail[..m], tail[m..]);
    HeaderLinesNone(tail[..m]);
    if j < |lines| {
      assert tail[m..][0] == lines[j];
    } else {
      assert tail[m..] == [];
    }
  }

  /** Lines before the first header are ignored. */
  lemma ParseIgnoresPreamble(p: seq<string>, q: seq<string>)
    requires forall k :: 0 <= k < |p| ==> !IsHeader(p[k])
    requires q == [] || IsHeader(q[0])
    ensures ParseLines(p + q) == ParseLines(q)
  {
    HeaderLinesNone(p);
    if q == [] {
      assert p + q == p;
    } else {
      SectionsSplit(p, q);
      assert Sections(p + q) == Sections(q);
    }
  }
}
