/** Counting the added and deleted lines of a unified diff. */
module DiffLines {
  import opened Wrappers
  import opened Orders

  // ----- Lines of a text -----

  const LF: char := '\n'
  const CR: char := '\r'

  /** A line without the carriage return that belonged to its line end. */
  function StripCr(line: string): string {
    if line != [] && line[|line|-1] == CR then line[..|line|-1] else line
  }

  /** The text up to the first line feed; the whole text if there is none. */
  function FirstLine(text: string): (line: string)
    ensures |line| <= |text| && line == text[..|line|] && LF !in line
    ensures |line| < |text| ==> text[|line|] == LF
  {
    if text == [] || text[0] == LF then []
    else [text[0]] + FirstLine(text[1..])
  }

  /** The lines of a text: a final line feed does not start another line, and a carriage return
      is dropped only in front of a line feed. */
  function Lines(text: string): seq<string>
    decreases |text|
  {
    if text == [] then []
    else
      var line := FirstLine(text);
      if |line| == |text| then [line] else [StripCr(line)] + Lines(text[|line|+1..])
  }

  // ----- The counter -----

  datatype Counts = Counts(added: nat, deleted: nat)

  datatype Scan = Scan(inHunk: bool, counts: Counts)

  predicate StartsWith(line: string, prefix: string) {
    prefix <= line
  }

  function ScanLine(s: Scan, line: string): Scan {
    if StartsWith(line, "diff --git ") then s.(inHunk := false)
    else if StartsWith(line, "@@ ") then s.(inHunk := true)
    else if !s.inHunk && (StartsWith(line, "+++ ") || StartsWith(line, "--- ")) then s
    else if StartsWith(line, "+") then s.(counts := s.counts.(added := s.counts.added + 1))
    else if StartsWith(line, "-") then s.(counts := s.counts.(deleted := s.counts.deleted + 1))
    else s
  }

  function ScanLines(s: Scan, lines: seq<string>): Scan
    decreases lines
  {
    if lines == [] then s else ScanLines(ScanLine(s, lines[0]), lines[1..])
  }

  const START: Scan := Scan(false, Counts(0, 0))

  function CountText(text: string): Counts {
    ScanLines(START, Lines(text)).counts
  }

  /** The counting loop. */
  method AcceptedLineCounts(diff: string) returns (counts: Counts)
    ensures counts == CountText(diff)
  {
    var lines := Lines(diff);
    var inHunk, added, deleted := false, 0, 0;
    for i := 0 to |lines|
      invariant ScanLines(START, lines) == ScanLines(Scan(inHunk, Counts(added, deleted)), lines[i..])
    {
      var line := lines[i];
      assert lines[i..][0] == line && lines[i..][1..] == lines[i+1..];
      if StartsWith(line, "diff --git ") {
        inHunk := false;
        continue;
      }
      if StartsWith(line, "@@ ") {
        inHunk := true;
        continue;
      }
      if !inHunk && (StartsWith(line, "+++ ") || StartsWith(line, "--- ")) {
        continue;
      }
      if StartsWith(line, "+") {
        added := added + 1;
        continue;
      }
      if StartsWith(line, "-") {
        deleted := deleted + 1;
      }
    }
    counts := Counts(added, deleted);
  }

  // ----- Printed diffs -----

  datatype HunkLine = Added(content: string) | Deleted(content: string) | Context(content: string) | NoNewline

  datatype Hunk = Hunk(range: string, lines: seq<HunkLine>)

  /** One file of a diff: the optional `diff --git` line, metadata, the optional pair of name
      lines, and the hunks. */
  datatype FileDiff = FileDiff(
    gitHeader: Option<string>, meta: seq<string>, names: Option<(string, string)>, hunks: seq<Hunk>)

  function PrintHunkLine(l: HunkLine): string {
    match l
    case Added(c) => "+" + c
    case Deleted(c) => "-" + c
    case Context(c) => " " + c
    case NoNewline => "\\ No newline at end of file"
  }

  function PrintHunkLines(ls: seq<HunkLine>): seq<string> {
    if ls == [] then [] else [PrintHunkLine(ls[0])] + PrintHunkLines(ls[1..])
  }

  function PrintHunks(hs: seq<Hunk>): seq<string> {
    if hs == [] then [] else ["@@ " + hs[0].range] + PrintHunkLines(hs[0].lines) + PrintHunks(hs[1..])
  }

  function PrintHeader(f: FileDiff): seq<string> {
    (if f.gitHeader.Some? then ["diff --git " + f.gitHeader.value] else []) + f.meta
    + (if f.names.Some? then ["--- " + f.names.value.0, "+++ " + f.names.value.1] else [])
  }

  function PrintFiles(fs: seq<FileDiff>): seq<string> {
    if fs == [] then [] else PrintHeader(fs[0]) + PrintHunks(fs[0].hunks) + PrintFiles(fs[1..])
  }

  /** Every line followed by a line feed. */
  function JoinLines(lines: seq<string>): string {
    if lines == [] then [] else lines[0] + [LF] + JoinLines(lines[1..])
  }

  function PrintDiff(fs: seq<FileDiff>): string {
    JoinLines(PrintFiles(fs))
  }

  /** A metadata line, such as a mode or index line, starts like none of the marked lines. */
  predicate PlainMeta(line: string) {
    !StartsWith(line, "diff --git ") && !StartsWith(line, "@@ ") && !StartsWith(line, "+") && !StartsWith(line, "-")
  }

  ghost predicate OneLine(s: string) {
    LF !in s
  }

  ghost predicate WellFormed(f: FileDiff) {
    && (forall m :: m in f.meta ==> PlainMeta(m))
    && (forall l :: l in PrintHeader(f) + PrintHunks(f.hunks) ==> OneLine(l))
  }

  ghost predicate AllWellFormed(fs: seq<FileDiff>) {
    forall f :: f in fs ==> WellFormed(f)
  }

  /** Every file has its `diff --git` line. */
  predicate AllGit(fs: seq<FileDiff>) {
    forall f :: f in fs ==> f.gitHeader.Some?
  }

  function HunkCounts(ls: seq<HunkLine>): Counts {
    if ls == [] then Counts(0, 0)
    else
      var c := HunkCounts(ls[1..]);
      match ls[0]
      case Added(_) => Counts(c.added + 1, c.deleted)
      case Deleted(_) => Counts(c.added, c.deleted + 1)
      case _ => c
  }

  function Plus(a: Counts, b: Counts): Counts {
    Counts(a.added + b.added, a.deleted + b.deleted)
  }

  function HunksCounts(hs: seq<Hunk>): Counts {
    if hs == [] then Counts(0, 0) else Plus(HunkCounts(hs[0].lines), HunksCounts(hs[1..]))
  }

  /** The added and deleted lines of all hunks. */
  function TrueCounts(fs: seq<FileDiff>): Counts {
    if fs == [] then Counts(0, 0) else Plus(HunksCounts(fs[0].hunks), TrueCounts(fs[1..]))
  }

  /** Whether the scan is inside a hunk after a file. */
  function InHunkAfter(inHunk: bool, f: FileDiff): bool {
    f.hunks != [] || (inHunk && f.gitHeader.None?)
  }

  /** File headers read as changes: name lines that follow a hunk without a `diff --git` line between. */
  function Misread(inHunk: bool, fs: seq<FileDiff>): nat
    decreases fs
  {
    if fs == [] then 0
    else (if inHunk && fs[0].gitHeader.None? && fs[0].names.Some? then 1 else 0) + Misread(InHunkAfter(inHunk, fs[0]), fs[1..])
  }

  // ----- Lines of a printed text -----

  lemma {:induction false} FirstLineOf(line: string, rest: string)
    requires LF !in line
    ensures FirstLine(line + [LF] + rest) == line
  {
    var text := line + [LF] + rest;
    if line != [] {
      assert text[1..] == line[1..] + [LF] + rest;
      FirstLineOf(line[1..], rest);
      assert line == [line[0]] + line[1..];
    }
  }

  function StripAll(lines: seq<string>): seq<string> {
    if lines == [] then [] else [StripCr(lines[0])] + StripAll(lines[1..])
  }

  lemma {:induction false} LinesOfJoined(lines: seq<string>)
    requires forall l :: l in lines ==> OneLine(l)
    ensures Lines(JoinLines(lines)) == StripAll(lines)
  {
    if lines != [] {
      var rest := JoinLines(lines[1..]);
      var text := lines[0] + [LF] + rest;
      assert lines[0] in lines;
      FirstLineOf(lines[0], rest);
      assert text[|lines[0]|+1..] == rest;
      LinesOfJoined(lines[1..]);
    }
  }

  lemma StripKeepsPrefix(line: string, prefix: string)
    requires CR !in prefix
    ensures StartsWith(StripCr(line), prefix) <==> StartsWith(line, prefix)
  {
    assert prefix != [] ==> prefix[|prefix|-1] in prefix;
  }

  /** A carriage return before the line feed changes nothing for the counter. */
  lemma ScanStripped(s: Scan, line: string)
    ensures ScanLine(s, StripCr(line)) == ScanLine(s, line)
  {
    StripKeepsPrefix(line, "diff --git ");
    StripKeepsPrefix(line, "@@ ");
    StripKeepsPrefix(line, "+++ ");
    StripKeepsPrefix(line, "--- ");
    StripKeepsPrefix(line, "+");
    StripKeepsPrefix(line, "-");
  }

  lemma {:induction false} ScanStrippedAll(s: Scan, lines: seq<string>)
    ensures ScanLines(s, StripAll(lines)) == ScanLines(s, lines)
    decreases lines
  {
    if lines != [] {
      ScanStripped(s, lines[0]);
      ScanStrippedAll(ScanLine(s, lines[0]), lines[1..]);
      assert StripAll(lines)[1..] == StripAll(lines[1..]);
    }
  }

  lemma {:induction false} ScanConcat(s: Scan, a: seq<string>, b: seq<string>)
    ensures ScanLines(s, a + b) == ScanLines(ScanLines(s, a), b)
    decreases a
  {
    if a == [] {
      assert a + b == b;
    } else {
      assert (a + b)[0] == a[0] && (a + b)[1..] == a[1..] + b;
      ScanConcat(ScanLine(s, a[0]), a[1..], b);
    }
  }

  // ----- Scanning a printed diff -----

  /** What a line looks like to the scan. */
  datatype Look = GitLine | HunkMark | PlusName | MinusName | PlusLine | MinusLine | OtherLine

  function LookOf(line: string): Look {
    if StartsWith(line, "diff --git ") then GitLine
    else if StartsWith(line, "@@ ") then HunkMark
    else if StartsWith(line, "+++ ") then PlusName
    else if StartsWith(line, "--- ") then MinusName
    else if StartsWith(line, "+") then PlusLine
    else if StartsWith(line, "-") then MinusLine
    else OtherLine
  }

  function ScanLook(s: Scan, look: Look): Scan {
    match look
    case GitLine => s.(inHunk := false)
    case HunkMark => s.(inHunk := true)
    case PlusName => if s.inHunk then s.(counts := Plus(s.counts, Counts(1, 0))) else s
    case MinusName => if s.inHunk then s.(counts := Plus(s.counts, Counts(0, 1))) else s
    case PlusLine => s.(counts := Plus(s.counts, Counts(1, 0)))
    case MinusLine => s.(counts := Plus(s.counts, Counts(0, 1)))
    case OtherLine => s
  }

  lemma FirstChar(line: string, prefix: string)
    requires prefix != []
    ensures StartsWith(line, prefix) ==> line != [] && line[0] == prefix[0]
    ensures |prefix| == 1 ==> (StartsWith(line, prefix) <==> line != [] && line[0] == prefix[0])
  {
  }

  lemma FirstChars(line: string)
    ensures StartsWith(line, "diff --git ") ==> line != [] && line[0] == 'd'
    ensures StartsWith(line, "@@ ") ==> line != [] && line[0] == '@'
    ensures StartsWith(line, "+++ ") ==> line != [] && line[0] == '+'
    ensures StartsWith(line, "--- ") ==> line != [] && line[0] == '-'
    ensures StartsWith(line, "+") <==> line != [] && line[0] == '+'
    ensures StartsWith(line, "-") <==> line != [] && line[0] == '-'
  {
    FirstChar(line, "diff --git ");
    FirstChar(line, "@@ ");
    FirstChar(line, "+++ ");
    FirstChar(line, "--- ");
    FirstChar(line, "+");
    FirstChar(line, "-");
  }

  lemma ScanByLook(s: Scan, line: string)
    ensures ScanLine(s, line) == ScanLook(s, LookOf(line))
  {
    FirstChars(line);
  }

  /** The first character decides which marks are possible. */
  lemma LookByFirst(line: string)
    requires line != []
    ensures line[0] == '+' ==> LookOf(line).PlusName? || LookOf(line).PlusLine?
    ensures line[0] == '-' ==> LookOf(line).MinusName? || LookOf(line).MinusLine?
    ensures line[0] == ' ' || line[0] == '\\' ==> LookOf(line).OtherLine?
  {
    FirstChars(line);
  }

  lemma MarkedLooks(x: string)
    ensures LookOf("diff --git " + x) == GitLine && LookOf("@@ " + x) == HunkMark
    ensures LookOf("--- " + x) == MinusName && LookOf("+++ " + x) == PlusName
  {
    FirstChars("@@ " + x);
    FirstChars("--- " + x);
    FirstChars("+++ " + x);
    assert StartsWith("diff --git " + x, "diff --git ");
  }

  lemma MetaLook(line: string)
    requires PlainMeta(line)
    ensures LookOf(line) == OtherLine
  {
    FirstChars(line);
  }

  lemma ScanOne(s: Scan, line: string)
    ensures ScanLines(s, [line]) == ScanLook(s, LookOf(line))
  {
    ScanByLook(s, line);
    var lines: seq<string> := [line];
    assert lines[1..] == [];
  }

  /** Inside a hunk a printed line counts by its tag, whatever its content. */
  lemma ScanHunkLine(c: Counts, l: HunkLine)
    ensures ScanLine(Scan(true, c), PrintHunkLine(l)) == Scan(true, Plus(c, HunkCounts([l])))
  {
    LookByFirst(PrintHunkLine(l));
    ScanByLook(Scan(true, c), PrintHunkLine(l));
    assert HunkCounts([]) == Counts(0, 0);
  }

  lemma {:induction false} ScanHunkLines(c: Counts, ls: seq<HunkLine>)
    ensures ScanLines(Scan(true, c), PrintHunkLines(ls)) == Scan(true, Plus(c, HunkCounts(ls)))
    decreases ls
  {
    if ls != [] {
      ScanHunkLine(c, ls[0]);
      var d := Plus(c, HunkCounts([ls[0]]));
      ScanHunkLines(d, ls[1..]);
      assert PrintHunkLines(ls)[1..] == PrintHunkLines(ls[1..]);
      assert [ls[0]][1..] == [];
    }
  }

  lemma {:induction false} ScanHunks(inHunk: bool, c: Counts, hs: seq<Hunk>)
    ensures ScanLines(Scan(inHunk, c), PrintHunks(hs)) == Scan(inHunk || hs != [], Plus(c, HunksCounts(hs)))
    decreases hs
  {
    if hs != [] {
      var mark, body := "@@ " + hs[0].range, PrintHunkLines(hs[0].lines);
      MarkedLooks(hs[0].range);
      ScanOne(Scan(inHunk, c), mark);
      ScanHunkLines(c, hs[0].lines);
      ScanConcat(Scan(inHunk, c), [mark], body);
      ScanConcat(Scan(inHunk, c), [mark] + body, PrintHunks(hs[1..]));
      ScanHunks(true, Plus(c, HunkCounts(hs[0].lines)), hs[1..]);
    }
  }

  lemma {:induction false} ScanMeta(s: Scan, meta: seq<string>)
    requires forall m :: m in meta ==> PlainMeta(m)
    ensures ScanLines(s, meta) == s
    decreases meta
  {
    if meta != [] {
      MetaLook(meta[0]);
      ScanByLook(s, meta[0]);
      ScanMeta(s, meta[1..]);
    }
  }

  lemma ScanNames(s: Scan, a: string, b: string)
    ensures ScanLines(s, ["--- " + a, "+++ " + b]) ==
            if s.inHunk then s.(counts := Plus(s.counts, Counts(1, 1))) else s
  {
    MarkedLooks(a);
    MarkedLooks(b);
    var s1 := ScanLook(s, MinusName);
    ScanOne(s, "--- " + a);
    ScanOne(s1, "+++ " + b);
    ScanConcat(s, ["--- " + a], ["+++ " + b]);
    assert ["--- " + a] + ["+++ " + b] == ["--- " + a, "+++ " + b];
  }

  lemma ScanHeader(s: Scan, f: FileDiff)
    requires WellFormed(f)
    ensures var inHunk := s.inHunk && f.gitHeader.None?;
            var extra := if inHunk && f.names.Some? then Counts(1, 1) else Counts(0, 0);
            ScanLines(s, PrintHeader(f)) == Scan(inHunk, Plus(s.counts, extra))
  {
    var head := if f.gitHeader.Some? then ["diff --git " + f.gitHeader.value] else [];
    var names := if f.names.Some? then ["--- " + f.names.value.0, "+++ " + f.names.value.1] else [];
    var s1 := s.(inHunk := s.inHunk && f.gitHeader.None?);
    if f.gitHeader.Some? {
      MarkedLooks(f.gitHeader.value);
      ScanOne(s, "diff --git " + f.gitHeader.value);
    }
    assert ScanLines(s, head) == s1;
    ScanConcat(s, head, f.meta);
    ScanMeta(s1, f.meta);
    ScanConcat(s, head + f.meta, names);
    if f.names.Some? { ScanNames(s1, f.names.value.0, f.names.value.1); }
  }

  lemma ScanFile(s: Scan, f: FileDiff)
    requires WellFormed(f)
    ensures var m := if s.inHunk && BareNames(f) then 1 else 0;
            ScanLines(s, PrintHeader(f) + PrintHunks(f.hunks)) ==
            Scan(InHunkAfter(s.inHunk, f), Plus(Plus(s.counts, Counts(m, m)), HunksCounts(f.hunks)))
  {
    ScanHeader(s, f);
    ScanConcat(s, PrintHeader(f), PrintHunks(f.hunks));
    var after := ScanLines(s, PrintHeader(f));
    ScanHunks(after.inHunk, after.counts, f.hunks);
  }

  lemma Regroup(c: Counts, h: Counts, t: Counts, m: nat, n: nat)
    ensures Plus(Plus(Plus(Plus(c, Counts(m, m)), h), t), Counts(n, n)) == Plus(Plus(c, Plus(h, t)), Counts(m + n, m + n))
  {
  }

  lemma {:induction false} ScanFiles(s: Scan, fs: seq<FileDiff>)
    requires AllWellFormed(fs)
    ensures var m := Misread(s.inHunk, fs);
            ScanLines(s, PrintFiles(fs)).counts == Plus(Plus(s.counts, TrueCounts(fs)), Counts(m, m))
    decreases fs
  {
    if fs != [] {
      var f, lines, rest := fs[0], PrintHeader(fs[0]) + PrintHunks(fs[0].hunks), fs[1..];
      assert f in fs;
      ScanFile(s, f);
      ScanConcat(s, lines, PrintFiles(rest));
      var t := ScanLines(s, lines);
      ScanFiles(t, rest);
      Regroup(s.counts, HunksCounts(f.hunks), TrueCounts(rest), if s.inHunk && BareNames(f) then 1 else 0, Misread(t.inHunk, rest));
    }
  }

  lemma {:induction false} PrintedOneLine(fs: seq<FileDiff>)
    requires AllWellFormed(fs)
    ensures forall l :: l in PrintFiles(fs) ==> OneLine(l)
  {
    if fs != [] {
      assert fs[0] in fs;
      PrintedOneLine(fs[1..]);
    }
  }

  /** Counting a printed diff gives its added and deleted lines, plus one of each for every
      misread pair of name lines. */
  lemma {:induction false} CountsOfPrinted(fs: seq<FileDiff>)
    requires AllWellFormed(fs)
    ensures var m := Misread(false, fs); CountText(PrintDiff(fs)) == Plus(TrueCounts(fs), Counts(m, m))
  {
    PrintedOneLine(fs);
    CountJoined(PrintFiles(fs));
    ScanFiles(START, fs);
    ZeroPlus(TrueCounts(fs));
  }

  lemma CountJoined(lines: seq<string>)
    requires forall l :: l in lines ==> OneLine(l)
    ensures CountText(JoinLines(lines)) == ScanLines(START, lines).counts
  {
    LinesOfJoined(lines);
    ScanStrippedAll(START, lines);
  }

  lemma ZeroPlus(c: Counts)
    ensures Plus(START.counts, c) == c && Plus(c, Counts(0, 0)) == c
  {
  }

  predicate BareNames(f: FileDiff) {
    f.names.Some? && f.gitHeader.None?
  }

  /** A `diff --git` line comes before any bare name lines. */
  ghost predicate OpenSafe(fs: seq<FileDiff>) {
    forall j :: 0 <= j < |fs| && BareNames(fs[j]) ==> GitBetween(fs, -1, j)
  }

  ghost predicate GitBetween(fs: seq<FileDiff>, i: int, j: int) {
    exists k :: 0 <= k < |fs| && i < k < j && fs[k].gitHeader.Some?
  }

  /** Between a hunk and later name lines there is always a `diff --git` line. */
  ghost predicate Separated(fs: seq<FileDiff>) {
    forall i, j :: 0 <= i < j < |fs| && fs[i].hunks != [] && BareNames(fs[j]) ==> GitBetween(fs, i, j)
  }

  lemma GitBetweenTail(fs: seq<FileDiff>, i: int, j: int)
    requires fs != [] && 0 <= i < j
    ensures GitBetween(fs, i, j) <==> GitBetween(fs[1..], i - 1, j - 1)
  {
    if k :| 0 <= k < |fs| && i < k < j && fs[k].gitHeader.Some? {
      assert fs[1..][k-1] == fs[k];
    }
    if k :| 0 <= k < |fs| - 1 && i - 1 < k < j - 1 && fs[1..][k].gitHeader.Some? {
      assert fs[k+1] == fs[1..][k];
    }
  }

  lemma OpenSafeStep(fs: seq<FileDiff>)
    requires fs != []
    ensures OpenSafe(fs) <==> !BareNames(fs[0]) && (fs[0].gitHeader.Some? || OpenSafe(fs[1..]))
  {
    var rest := fs[1..];
    forall j | 1 <= j < |fs| ensures GitBetween(fs, -1, j) <==> fs[0].gitHeader.Some? || GitBetween(rest, -1, j - 1) {
      GitBetweenTail(fs, 0, j);
      assert GitBetween(fs, 0, j) ==> GitBetween(fs, -1, j);
    }
    if OpenSafe(fs) && fs[0].gitHeader.None? {
      assert BareNames(fs[0]) ==> GitBetween(fs, -1, 0);
      forall j | 0 <= j < |rest| && BareNames(rest[j]) ensures GitBetween(rest, -1, j) {
        assert rest[j] == fs[j+1];
      }
    }
  }

  lemma SeparatedStep(fs: seq<FileDiff>)
    requires fs != []
    ensures Separated(fs) <==> Separated(fs[1..]) && (fs[0].hunks != [] ==> OpenSafe(fs[1..]))
  {
    var rest := fs[1..];
    if Separated(fs) {
      forall i, j | 0 <= i < j < |rest| && rest[i].hunks != [] && BareNames(rest[j]) ensures GitBetween(rest, i, j) {
        assert rest[i] == fs[i+1] && rest[j] == fs[j+1];
        GitBetweenTail(fs, i + 1, j + 1);
      }
      forall j | 0 <= j < |rest| && BareNames(rest[j]) && fs[0].hunks != [] ensures GitBetween(rest, -1, j) {
        assert rest[j] == fs[j+1];
        GitBetweenTail(fs, 0, j + 1);
      }
    }
    if Separated(rest) && (fs[0].hunks != [] ==> OpenSafe(rest)) {
      forall i, j | 0 <= i < j < |fs| && fs[i].hunks != [] && BareNames(fs[j]) ensures GitBetween(fs, i, j) {
        assert fs[j] == rest[j-1];
        assert i > 0 ==> fs[i] == rest[i-1];
        GitBetweenTail(fs, i, j);
      }
    }
  }

  lemma {:induction false} MisreadIff(inHunk: bool, fs: seq<FileDiff>)
    ensures Misread(inHunk, fs) == 0 <==> Separated(fs) && (inHunk ==> OpenSafe(fs))
    decreases fs
  {
    if fs != [] {
      MisreadIff(InHunkAfter(inHunk, fs[0]), fs[1..]);
      OpenSafeStep(fs);
      SeparatedStep(fs);
    }
  }

  /** The count is right if and only if a `diff --git` line stands between every hunk and the
      name lines of a later file. */
  lemma {:induction false} CountsExactIff(fs: seq<FileDiff>)
    requires AllWellFormed(fs)
    ensures CountText(PrintDiff(fs)) == TrueCounts(fs) <==> Separated(fs)
  {
    CountsOfPrinted(fs);
    MisreadIff(false, fs);
    PlusNothingIff(TrueCounts(fs), Misread(false, fs));
  }

  lemma PlusNothingIff(c: Counts, m: nat)
    ensures Plus(c, Counts(m, m)) == c <==> m == 0
  {
  }

  lemma {:induction false} GitNeverMisread(inHunk: bool, fs: seq<FileDiff>)
    requires AllGit(fs)
    ensures Misread(inHunk, fs) == 0
    decreases fs
  {
    if fs != [] {
      assert fs[0] in fs;
      GitNeverMisread(InHunkAfter(inHunk, fs[0]), fs[1..]);
    }
  }

  /** Every git diff is counted exactly, whatever its contents look like. */
  lemma {:induction false} GitDiffsExact(fs: seq<FileDiff>)
    requires AllWellFormed(fs) && AllGit(fs)
    ensures CountText(PrintDiff(fs)) == TrueCounts(fs)
  {
    CountsOfPrinted(fs);
    GitNeverMisread(false, fs);
    ZeroPlus(TrueCounts(fs));
  }

  /** Two files of a plain unified diff, without `diff --git` lines, are always miscounted. */
  lemma {:induction false} PlainDiffMiscounted(f: FileDiff, g: FileDiff)
    requires WellFormed(f) && WellFormed(g) && f.hunks != [] && BareNames(g)
    ensures AllWellFormed([f, g]) && CountText(PrintDiff([f, g])) != TrueCounts([f, g])
  {
    var fs: seq<FileDiff> := [f, g];
    assert !GitBetween(fs, 0, 1);
    assert fs[0] == f && fs[1] == g;
    CountsExactIff(fs);
  }

  /** For example a file of one empty hunk under empty names, twice. */
  lemma PlainDiffExample() returns (f: FileDiff)
    ensures f == FileDiff(None, [], Some(("", "")), [Hunk("", [])])
    ensures AllWellFormed([f, f]) && CountText(PrintDiff([f, f])) != TrueCounts([f, f])
  {
    f := FileDiff(None, [], Some(("", "")), [Hunk("", [])]);
    assert f.hunks[1..] == [];
    var lines := PrintHeader(f) + PrintHunks(f.hunks);
    assert PrintHunks(f.hunks) == ["@@ " + ""] + [] + [];
    assert lines == ["--- " + "", "+++ " + "", "@@ " + ""];
    assert OneLine("--- ") && OneLine("+++ ") && OneLine("@@ ");
    assert "--- " + "" == "--- " && "+++ " + "" == "+++ " && "@@ " + "" == "@@ ";
    PlainDiffMiscounted(f, f);
  }

  // ----- Any text -----

  /** A hunk mark comes before line `i`, with no `diff --git` line after it. */
  ghost predicate InHunkAt(lines: seq<string>, i: nat) {
    exists j: nat :: j < i && j < |lines| && MarksHunk(lines, i, j)
  }

  ghost predicate MarksHunk(lines: seq<string>, i: nat, j: nat)
    requires j < |lines|
  {
    "@@ " <= lines[j] && forall k :: j < k < i && k < |lines| ==> !("diff --git " <= lines[k])
  }

  /** The lines counted as added: those that start with a plus, except name lines outside hunks. */
  ghost function AddedAt(lines: seq<string>): set<nat> {
    set i: nat | i < |lines| && "+" <= lines[i] && ("+++ " <= lines[i] ==> InHunkAt(lines, i))
  }

  ghost function DeletedAt(lines: seq<string>): set<nat> {
    set i: nat | i < |lines| && "-" <= lines[i] && ("--- " <= lines[i] ==> InHunkAt(lines, i))
  }

  lemma ScanEffect(s: Scan, line: string)
    ensures var t := ScanLine(s, line);
            && t.inHunk == (!("diff --git " <= line) && ("@@ " <= line || s.inHunk))
            && t.counts.added == s.counts.added + (if "+" <= line && ("+++ " <= line ==> s.inHunk) then 1 else 0)
            && t.counts.deleted == s.counts.deleted + (if "-" <= line && ("--- " <= line ==> s.inHunk) then 1 else 0)
  {
    FirstChars(line);
  }

  /** Earlier lines decide alone whether a line is in a hunk. */
  lemma InHunkPrefix(lines: seq<string>, n: nat, i: nat)
    requires i <= n <= |lines|
    ensures InHunkAt(lines[..n], i) <==> InHunkAt(lines, i)
  {
    assert forall j: nat :: j < n ==> lines[..n][j] == lines[j];
    forall j: nat | j < i ensures MarksHunk(lines[..n], i, j) <==> MarksHunk(lines, i, j) {}
  }

  lemma InHunkNext(lines: seq<string>, n: nat)
    requires n < |lines|
    ensures InHunkAt(lines, n + 1) <==>
            !("diff --git " <= lines[n]) && ("@@ " <= lines[n] || InHunkAt(lines, n))
  {
    FirstChars(lines[n]);
    forall j: nat | j < n ensures MarksHunk(lines, n + 1, j) <==> MarksHunk(lines, n, j) && !("diff --git " <= lines[n]) {}
    if "@@ " <= lines[n] {
      assert MarksHunk(lines, n + 1, n);
    } else if j: nat :| j < n && MarksHunk(lines, n, j) {
      assert !("diff --git " <= lines[n]) ==> MarksHunk(lines, n + 1, j);
    }
    var next := n + 1;
    if j: nat :| j < next && MarksHunk(lines, next, j) {
      assert j == n || MarksHunk(lines, n, j);
    }
  }

  lemma GrowsBy(all: set<nat>, before: set<nat>, n: nat, more: bool)
    requires n !in before && forall i :: i in all <==> i in before || (more && i == n)
    ensures |all| == |before| + if more then 1 else 0
  {
    assert all == if more then before + {n} else before;
  }

  lemma AddedSnoc(lines: seq<string>, n: nat)
    requires |lines| == n + 1
    ensures var more := "+" <= lines[n] && ("+++ " <= lines[n] ==> InHunkAt(lines, n));
            |AddedAt(lines)| == |AddedAt(lines[..n])| + if more then 1 else 0
  {
    forall i: nat | i < n ensures InHunkAt(lines[..n], i) <==> InHunkAt(lines, i) { InHunkPrefix(lines, n, i); }
    GrowsBy(AddedAt(lines), AddedAt(lines[..n]), n, n in AddedAt(lines));
  }

  lemma DeletedSnoc(lines: seq<string>, n: nat)
    requires |lines| == n + 1
    ensures var more := "-" <= lines[n] && ("--- " <= lines[n] ==> InHunkAt(lines, n));
            |DeletedAt(lines)| == |DeletedAt(lines[..n])| + if more then 1 else 0
  {
    forall i: nat | i < n ensures InHunkAt(lines[..n], i) <==> InHunkAt(lines, i) { InHunkPrefix(lines, n, i); }
    GrowsBy(DeletedAt(lines), DeletedAt(lines[..n]), n, n in DeletedAt(lines));
  }

  lemma {:induction false} ScanIs(lines: seq<string>)
    ensures var s := ScanLines(START, lines);
            && (s.inHunk <==> InHunkAt(lines, |lines|))
            && s.counts == Counts(|AddedAt(lines)|, |DeletedAt(lines)|)
  {
    if lines != [] {
      var n := |lines| - 1;
      var before, last := lines[..n], [lines[n]];
      ScanIs(before);
      assert lines == before + last;
      ScanConcat(START, before, last);
      ScanOne(ScanLines(START, before), lines[n]);
      ScanByLook(ScanLines(START, before), lines[n]);
      ScanEffect(ScanLines(START, before), lines[n]);
      InHunkPrefix(lines, n, n);
      InHunkNext(lines, n);
      AddedSnoc(lines, n);
      DeletedSnoc(lines, n);
    }
  }

  /** What is counted in any text, well formed or not. */
  lemma {:induction false} CountsAre(text: string)
    ensures CountText(text) == Counts(|AddedAt(Lines(text))|, |DeletedAt(Lines(text))|)
  {
    ScanIs(Lines(text));
  }

  /** A line ends at a line feed, with or without a carriage return in front of it. */
  lemma {:induction false} LineEnds(line: string, rest: string)
    requires LF !in line
    ensures Lines(line + "\r\n" + rest) == [line] + Lines(rest)
    ensures line == [] || line[|line|-1] != '\r' ==> Lines(line + "\n" + rest) == [line] + Lines(rest)
  {
    FirstLineOf(line, rest);
    LinesSplit(line + [LF] + rest, line);
    assert (line + [LF] + rest)[|line|+1..] == rest;
    var ended := line + [CR];
    assert line + "\r\n" + rest == ended + [LF] + rest;
    FirstLineOf(ended, rest);
    LinesSplit(ended + [LF] + rest, ended);
    assert (ended + [LF] + rest)[|ended|+1..] == rest;
  }

  // ----- Appending diffs -----

  lemma {:induction false} FirstLineConcat(a: string, b: string)
    requires |FirstLine(a)| < |a|
    ensures FirstLine(a + b) == FirstLine(a)
  {
    assert a != [];
    if a[0] != LF {
      assert (a + b)[1..] == a[1..] + b;
      FirstLineConcat(a[1..], b);
    }
  }

  /** A line ends no later than any line feed. */
  lemma FirstLineShort(text: string, i: nat)
    requires i < |text| && text[i] == LF
    ensures |FirstLine(text)| <= i
  {
    var line := FirstLine(text);
    assert forall j :: 0 <= j < |line| ==> line[j] == text[j] && line[j] in line;
  }

  lemma {:induction false} FirstLineWhole(text: string)
    requires LF !in text
    ensures FirstLine(text) == text
  {
    if text != [] {
      assert text == [text[0]] + text[1..];
      FirstLineWhole(text[1..]);
    }
  }

  /** A last line without a line feed is taken as it is, carriage return included. */
  lemma {:induction false} LinesOfTail(text: string)
    requires text != [] && LF !in text
    ensures Lines(text) == [text]
  {
    FirstLineWhole(text);
  }

  lemma LinesSplit(text: string, line: string)
    requires line == FirstLine(text) && |line| < |text|
    ensures Lines(text) == [StripCr(line)] + Lines(text[|line|+1..])
  {
  }

  lemma {:induction false} LinesConcat(a: string, b: string)
    requires a == [] || a[|a|-1] == LF
    ensures Lines(a + b) == Lines(a) + Lines(b)
    decreases |a|
  {
    if a == [] {
      assert a + b == b;
    } else {
      var line := FirstLine(a);
      FirstLineShort(a, |a| - 1);
      FirstLineConcat(a, b);
      var rest := a[|line|+1..];
      assert (a + b)[|line|+1..] == rest + b;
      LinesConcat(rest, b);
      LinesSplit(a + b, line);
      LinesSplit(a, line);
      Assoc([StripCr(line)], Lines(rest), Lines(b));
    }
  }

  lemma {:induction false} ScanAddsUp(inHunk: bool, c: Counts, d: Counts, lines: seq<string>)
    ensures ScanLines(Scan(inHunk, Plus(c, d)), lines).counts == Plus(c, ScanLines(Scan(inHunk, d), lines).counts)
    ensures ScanLines(Scan(inHunk, Plus(c, d)), lines).inHunk == ScanLines(Scan(inHunk, d), lines).inHunk
    decreases lines
  {
    if lines != [] {
      ScanByLook(Scan(inHunk, d), lines[0]);
      ScanByLook(Scan(inHunk, Plus(c, d)), lines[0]);
      var s := ScanLine(Scan(inHunk, d), lines[0]);
      assert ScanLine(Scan(inHunk, Plus(c, d)), lines[0]) == Scan(s.inHunk, Plus(c, s.counts));
      ScanAddsUp(s.inHunk, c, s.counts, lines[1..]);
    }
  }

  /** After a `diff --git` line the scan goes on as from the start. */
  lemma HeaderResets(s: Scan, lines: seq<string>)
    requires lines != [] && StartsWith(lines[0], "diff --git ")
    ensures ScanLines(s, lines).counts == Plus(s.counts, ScanLines(START, lines).counts)
  {
    ScanAddsUp(false, s.counts, Counts(0, 0), lines[1..]);
    ZeroPlus(s.counts);
  }

  /** Counts add up when a git diff is appended to a text that ends its last line. */
  lemma {:induction false} CountsAppend(a: string, b: string)
    requires (a == [] || a[|a|-1] == LF) && StartsWith(b, "diff --git ")
    ensures CountText(a + b) == Plus(CountText(a), CountText(b))
  {
    LinesConcat(a, b);
    ScanConcat(START, Lines(a), Lines(b));
    FirstLineIsHeader(b);
    HeaderResets(ScanLines(START, Lines(a)), Lines(b));
  }

  lemma FirstLineIsHeader(b: string)
    requires StartsWith(b, "diff --git ")
    ensures Lines(b) != [] && StartsWith(Lines(b)[0], "diff --git ")
  {
    var line := FirstLine(b);
    assert LF !in "diff --git ";
    assert forall i :: 0 <= i < |"diff --git "| ==> b[i] in "diff --git ";
    assert |"diff --git "| <= |line|;
    assert StartsWith(line, "diff --git ");
    StripKeepsPrefix(line, "diff --git ");
  }
}
