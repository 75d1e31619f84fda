/**
  The segmenter of the comparison page (`processMarkdownList`): cuts a
  document into blocks, either on a fixed delimiter or with a markdown-aware
  second pass.
 */
module Segmenter {
  import opened Text

  /** The split strategy: blank-line boundaries or every line boundary. */
  datatype SplitMethod = Double | Single

  /** The literal delimiter of a strategy. */
  function Delimiter(m: SplitMethod): (d: string)
    ensures |d| > 0
  {
    if m == Single then "\n" else "\n\n"
  }

  /** `xs.flatMap(f)`. */
  function FlatMap<A, B>(f: A -> seq<B>, xs: seq<A>): seq<B> {
    if xs == [] then [] else f(xs[0]) + FlatMap(f, xs[1..])
  }

  // ---------------------------------------------------------------------
  // The line scan of the double-break markdown pass
  // ---------------------------------------------------------------------

  /** A line whose trimmed form starts with `>` (see `BlockquoteByTrim`):
      after its leading white space comes a `>`. The aligner uses the same
      classification for whole blocks. */
  predicate IsBlockquote(line: string) {
    if |line| > 0 && IsWs(line[0]) then IsBlockquote(line[1..])
    else |line| > 0 && line[0] == '>'
  }

  /** `IsBlockquote` is `line.trim().startsWith('>')`. */
  lemma {:induction false} BlockquoteByTrim(line: string)
    ensures IsBlockquote(line) <==> |Trim(line)| > 0 && Trim(line)[0] == '>'
    decreases |line|
  {
    if |line| > 0 && IsWs(line[0]) {
      TrimSkip(line);
      BlockquoteByTrim(line[1..]);
    } else if |line| > 0 {
      TrimKeepsFirst(line);
    }
  }

  /** The text of a blockquote line after its first `>`, trimmed (see
      `PayloadByTrim`). */
  function Payload(line: string): (p: string)
    requires IsBlockquote(line)
    ensures Trimmed(p)
    decreases |line|
  {
    if IsWs(line[0]) then Payload(line[1..]) else Trim(line[1..])
  }

  /** `Payload` is `line.trim().slice(1).trim()`. */
  lemma {:induction false} PayloadByTrim(line: string)
    requires IsBlockquote(line)
    ensures |Trim(line)| > 0 && Payload(line) == Trim(Trim(line)[1..])
    decreases |line|
  {
    if IsWs(line[0]) {
      TrimSkip(line);
      PayloadByTrim(line[1..]);
    } else {
      TrimUnpadded(line);
      TrimKeepsFirst(line);
      TrimEndDropsWs(line);
      var x := TrimEnd(line);
      assert line[1..] == x[1..] + line[|x|..];
      TrimWs(x[1..], line[|x|..]);
    }
  }

  /** Every character of the payload comes from the line. */
  lemma {:induction false} PayloadChars(line: string)
    requires IsBlockquote(line)
    ensures forall c :: c in Payload(line) ==> c in line
    decreases |line|
  {
    if IsWs(line[0]) {
      PayloadChars(line[1..]);
    } else {
      TrimChars(line[1..]);
    }
  }

  /** The line as the scan judges it: the payload of a blockquote line,
      any other line verbatim. It is empty exactly for an empty line and
      for a `>` with only white space around it (see `BlankByTrim`); a line
      of white space only is kept as it is. */
  function Processed(line: string): string {
    if IsBlockquote(line) then Payload(line) else line
  }

  /** A line the scan treats as empty: an empty line, or a `>` with only
      white space around it. */
  predicate Blank(line: string) {
    Processed(line) == ""
  }

  /** `processedLine === ''` holds exactly for the empty line and for a line
      that trims to `>`. */
  lemma BlankByTrim(line: string)
    ensures Blank(line) <==> line == "" || Trim(line) == ">"
  {
    if IsBlockquote(line) {
      QuotePayloadEmpty(line);
    } else {
      BlockquoteByTrim(line);
    }
  }

  /** A blockquote line has an empty payload exactly when it trims to `>`. */
  lemma QuotePayloadEmpty(line: string)
    requires IsBlockquote(line)
    ensures Payload(line) == "" <==> Trim(line) == ">"
  {
    BlockquoteByTrim(line);
    PayloadByTrim(line);
    var t := Trim(line);
    if |t| > 1 {
      TrimmedTail(t);
    } else {
      assert t == [t[0]];
      assert t[1..] == "";
    }
  }

  /** What follows the first character of a trimmed text of two or more
      characters does not trim away. */
  lemma TrimmedTail(t: string)
    requires Trimmed(t) && |t| > 1
    ensures Trim(t[1..]) != ""
  {
    var u := t[1..];
    assert !IsWs(u[|u| - 1]);
    var v := TrimStart(u);
    TrimStartDropsWs(u);
    assert v != [] && v[|v| - 1] == u[|u| - 1];
    TrimEndDropsWs(v);
  }

  /** The text the scan appends for a line it keeps. */
  function Rendered(line: string): string {
    if IsBlockquote(line) then "> " + Payload(line) else line
  }

  /** The scan's accumulator: the finished sub-blocks and the running one. */
  datatype Scan = Scan(result: seq<string>, currentBlock: string)

  /** One iteration of the scan: an empty processed line flushes the running
      sub-block (if any); any other line is appended to it on a new line. */
  function Step(st: Scan, line: string): Scan {
    if Blank(line) then
      if st.currentBlock != "" then Scan(st.result + [st.currentBlock], "") else st
    else
      Scan(st.result, st.currentBlock + (if st.currentBlock != "" then "\n" else "") + Rendered(line))
  }

  /** The scan over a sequence of lines, left to right. */
  function ScanLines(st: Scan, lines: seq<string>): Scan
    decreases |lines|
  {
    if lines == [] then st else ScanLines(Step(st, lines[0]), lines[1..])
  }

  /** The final flush: a non-empty running sub-block is pushed. */
  function Flush(st: Scan): seq<string> {
    if st.currentBlock != "" then st.result + [st.currentBlock] else st.result
  }

  /** The sub-blocks the double-break markdown pass makes of one block. */
  function Rescan(block: string): seq<string> {
    Flush(ScanLines(Scan([], ""), Split(block, "\n")))
  }

  /** The scan as the page runs it: a loop over the lines of the block that
      updates the running sub-block and pushes finished ones. */
  method RescanBlock(block: string) returns (result: seq<string>)
    ensures result == Rescan(block)
    ensures forall b :: b in result ==> NoEmptyLine(b)
  {
    var lines := Split(block, "\n");
    result := [];
    var currentBlock := "";
    var i := 0;
    while i < |lines|
      invariant 0 <= i <= |lines|
      invariant ScanLines(Scan(result, currentBlock), lines[i..]) == ScanLines(Scan([], ""), lines)
    {
      var line := lines[i];
      var trimmedLine := Trim(line);
      var isBlockquote := |trimmedLine| > 0 && trimmedLine[0] == '>';
      BlockquoteByTrim(line);
      if isBlockquote {
        PayloadByTrim(line);
      }
      var processedLine := if isBlockquote then Trim(trimmedLine[1..]) else line;
      if processedLine == "" {
        if currentBlock != "" {
          result := result + [currentBlock];
          currentBlock := "";
        }
      } else {
        currentBlock := currentBlock + (if currentBlock != "" then "\n" else "")
                        + (if isBlockquote then "> " + processedLine else processedLine);
      }
      assert lines[i..][1..] == lines[i + 1..];
      i := i + 1;
    }
    if currentBlock != "" {
      result := result + [currentBlock];
    }
    RescanShape(block);
  }

  // ---------------------------------------------------------------------
  // The regular-expression split of the single-break markdown pass
  // ---------------------------------------------------------------------

  /** `\s*- ` matches at the start of `t`. White space cannot match `-`, so
      the greedy `\s*` never needs to give characters back. */
  predicate ListItemAhead(t: string)
    decreases |t|
  {
    StartsWith(t, "- ") || (|t| > 0 && IsWs(t[0]) && ListItemAhead(t[1..]))
  }

  /** The end of a match of `\n(?=\s*- )|(?=\n>)` that starts at `q`: the
      first alternative consumes the line break, the second is empty. */
  function MatchAt(s: string, q: nat): (e: Option<nat>)
    requires q < |s|
    ensures e.Some? ==> s[q] == '\n' && (e.value == q || e.value == q + 1) && e.value <= |s|
  {
    if s[q] == '\n' && ListItemAhead(s[q + 1..]) then Some(q + 1)
    else if q + 1 < |s| && s[q] == '\n' && s[q + 1] == '>' then Some(q)
    else None
  }

  /** The splitting loop of a regular-expression `split`: `p` is where the
      current piece starts and `q` the position being tried. A match whose
      end is `p` is skipped, which is how an empty match stays harmless. */
  function RegexSplitFrom(s: string, p: nat, q: nat): seq<string>
    requires p <= q <= |s|
    decreases |s| - q, if p < q then 1 else 0
  {
    if q == |s| then [s[p..]]
    else match MatchAt(s, q)
      case None => RegexSplitFrom(s, p, q + 1)
      case Some(e) =>
        if e == p then RegexSplitFrom(s, p, q + 1)
        else [s[p..q]] + RegexSplitFrom(s, e, e)
  }

  /** `block.split(/\n(?=\s*- )|(?=\n>)/)`. Neither alternative matches the
      empty string, so the empty string splits into one empty piece. */
  function RegexSplit(s: string): seq<string> {
    if s == "" then [""] else RegexSplitFrom(s, 0, 0)
  }

  /** Both alternatives of the pattern need a line break, so on a piece
      without one the loop runs to the end and returns the piece whole. */
  lemma {:induction false} RegexSplitFromNoBreak(s: string, p: nat, q: nat)
    requires p <= q <= |s|
    requires '\n' !in s
    ensures RegexSplitFrom(s, p, q) == [s[p..]]
    decreases |s| - q
  {
    if q < |s| {
      assert s[q] != '\n';
      RegexSplitFromNoBreak(s, p, q + 1);
    }
  }

  /** The single-break markdown split leaves a piece without line breaks
      as it is. */
  lemma RegexSplitNoBreak(s: string)
    requires '\n' !in s
    ensures RegexSplit(s) == [s]
  {
    if s != "" {
      RegexSplitFromNoBreak(s, 0, 0);
    }
  }

  // ---------------------------------------------------------------------
  // The segmenter
  // ---------------------------------------------------------------------

  /** `processMarkdownList(content)` for a strategy and the markdown flag. */
  function Segment(content: string, m: SplitMethod, markdown: bool): seq<string> {
    var blocks := Split(content, Delimiter(m));
    if !markdown then blocks
    else if m == Double then FlatMap(Rescan, blocks)
    else FlatMap(RegexSplit, blocks)
  }

  // ---------------------------------------------------------------------
  // Properties of the plain and single-break passes
  // ---------------------------------------------------------------------

  /** Without markdown processing the blocks are the delimiter split of the
      content: none contains the delimiter, and joining them with it gives
      the content back. */
  lemma PlainSegments(content: string, m: SplitMethod)
    ensures Segment(content, m, false) == Split(content, Delimiter(m))
    ensures forall b :: b in Segment(content, m, false) ==> Free(b, Delimiter(m))
    ensures Join(Segment(content, m, false), Delimiter(m)) == content
  {
    JoinOfSplit(content, Delimiter(m));
  }

  /** A single-break piece never holds a line break. */
  lemma SinglePiecesHaveNoBreak(content: string)
    ensures forall b :: b in Split(content, "\n") ==> '\n' !in b
  {
    SplitOnCharPieces(content, '\n');
  }

  /** `flatMap` with a function that maps every element to itself alone is
      the identity. */
  lemma {:induction false} FlatMapSingletons(xs: seq<string>)
    requires forall x :: x in xs ==> RegexSplit(x) == [x]
    ensures FlatMap(RegexSplit, xs) == xs
    decreases |xs|
  {
    if xs != [] {
      FlatMapSingletons(xs[1..]);
    }
  }

  /** With markdown processing on, the single-break strategy gives exactly
      the plain line split: the pattern finds nothing inside a line. */
  lemma SingleMarkdownIsPlain(content: string)
    ensures Segment(content, Single, true) == Segment(content, Single, false)
    ensures Segment(content, Single, true) == Split(content, "\n")
  {
    var lines := Split(content, "\n");
    SinglePiecesHaveNoBreak(content);
    forall x | x in lines ensures RegexSplit(x) == [x] {
      RegexSplitNoBreak(x);
    }
    FlatMapSingletons(lines);
  }

  // ---------------------------------------------------------------------
  // Properties of the line scan
  // ---------------------------------------------------------------------

  /** A block none of whose lines is empty: it is not empty, and it has no
      blank line inside, at its start or at its end. */
  predicate NoEmptyLine(b: string) {
    b != "" && forall l :: l in Split(b, "\n") ==> l != ""
  }

  /** What `NoEmptyLine` means character by character. */
  lemma {:induction false} NoEmptyLineShape(b: string)
    requires NoEmptyLine(b)
    ensures b[0] != '\n' && b[|b| - 1] != '\n'
    ensures forall k :: 0 <= k < |b| - 1 ==> !(b[k] == '\n' && b[k + 1] == '\n')
    decreases |b|
  {
    match IndexOf(b, "\n", 0)
    case None =>
      assert Split(b, "\n") == [b];
      FreeOfChar(b, '\n');
    case Some(k) =>
      var head := b[..k];
      var rest := b[k + 1..];
      assert Split(b, "\n") == [head] + Split(rest, "\n");
      assert head in Split(b, "\n");
      OccursAtChar(b, '\n', k);
      forall j | 0 <= j < k ensures b[j] != '\n' {
        OccursAtChar(b, '\n', j);
      }
      forall l | l in Split(rest, "\n") ensures l != "" {
        assert l in Split(b, "\n");
      }
      assert rest != "" by {
        SplitOfEmpty<char>("\n");
        assert Split(rest, "\n")[0] in Split(rest, "\n");
      }
      NoEmptyLineShape(rest);
      forall j | 0 <= j < |b| - 1 ensures !(b[j] == '\n' && b[j + 1] == '\n') {
        if j == k {
          assert b[j + 1] == rest[0];
        } else if j > k {
          assert b[j] == rest[j - k - 1] && b[j + 1] == rest[j - k];
        }
      }
      assert b[|b| - 1] == rest[|rest| - 1];
  }

  /** A block with no empty line holds no blank-line delimiter. */
  lemma NoEmptyLineIsDoubleFree(b: string)
    requires NoEmptyLine(b)
    ensures Free(b, "\n\n")
    ensures Split(b, "\n\n") == [b]
  {
    NoEmptyLineShape(b);
    forall k | 0 <= k <= |b| ensures !OccursAt(b, "\n\n", k) {
      if k + 2 <= |b| {
        assert b[k..k + 2] == [b[k], b[k + 1]];
      }
    }
    assert IndexOf(b, "\n\n", 0).None?;
  }

  /** A kept line is rendered without line breaks if it had none. */
  lemma RenderedHasNoBreak(line: string)
    requires '\n' !in line
    ensures '\n' !in Rendered(line)
  {
    if IsBlockquote(line) {
      PayloadChars(line);
    }
  }

  /** A rendered line is settled: the scan keeps it and renders it as
      itself. */
  predicate Settled(line: string) {
    !Blank(line) && Rendered(line) == line && '\n' !in line
  }

  /** A canonical blockquote line `> p` with a trimmed, non-empty payload
      reads back as a blockquote with payload `p`. */
  lemma CanonicalQuote(p: string)
    requires Trimmed(p) && p != ""
    ensures IsBlockquote("> " + p) && Payload("> " + p) == p
  {
    var y := "> " + p;
    assert y[0] == '>' && y[1..] == " " + p;
    TrimAfterBlanks(" ", p);
  }

  /** Rendering is idempotent: a kept line's rendering is settled. */
  lemma RenderedIsSettled(line: string)
    requires !Blank(line) && '\n' !in line
    ensures Settled(Rendered(line))
  {
    RenderedHasNoBreak(line);
    if IsBlockquote(line) {
      CanonicalQuote(Payload(line));
    }
  }

  /** The lines of a sequence of blocks, in order. */
  function LinesOf(blocks: seq<string>): seq<string>
    decreases |blocks|
  {
    if blocks == [] then []
    else LinesOf(blocks[..|blocks| - 1]) + Split(blocks[|blocks| - 1], "\n")
  }

  /** The lines the scan keeps, each as it is rendered. */
  function KeptLines(lines: seq<string>): seq<string>
    decreases |lines|
  {
    if lines == [] then []
    else (if Blank(lines[0]) then [] else [Rendered(lines[0])]) + KeptLines(lines[1..])
  }

  /** A scan state whose sub-blocks, finished or running, have no empty line. */
  predicate WellFormed(st: Scan) {
    (forall b :: b in st.result ==> NoEmptyLine(b))
    && (st.currentBlock == "" || NoEmptyLine(st.currentBlock))
  }

  /** A line without line breaks splits into itself alone. */
  lemma SplitOfLine(r: string)
    requires '\n' !in r
    ensures Split(r, "\n") == [r]
  {
    SplitOfJoin([r], '\n');
  }

  /** Pushing a sub-block appends its lines to the lines of the list. */
  lemma LinesOfSnoc(blocks: seq<string>, b: string)
    ensures LinesOf(blocks + [b]) == LinesOf(blocks) + Split(b, "\n")
  {
    assert (blocks + [b])[..|blocks|] == blocks;
  }

  /** Appending a non-empty line without line breaks to the running
      sub-block keeps it free of empty lines and adds that one line. */
  lemma AppendLine(result: seq<string>, c: string, r: string)
    requires c == "" || NoEmptyLine(c)
    requires r != "" && '\n' !in r
    ensures var c' := c + (if c != "" then "\n" else "") + r;
            NoEmptyLine(c') && LinesOf(Flush(Scan(result, c'))) == LinesOf(Flush(Scan(result, c))) + [r]
  {
    SplitOfLine(r);
    if c == "" {
      assert c + "" + r == r;
      LinesOfSnoc(result, r);
    } else {
      SplitAround(c, '\n', r);
      assert c + "\n" + r == c + ['\n'] + r;
      LinesOfSnoc(result, c + "\n" + r);
      LinesOfSnoc(result, c);
    }
  }

  /** One step keeps the state well formed and adds the line, if kept, to
      the lines of what the scan would flush. */
  lemma StepSpec(st: Scan, line: string)
    requires WellFormed(st) && '\n' !in line
    ensures WellFormed(Step(st, line))
    ensures LinesOf(Flush(Step(st, line))) == LinesOf(Flush(st)) + KeptLines([line])
  {
    assert KeptLines([line]) == (if Blank(line) then [] else [Rendered(line)]);
    if !Blank(line) {
      RenderedHasNoBreak(line);
      AppendLine(st.result, st.currentBlock, Rendered(line));
    }
  }

  /** The kept lines of a sequence: those of its first line, then those of
      the rest. */
  lemma KeptLinesCons(lines: seq<string>)
    requires lines != []
    ensures KeptLines(lines) == KeptLines([lines[0]]) + KeptLines(lines[1..])
  {
    assert [lines[0]][1..] == [];
  }

  /** The scan over lines without line breaks: every sub-block it produces has
      no empty line, and the lines of its sub-blocks are exactly the kept
      lines, rendered, in order. */
  lemma {:induction false} ScanLinesSpec(st: Scan, lines: seq<string>)
    requires WellFormed(st)
    requires forall l :: l in lines ==> '\n' !in l
    ensures WellFormed(ScanLines(st, lines))
    ensures LinesOf(Flush(ScanLines(st, lines))) == LinesOf(Flush(st)) + KeptLines(lines)
    decreases |lines|
  {
    if lines != [] {
      var l0, rest := lines[0], lines[1..];
      assert l0 in lines;
      assert forall l :: l in rest ==> l in lines;
      var st' := Step(st, l0);
      StepSpec(st, l0);
      ScanLinesSpec(st', rest);
      assert ScanLines(st, lines) == ScanLines(st', rest);
      KeptLinesCons(lines);
    }
  }

  /** The shape of the sub-blocks of one block: none has an empty line, and
      together they hold exactly the kept lines of the block, rendered, in
      order. Where one sub-block ends and the next begins is stated by
      `RescanAtBlank` and `RescanOfKept`. */
  lemma RescanShape(block: string)
    ensures forall b :: b in Rescan(block) ==> NoEmptyLine(b)
    ensures LinesOf(Rescan(block)) == KeptLines(Split(block, "\n"))
  {
    SinglePiecesHaveNoBreak(block);
    ScanLinesSpec(Scan([], ""), Split(block, "\n"));
  }

  /** No line is kept exactly when every line is blank. */
  lemma {:induction false} KeptLinesEmpty(lines: seq<string>)
    ensures KeptLines(lines) == [] <==> forall l :: l in lines ==> Blank(l)
    decreases |lines|
  {
    if lines != [] {
      KeptLinesEmpty(lines[1..]);
      assert forall l :: l in lines <==> l == lines[0] || l in lines[1..];
    }
  }

  /** A list of sub-blocks has no lines exactly when it is empty: each
      sub-block has at least one line. */
  lemma {:induction false} LinesOfEmpty(blocks: seq<string>)
    ensures LinesOf(blocks) == [] <==> blocks == []
    decreases |blocks|
  {
    if blocks != [] {
      LinesOfEmpty(blocks[..|blocks| - 1]);
    }
  }

  /** A block yields no sub-block exactly when each of its lines is blank:
      empty, or a `>` with only white space around it. */
  lemma RescanEmpty(block: string)
    ensures Rescan(block) == [] <==> forall l :: l in Split(block, "\n") ==> Blank(l)
  {
    RescanShape(block);
    LinesOfEmpty(Rescan(block));
    KeptLinesEmpty(Split(block, "\n"));
  }

  /** Scanning two runs of lines is scanning the first, then the second. */
  lemma {:induction false} ScanLinesAppend(st: Scan, xs: seq<string>, ys: seq<string>)
    ensures ScanLines(st, xs + ys) == ScanLines(ScanLines(st, xs), ys)
    decreases |xs|
  {
    if xs == [] {
      assert xs + ys == ys;
    } else {
      assert (xs + ys)[0] == xs[0] && (xs + ys)[1..] == xs[1..] + ys;
      ScanLinesAppend(Step(st, xs[0]), xs[1..], ys);
    }
  }

  /** Sub-blocks finished before a scan starts stay in front, untouched:
      the scan goes on as if they were not there. */
  lemma {:induction false} ScanPrefix(done: seq<string>, result: seq<string>, c: string, lines: seq<string>)
    ensures var t := ScanLines(Scan(result, c), lines);
            ScanLines(Scan(done + result, c), lines) == Scan(done + t.result, t.currentBlock)
    decreases |lines|
  {
    if lines != [] {
      var next := Step(Scan(result, c), lines[0]);
      assert Step(Scan(done + result, c), lines[0]) == Scan(done + next.result, next.currentBlock) by {
        assert done + result + [c] == done + (result + [c]);
      }
      ScanPrefix(done, next.result, next.currentBlock, lines[1..]);
    }
  }

  /** The lines around a line without line breaks. */
  lemma SplitAroundLine(a: string, l: string, z: string)
    requires '\n' !in l
    ensures Split(a + "\n" + l + "\n" + z, "\n") == Split(a, "\n") + [l] + Split(z, "\n")
  {
    var w := l + ['\n'] + z;
    assert Split(w, "\n") == [l] + Split(z, "\n") by {
      SplitAround(l, '\n', z);
      SplitOfLine(l);
    }
    assert a + "\n" + l + "\n" + z == a + ['\n'] + w;
    SplitAround(a, '\n', w);
  }

  /** A blank line (an empty line, or a `>` with only white space around
      it) ends the running sub-block: what comes before it and what comes after it are rescanned
      on their own, and no sub-block spans it. */
  lemma RescanAtBlank(a: string, l: string, z: string)
    requires '\n' !in l && Blank(l)
    ensures Rescan(a + "\n" + l + "\n" + z) == Rescan(a) + Rescan(z)
  {
    var xs, zs := Split(a, "\n"), Split(z, "\n");
    assert Split(a + "\n" + l + "\n" + z, "\n") == xs + ([l] + zs) by {
      SplitAroundLine(a, l, z);
    }
    ScanLinesAppend(Scan([], ""), xs, [l] + zs);
    ScanThroughBlank(ScanLines(Scan([], ""), xs), l, zs);
  }

  /** At a blank line the running sub-block is flushed, and the scan of the
      lines after it starts afresh. */
  lemma ScanThroughBlank(st: Scan, l: string, zs: seq<string>)
    requires Blank(l)
    ensures Flush(ScanLines(st, [l] + zs)) == Flush(st) + Flush(ScanLines(Scan([], ""), zs))
  {
    assert ([l] + zs)[0] == l && ([l] + zs)[1..] == zs;
    assert ScanLines(st, [l] + zs) == ScanLines(Step(st, l), zs);
    assert Step(st, l) == Scan(Flush(st) + [], "");
    ScanPrefix(Flush(st), [], "", zs);
  }

  /** Kept lines join onto a running sub-block, one line break before each,
      and finish no sub-block. */
  lemma {:induction false} ScanKept(result: seq<string>, c: string, lines: seq<string>)
    requires c != ""
    requires forall l :: l in lines ==> !Blank(l)
    ensures ScanLines(Scan(result, c), lines) == Scan(result, Join([c] + KeptLines(lines), "\n"))
    decreases |lines|
  {
    if lines == [] {
      assert [c] + KeptLines(lines) == [c];
    } else {
      var r := Rendered(lines[0]);
      assert lines[0] in lines;
      assert forall l :: l in lines[1..] ==> l in lines;
      ScanKept(result, c + "\n" + r, lines[1..]);
      assert KeptLines(lines) == [r] + KeptLines(lines[1..]);
      JoinCons(c, r, KeptLines(lines[1..]), "\n");
    }
  }

  /** Only a blank line ends a sub-block: a block none of whose lines is
      blank is rescanned into exactly one sub-block, its kept lines joined
      by line breaks. */
  lemma RescanOfKept(block: string)
    requires forall l :: l in Split(block, "\n") ==> !Blank(l)
    ensures Rescan(block) == [Join(KeptLines(Split(block, "\n")), "\n")]
  {
    var lines := Split(block, "\n");
    var r := Rendered(lines[0]);
    assert lines[0] in lines;
    assert r != "";
    assert Step(Scan([], ""), lines[0]) == Scan([], r);
    assert forall l :: l in lines[1..] ==> l in lines;
    ScanKept([], r, lines[1..]);
    assert KeptLines(lines) == [r] + KeptLines(lines[1..]);
    var k := KeptLines(lines[1..]);
    assert Join([r] + k, "\n") != "" by {
      if k != [] {
        JoinFront(r, k, "\n");
      }
    }
  }

  /** Every line of a block in a sequence is one of the lines of the sequence. */
  lemma {:induction false} InLinesOf(blocks: seq<string>, b: string, l: string)
    requires b in blocks && l in Split(b, "\n")
    ensures l in LinesOf(blocks)
    decreases |blocks|
  {
    if b != blocks[|blocks| - 1] {
      assert b in blocks[..|blocks| - 1];
      InLinesOf(blocks[..|blocks| - 1], b, l);
    }
  }

  /** Every kept line is the rendering of a line the scan kept. */
  lemma {:induction false} InKeptLines(lines: seq<string>, y: string)
    requires y in KeptLines(lines)
    ensures exists l :: l in lines && !Blank(l) && y == Rendered(l)
    decreases |lines|
  {
    if y !in (if Blank(lines[0]) then [] else [Rendered(lines[0])]) {
      InKeptLines(lines[1..], y);
    }
  }

  /** A settled line is appended to the running sub-block as it is. */
  lemma StepSettled(st: Scan, y: string)
    requires Settled(y)
    ensures Step(st, y) == Scan(st.result, st.currentBlock + (if st.currentBlock != "" then "\n" else "") + y)
  {
  }

  /** Scanning settled lines onto a non-empty running sub-block only extends
      it, line by line. */
  lemma {:induction false} ScanSettled(result: seq<string>, c: string, ys: seq<string>)
    requires c != ""
    requires forall y :: y in ys ==> Settled(y)
    ensures ScanLines(Scan(result, c), ys) == Scan(result, Join([c] + ys, "\n"))
    decreases |ys|
  {
    if ys != [] {
      var c' := c + "\n" + ys[0];
      assert ys[0] in ys;
      StepSettled(Scan(result, c), ys[0]);
      assert forall y :: y in ys[1..] ==> y in ys;
      ScanSettled(result, c', ys[1..]);
      JoinCons(c, ys[0], ys[1..], "\n");
    }
  }

  /** Every line of a sub-block the scan produced is settled. */
  lemma RescanLinesSettled(block: string, b: string)
    requires b in Rescan(block)
    ensures forall y :: y in Split(b, "\n") ==> Settled(y)
  {
    RescanShape(block);
    SinglePiecesHaveNoBreak(block);
    forall y | y in Split(b, "\n") ensures Settled(y) {
      InLinesOf(Rescan(block), b, y);
      InKeptLines(Split(block, "\n"), y);
      var l :| l in Split(block, "\n") && !Blank(l) && y == Rendered(l);
      RenderedIsSettled(l);
    }
  }

  /** A block made of settled lines is scanned into itself. */
  lemma RescanOfSettled(b: string)
    requires b != ""
    requires forall y :: y in Split(b, "\n") ==> Settled(y)
    ensures Rescan(b) == [b]
  {
    var lines := Split(b, "\n");
    var l0, rest := lines[0], lines[1..];
    assert l0 in lines;
    assert forall y :: y in rest ==> y in lines;
    var st1 := Step(Scan([], ""), l0);
    assert st1 == Scan([], l0) by {
      StepSettled(Scan([], ""), l0);
      assert "" + "" + l0 == l0;
    }
    assert ScanLines(Scan([], ""), lines) == ScanLines(st1, rest);
    if rest == [] {
      assert Join(lines, "\n") == l0;
    } else {
      ScanSettled([], l0, rest);
      assert [l0] + rest == lines;
    }
    assert ScanLines(Scan([], ""), lines) == Scan([], Join(lines, "\n"));
    JoinOfSplit(b, "\n");
    assert Rescan(b) == Flush(Scan([], b));
  }

  /** The double-break line scan is idempotent: scanning a sub-block it
      produced gives back that sub-block alone. */
  lemma RescanIdempotent(block: string, b: string)
    requires b in Rescan(block)
    ensures Rescan(b) == [b]
  {
    RescanShape(block);
    RescanLinesSettled(block, b);
    RescanOfSettled(b);
  }

  // ---------------------------------------------------------------------
  // Properties of the double-break markdown pass over a whole document
  // ---------------------------------------------------------------------

  /** Every block the rescans of a list of blocks yield comes from the
      rescan of one of them. */
  lemma {:induction false} InFlatMap(xs: seq<string>, b: string)
    requires b in FlatMap(Rescan, xs)
    ensures exists x :: x in xs && b in Rescan(x)
    decreases |xs|
  {
    if b !in Rescan(xs[0]) {
      InFlatMap(xs[1..], b);
    }
  }

  /** The rescans of a list of blocks yield nothing exactly when each of
      them yields nothing. */
  lemma {:induction false} FlatMapEmpty(xs: seq<string>)
    ensures FlatMap(Rescan, xs) == [] <==> forall x :: x in xs ==> Rescan(x) == []
    decreases |xs|
  {
    if xs != [] {
      FlatMapEmpty(xs[1..]);
      assert forall x :: x in xs <==> x == xs[0] || x in xs[1..];
    }
  }

  /** A block of the double-break markdown pass comes from one blank-line
      block of the document, and has no empty line. */
  lemma InDoubleMarkdown(content: string, b: string)
    requires b in Segment(content, Double, true)
    ensures exists x :: x in Split(content, "\n\n") && b in Rescan(x)
    ensures NoEmptyLine(b)
  {
    assert Segment(content, Double, true) == FlatMap(Rescan, Split(content, "\n\n"));
    InFlatMap(Split(content, "\n\n"), b);
    var x :| x in Split(content, "\n\n") && b in Rescan(x);
    RescanShape(x);
  }

  /** Every block of the double-break markdown pass is non-empty and holds
      no empty line: no blank line inside, no line break at either end. */
  lemma DoubleMarkdownBlocks(content: string, b: string)
    requires b in Segment(content, Double, true)
    ensures b != ""
    ensures b[0] != '\n' && b[|b| - 1] != '\n'
    ensures forall k :: 0 <= k < |b| - 1 ==> !(b[k] == '\n' && b[k + 1] == '\n')
    ensures Free(b, "\n\n")
  {
    InDoubleMarkdown(content, b);
    NoEmptyLineShape(b);
    NoEmptyLineIsDoubleFree(b);
  }

  /** A block with no empty line that the scan keeps as it is comes out of
      the double-break markdown pass as itself alone. */
  lemma SegmentOfBlock(b: string)
    requires NoEmptyLine(b) && Rescan(b) == [b]
    ensures Segment(b, Double, true) == [b]
  {
    NoEmptyLineIsDoubleFree(b);
    assert Segment(b, Double, true) == FlatMap(Rescan, [b]);
    assert FlatMap(Rescan, [b]) == Rescan(b) + FlatMap(Rescan, []);
  }

  /** A line without line breaks is one blank-line block: the double-break
      markdown pass only rescans it. */
  lemma SegmentOfLine(l: string)
    requires '\n' !in l
    ensures Segment(l, Double, true) == Rescan(l)
  {
    SplitWithout(l, "\n\n");
    assert Segment(l, Double, true) == FlatMap(Rescan, [l]);
    assert FlatMap(Rescan, [l]) == Rescan(l) + FlatMap(Rescan, []);
  }

  /** A block with no empty line, then a blank line: the double-break
      markdown pass rescans that block and goes on with the rest. */
  lemma SegmentAfterBlock(a: string, z: string)
    requires NoEmptyLine(a)
    ensures Segment(a + "\n\n" + z, Double, true) == Rescan(a) + Segment(z, Double, true)
  {
    SplitAtBlock(a, z);
    var blocks := [a] + Split(z, "\n\n");
    assert blocks[1..] == Split(z, "\n\n");
  }

  /** The double-break markdown pass is idempotent on its own blocks. */
  lemma DoubleMarkdownIdempotent(content: string, b: string)
    requires b in Segment(content, Double, true)
    ensures Segment(b, Double, true) == [b]
  {
    InDoubleMarkdown(content, b);
    var x :| x in Split(content, "\n\n") && b in Rescan(x);
    RescanIdempotent(x, b);
    SegmentOfBlock(b);
  }

  /** The lines of each block, block by block. */
  function LinesEach(blocks: seq<string>): (r: seq<seq<string>>)
    ensures |r| == |blocks|
    ensures forall i :: 0 <= i < |blocks| ==> r[i] == Split(blocks[i], "\n")
    decreases |blocks|
  {
    if blocks == [] then [] else [Split(blocks[0], "\n")] + LinesEach(blocks[1..])
  }

  /** The lines of a document are the lines of its blank-line blocks with an
      empty line between each two. */
  lemma {:induction false} LinesOfDocument(content: string)
    ensures Split(content, "\n") == Join(LinesEach(Split(content, "\n\n")), [""])
    decreases |content|
  {
    match IndexOf(content, "\n\n", 0)
    case None =>
    case Some(k) =>
      var head, rest := content[..k], content[k + 2..];
      assert content == head + "\n\n" + rest by {
        assert content[k..k + 2] == "\n\n";
      }
      assert Split(content, "\n\n") == [head] + Split(rest, "\n\n");
      BlankLineLines(head, rest);
      LinesOfDocument(rest);
      LinesEachCons(head, Split(rest, "\n\n"));
      JoinFront(Split(head, "\n"), LinesEach(Split(rest, "\n\n")), [""]);
  }

  /** A line break at the front adds one empty line before the lines. */
  lemma SplitAfterBreak(rest: string)
    ensures Split(['\n'] + rest, "\n") == [""] + Split(rest, "\n")
  {
    assert ['\n'] + rest == [] + ['\n'] + rest;
    SplitAround([], '\n', rest);
    SplitOfEmpty("\n");
  }

  /** A blank line between two parts adds one empty line between their lines. */
  lemma BlankLineLines(head: string, rest: string)
    ensures Split(head + "\n\n" + rest, "\n") == Split(head, "\n") + [""] + Split(rest, "\n")
  {
    var z := ['\n'] + rest;
    assert head + "\n\n" + rest == head + ['\n'] + z;
    SplitAround(head, '\n', z);
    SplitAfterBreak(rest);
  }

  /** The lines of each block, split off at the first block. */
  lemma LinesEachCons(x: string, xs: seq<string>)
    ensures LinesEach([x] + xs) == [Split(x, "\n")] + LinesEach(xs)
  {
    assert ([x] + xs)[1..] == xs;
  }

  /** Every line of a document that is not empty is a line of one of its
      blank-line blocks. */
  lemma DocumentLineInBlock(content: string, l: string)
    requires l in Split(content, "\n") && l != ""
    ensures exists x :: x in Split(content, "\n\n") && l in Split(x, "\n")
  {
    var blocks := Split(content, "\n\n");
    var each := LinesEach(blocks);
    LinesOfDocument(content);
    InJoin(each, [""], l);
    var i :| 0 <= i < |each| && l in each[i];
    assert blocks[i] in blocks;
  }

  /** Every line of a blank-line block is a line of the document. */
  lemma BlockLineInDocument(content: string, x: string, l: string)
    requires x in Split(content, "\n\n") && l in Split(x, "\n")
    ensures l in Split(content, "\n")
  {
    var blocks := Split(content, "\n\n");
    var each := LinesEach(blocks);
    LinesOfDocument(content);
    var i :| 0 <= i < |blocks| && blocks[i] == x;
    assert l in each[i];
    InJoin(each, [""], l);
  }

  /** The lines of a document are the lines of its blank-line blocks and
      the empty lines between them. */
  lemma DocumentLines(content: string)
    ensures forall l :: l in Split(content, "\n") ==>
              l == "" || exists x :: x in Split(content, "\n\n") && l in Split(x, "\n")
    ensures forall x, l :: x in Split(content, "\n\n") && l in Split(x, "\n") ==> l in Split(content, "\n")
  {
    forall l | l in Split(content, "\n") && l != ""
      ensures exists x :: x in Split(content, "\n\n") && l in Split(x, "\n")
    {
      DocumentLineInBlock(content, l);
    }
    forall x, l | x in Split(content, "\n\n") && l in Split(x, "\n") ensures l in Split(content, "\n") {
      BlockLineInDocument(content, x, l);
    }
  }

  /** The double-break markdown pass yields no block exactly when every line
      of the document is blank: empty, or a `>` with only white space around
      it (so the empty document yields none). */
  lemma DoubleMarkdownEmpty(content: string)
    ensures Segment(content, Double, true) == [] <==>
            forall l :: l in Split(content, "\n") ==> Blank(l)
  {
    var blocks := Split(content, "\n\n");
    assert Segment(content, Double, true) == FlatMap(Rescan, blocks);
    FlatMapEmpty(blocks);
    forall x | x in blocks ensures Rescan(x) == [] <==> forall l :: l in Split(x, "\n") ==> Blank(l) {
      RescanEmpty(x);
    }
    DocumentLines(content);
    assert Blank("");
  }

  /** The lines of two lists of sub-blocks, one after the other. */
  lemma {:induction false} LinesOfAppend(x: seq<string>, y: seq<string>)
    ensures LinesOf(x + y) == LinesOf(x) + LinesOf(y)
    decreases |y|
  {
    if y == [] {
      assert x + y == x;
    } else {
      var y', last := y[..|y| - 1], y[|y| - 1];
      var lines := Split(last, "\n");
      calc {
        LinesOf(x + y);
        { assert x + y == (x + y') + [last]; LinesOfSnoc(x + y', last); }
        LinesOf(x + y') + lines;
        { LinesOfAppend(x, y'); }
        LinesOf(x) + LinesOf(y') + lines;
        { assert y == y' + [last]; LinesOfSnoc(y', last); }
        LinesOf(x) + LinesOf(y);
      }
    }
  }

  /** The kept lines of two runs of lines, one after the other. */
  lemma {:induction false} KeptLinesAppend(x: seq<string>, y: seq<string>)
    ensures KeptLines(x + y) == KeptLines(x) + KeptLines(y)
    decreases |x|
  {
    if x == [] {
      assert x + y == y;
    } else {
      assert (x + y)[0] == x[0] && (x + y)[1..] == x[1..] + y;
      KeptLinesAppend(x[1..], y);
    }
  }

  /** The lines of the rescans of a list of blocks: the kept lines of the
      first block, then the lines of the rescans of the rest. */
  lemma FlatMapLinesCons(b: string, rest: seq<string>)
    ensures LinesOf(FlatMap(Rescan, [b] + rest))
            == KeptLines(Split(b, "\n")) + LinesOf(FlatMap(Rescan, rest))
  {
    assert ([b] + rest)[0] == b && ([b] + rest)[1..] == rest;
    assert FlatMap(Rescan, [b] + rest) == Rescan(b) + FlatMap(Rescan, rest);
    LinesOfAppend(Rescan(b), FlatMap(Rescan, rest));
    RescanShape(b);
  }

  /** The empty line between the lines of two blocks keeps nothing. */
  lemma KeptLinesJoinCons(lines: seq<string>, each: seq<seq<string>>)
    ensures KeptLines(Join([lines] + each, [""])) == KeptLines(lines) + KeptLines(Join(each, [""]))
  {
    if each != [] {
      var others := Join(each, [""]);
      JoinFront(lines, each, [""]);
      assert KeptLines(lines + [""]) == KeptLines(lines) by {
        KeptLinesAppend(lines, [""]);
        assert Blank("");
      }
      KeptLinesAppend(lines + [""], others);
    } else {
      assert [lines] + each == [lines];
      assert lines + [] == lines;
    }
  }

  /** The rescans of a list of blocks hold exactly the kept lines of the
      blocks' lines with an empty line between each two blocks. */
  lemma {:induction false} FlatMapLines(blocks: seq<string>)
    ensures LinesOf(FlatMap(Rescan, blocks)) == KeptLines(Join(LinesEach(blocks), [""]))
    decreases |blocks|
  {
    if blocks != [] {
      assert blocks == [blocks[0]] + blocks[1..];
      FlatMapLines(blocks[1..]);
      FlatMapLinesCons(blocks[0], blocks[1..]);
      LinesEachCons(blocks[0], blocks[1..]);
      KeptLinesJoinCons(Split(blocks[0], "\n"), LinesEach(blocks[1..]));
    }
  }

  /** No line is lost or added: the blocks of the double-break markdown pass
      hold, in order, exactly the lines of the document that are not blank,
      each as the scan renders it. */
  lemma DoubleMarkdownLines(content: string)
    ensures LinesOf(Segment(content, Double, true)) == KeptLines(Split(content, "\n"))
  {
    assert Segment(content, Double, true) == FlatMap(Rescan, Split(content, "\n\n"));
    LinesOfDocument(content);
    FlatMapLines(Split(content, "\n\n"));
  }

  /** The empty document: one empty block when split plainly, none when the
      double-break markdown pass drops it. */
  lemma EmptyDocument()
    ensures Segment("", Double, false) == [""]
    ensures Segment("", Single, false) == [""]
    ensures Segment("", Double, true) == []
  {
    assert Split("", "\n\n") == [""];
    assert Split("", "\n") == [""];
    DoubleMarkdownEmpty("");
  }

  /** A block without empty lines, followed by a blank line, is the first
      block of the double-break split. */
  lemma SplitAtBlock(a: string, z: string)
    requires NoEmptyLine(a)
    ensures Split(a + "\n\n" + z, "\n\n") == [a] + Split(z, "\n\n")
  {
    var s := a + "\n\n" + z;
    NoEmptyLineShape(a);
    forall k | 0 <= k < |a| ensures !OccursAt(s, "\n\n", k) {
      assert s[k] == a[k];
      assert k + 1 < |a| ==> s[k + 1] == a[k + 1];
      if k + 2 <= |s| {
        assert s[k..k + 2] == [s[k], s[k + 1]];
      }
    }
    SplitAt(a, "\n\n", z);
  }

  // ---------------------------------------------------------------------
  // Blockquote normalisation
  // ---------------------------------------------------------------------

  /** A blockquote line with any number of blanks after its marker has the
      text after them as its payload. */
  lemma PaddedQuote(pad: string, q: string)
    requires forall i :: 0 <= i < |pad| ==> pad[i] == ' '
    requires Trimmed(q) && q != ""
    ensures IsBlockquote(">" + pad + q) && Payload(">" + pad + q) == q
  {
    var line := ">" + pad + q;
    assert line[0] == '>' && line[1..] == pad + q;
    TrimAfterBlanks(pad, q);
  }

  /** A block of two kept lines is rescanned into one sub-block of their
      renderings. */
  lemma RescanOfTwo(l1: string, l2: string)
    requires '\n' !in l1 && '\n' !in l2
    requires !Blank(l1) && !Blank(l2)
    ensures Split(l1 + "\n" + l2, "\n") == [l1, l2]
    ensures Rescan(l1 + "\n" + l2) == [Rendered(l1) + "\n" + Rendered(l2)]
  {
    SplitFirst(l1, "\n", l2);
    SplitWithout(l2, "\n");
    var r1, r2 := Rendered(l1), Rendered(l2);
    assert r1 != "";
    assert Step(Scan([], ""), l1) == Scan([], r1);
    assert Step(Scan([], r1), l2) == Scan([], r1 + "\n" + r2);
    assert [l1, l2][1..] == [l2] && [l2][1..] == [];
    assert ScanLines(Scan([], ""), [l1, l2]) == ScanLines(Scan([], r1), [l2]);
    assert ScanLines(Scan([], r1), [l2]) == Scan([], r1 + "\n" + r2);
  }

  /** Two non-empty lines make a block with no empty line. */
  lemma NoEmptyLineOfTwo(l1: string, l2: string)
    requires '\n' !in l1 && '\n' !in l2 && l1 != "" && l2 != ""
    ensures NoEmptyLine(l1 + "\n" + l2)
  {
    SplitFirst(l1, "\n", l2);
    SplitWithout(l2, "\n");
    var lines := Split(l1 + "\n" + l2, "\n");
    assert lines == [l1, l2];
    assert forall l :: l in lines ==> l == l1 || l == l2;
  }

  /** A canonical blockquote line is settled. */
  lemma QuoteSettled(p: string)
    requires Trimmed(p) && p != "" && '\n' !in p
    ensures Settled("> " + p)
  {
    var q := "> " + p;
    CanonicalQuote(p);
    assert Processed(q) == p;
    assert Rendered(q) == q;
    assert forall k :: 2 <= k < |q| ==> q[k] == p[k - 2];
  }

  /** A settled line is rescanned into itself. */
  lemma RescanOfLine(b: string)
    requires Settled(b)
    ensures Rescan(b) == [b]
  {
    SplitWithout(b, "\n");
    RescanOfSettled(b);
  }

  /** A block of one kept line is rescanned into its rendering. */
  lemma RescanOfOne(l: string)
    requires '\n' !in l && !Blank(l)
    ensures Rescan(l) == [Rendered(l)]
  {
    SplitWithout(l, "\n");
    assert [l][1..] == [];
    assert ScanLines(Scan([], ""), [l]) == Step(Scan([], ""), l) == Scan([], Rendered(l));
  }

  /** Two quoted lines make one sub-block of their canonical forms. */
  lemma QuotedPairRescan(l1: string, l2: string)
    requires '\n' !in l1 && '\n' !in l2
    requires IsBlockquote(l1) && IsBlockquote(l2)
    requires Payload(l1) != "" && Payload(l2) != ""
    ensures NoEmptyLine(l1 + "\n" + l2)
    ensures Rescan(l1 + "\n" + l2) == ["> " + Payload(l1) + "\n" + ("> " + Payload(l2))]
  {
    assert Processed(l1) == Payload(l1) && Rendered(l1) == "> " + Payload(l1);
    assert Processed(l2) == Payload(l2) && Rendered(l2) == "> " + Payload(l2);
    NoEmptyLineOfTwo(l1, l2);
    RescanOfTwo(l1, l2);
  }

  /** Blockquote normalisation: each line of a quoted block is re-emitted
      as `> ` and its trimmed payload, and a blank line between quotes
      separates two blocks. */
  lemma QuoteNormalisation(l1: string, l2: string, l3: string)
    requires '\n' !in l1 && '\n' !in l2 && '\n' !in l3
    requires IsBlockquote(l1) && IsBlockquote(l2) && IsBlockquote(l3)
    requires Payload(l1) != "" && Payload(l2) != "" && Payload(l3) != ""
    ensures Segment(l1 + "\n" + l2 + "\n\n" + l3, Double, true)
            == ["> " + Payload(l1) + "\n" + ("> " + Payload(l2)), "> " + Payload(l3)]
  {
    var b1 := l1 + "\n" + l2;
    QuotedPairRescan(l1, l2);
    SegmentAfterBlock(b1, l3);
    assert Segment(l3, Double, true) == ["> " + Payload(l3)] by {
      SegmentOfLine(l3);
      assert Processed(l3) == Payload(l3) && Rendered(l3) == "> " + Payload(l3);
      RescanOfOne(l3);
    }
  }

  /** A quoted line with three blanks after its marker. */
  lemma ThreeBlanksQuote(b: string)
    requires Trimmed(b) && b != "" && '\n' !in b
    ensures IsBlockquote(">   " + b) && Payload(">   " + b) == b && '\n' !in ">   " + b
  {
    var pad := "   ";
    assert ">   " + b == ">" + pad + b;
    assert forall i :: 0 <= i < |pad| ==> pad[i] == ' ';
    PaddedQuote(pad, b);
  }

  /** The example `"> a\n>   b\n\n> c"`, which becomes
      `["> a\n> b", "> c"]`, for any payloads `a`, `b` and `c` that are
      trimmed, non-empty and on one line. */
  lemma BlockquoteExample(a: string, b: string, c: string)
    requires Trimmed(a) && a != "" && '\n' !in a
    requires Trimmed(b) && b != "" && '\n' !in b
    requires Trimmed(c) && c != "" && '\n' !in c
    ensures Segment("> " + a + "\n" + (">   " + b) + "\n\n" + ("> " + c), Double, true)
            == ["> " + a + "\n" + ("> " + b), "> " + c]
  {
    var l1, l2, l3 := "> " + a, ">   " + b, "> " + c;
    assert IsBlockquote(l1) && Payload(l1) == a && '\n' !in l1 by {
      CanonicalQuote(a);
    }
    assert IsBlockquote(l2) && Payload(l2) == b && '\n' !in l2 by {
      ThreeBlanksQuote(b);
    }
    assert IsBlockquote(l3) && Payload(l3) == c && '\n' !in l3 by {
      CanonicalQuote(c);
    }
    QuoteNormalisation(l1, l2, l3);
  }
}
