/**
  The aligner of the comparison page: pairs the localized blocks with the
  source blocks index by index and, in the double-break strategy, inserts
  blockquote-continuation rows and spacer rows between indices.
 */
module Aligner {
  import opened Text
  import opened Segmenter

  /** One rendered row: a pair of texts at a shared index, a `>` marker in
      the localized column, a `>` marker in the source column, or an empty
      spacer. */
  datatype Row = Primary(left: string, right: string) | ContinueLeft | ContinueRight | Spacer

  /** `lines[i] || ''`: the block at an index, or the empty text when the
      index is past the end (both render as a placeholder). */
  function At(lines: seq<string>, i: nat): (s: string)
    ensures i < |lines| ==> s == lines[i]
    ensures i >= |lines| ==> s == ""
  {
    if i < |lines| then lines[i] else ""
  }

  /** `Math.max(l10nedLines.length, sourceLines.length)`. */
  function MaxLength(left: seq<string>, right: seq<string>): (n: nat)
    ensures n >= |left| && n >= |right|
    ensures n == |left| || n == |right|
  {
    if |left| >= |right| then |left| else |right|
  }

  /** A block whose trimmed form starts with `- ` (see `ListItemByTrim`):
      after its leading white space come `- ` and, later, some character
      that is not white space. */
  predicate IsListItem(line: string) {
    if |line| > 0 && IsWs(line[0]) then IsListItem(line[1..])
    else StartsWith(line, "- ") && exists k :: 2 <= k < |line| && !IsWs(line[k])
  }

  /** Without leading white space, `trim` leaves a `- ` prefix exactly when
      something other than white space follows it. */
  lemma ListItemUnpadded(line: string)
    requires |line| == 0 || !IsWs(line[0])
    ensures StartsWith(Trim(line), "- ")
            <==> StartsWith(line, "- ") && exists k :: 2 <= k < |line| && !IsWs(line[k])
  {
    TrimUnpadded(line);
    TrimEndDropsWs(line);
    var r := TrimEnd(line);
    if StartsWith(line, "- ") && exists k :: 2 <= k < |line| && !IsWs(line[k]) {
      var k :| 2 <= k < |line| && !IsWs(line[k]);
      assert k < |r|;
      assert r[..2] == line[..2];
    }
    if StartsWith(r, "- ") {
      assert r[1] == ' ';
      var k := |r| - 1;
      assert 2 <= k && line[k] == r[k];
      assert line[..2] == r[..2];
    }
  }

  /** `IsListItem` is `line.trim().startsWith('- ')`. */
  lemma {:induction false} ListItemByTrim(line: string)
    ensures IsListItem(line) <==> StartsWith(Trim(line), "- ")
    decreases |line|
  {
    if |line| > 0 && IsWs(line[0]) {
      TrimSkip(line);
      ListItemByTrim(line[1..]);
    } else {
      ListItemUnpadded(line);
    }
  }

  /** Some side at index `i` is a list item or a blockquote. */
  predicate IsMarkdownAt(left: seq<string>, right: seq<string>, i: nat) {
    IsListItem(At(left, i)) || IsListItem(At(right, i))
    || IsBlockquote(At(left, i)) || IsBlockquote(At(right, i))
  }

  /** The order of row kinds within one index. */
  function Rank(r: Row): nat {
    match r
    case Primary(_, _) => 0
    case ContinueLeft => 1
    case ContinueRight => 2
    case Spacer => 3
  }

  /** A group: a primary row followed by rows that are not primary. */
  predicate IsGroup(g: seq<Row>) {
    |g| >= 1 && g[0].Primary? && forall k :: 0 < k < |g| ==> !g[k].Primary?
  }

  /** Rows whose kinds strictly increase in rank. */
  predicate InRankOrder(rows: seq<Row>) {
    forall j, k :: 0 <= j < k < |rows| ==> Rank(rows[j]) < Rank(rows[k])
  }

  /** The rows of one index from the four decisions: the primary row, then
      each extra row whose condition holds, in a fixed order. */
  function Emit(primary: Row, continueLeft: bool, continueRight: bool, spacer: bool): (rows: seq<Row>)
    requires primary.Primary?
    ensures |rows| >= 1 && rows[0] == primary
  {
    [primary]
    + (if continueLeft then [ContinueLeft] else [])
    + (if continueRight then [ContinueRight] else [])
    + (if spacer then [Spacer] else [])
  }

  /** Each extra row is emitted exactly when its decision holds. */
  lemma EmitKinds(primary: Row, continueLeft: bool, continueRight: bool, spacer: bool)
    requires primary.Primary?
    ensures var rows := Emit(primary, continueLeft, continueRight, spacer);
            (ContinueLeft in rows <==> continueLeft) && (ContinueRight in rows <==> continueRight)
            && (Spacer in rows <==> spacer)
  {
  }

  /** The rows emitted for index `i`: the primary row first, then a `>` in
      the localized column when its blocks at `i` and `i + 1` are both
      blockquotes, then the same for the source column, then a spacer unless
      both index `i` and index `i + 1` hold markdown on some side. The three
      extra rows need the double-break strategy and a next index. */
  function RowsAt(left: seq<string>, right: seq<string>, m: SplitMethod, i: nat): (rows: seq<Row>)
    requires i < MaxLength(left, right)
    ensures |rows| >= 1 && rows[0] == Primary(At(left, i), At(right, i))
  {
    var maxLength := MaxLength(left, right);
    var currentIsMarkdown := IsMarkdownAt(left, right, i);
    var nextIsMarkdown := i + 1 < maxLength && IsMarkdownAt(left, right, i + 1);
    var isCurrentBqL10n := IsBlockquote(At(left, i));
    var isCurrentBqSrc := IsBlockquote(At(right, i));
    var isNextBqL10n := i + 1 < maxLength && IsBlockquote(At(left, i + 1));
    var isNextBqSrc := i + 1 < maxLength && IsBlockquote(At(right, i + 1));
    var extra := m == Double && i < maxLength - 1;
    Emit(Primary(At(left, i), At(right, i)),
         extra && isCurrentBqL10n && isNextBqL10n,
         extra && isCurrentBqSrc && isNextBqSrc,
         extra && (!currentIsMarkdown || !nextIsMarkdown))
  }

  /** A left continuation row at index `i` exactly when, in the double-break
      strategy, the localized blocks at `i` and at the next index are both
      blockquotes; the same for the source column; and a spacer exactly when,
      in that strategy and with a next index, index `i` or the next one holds
      no markdown on either side. */
  lemma RowsAtKinds(left: seq<string>, right: seq<string>, m: SplitMethod, i: nat)
    requires i < MaxLength(left, right)
    ensures var rows := RowsAt(left, right, m, i);
            (ContinueLeft in rows <==>
               m == Double && i + 1 < MaxLength(left, right)
               && IsBlockquote(At(left, i)) && IsBlockquote(At(left, i + 1)))
            && (ContinueRight in rows <==>
               m == Double && i + 1 < MaxLength(left, right)
               && IsBlockquote(At(right, i)) && IsBlockquote(At(right, i + 1)))
            && (Spacer in rows <==>
               m == Double && i + 1 < MaxLength(left, right)
               && !(IsMarkdownAt(left, right, i) && IsMarkdownAt(left, right, i + 1)))
  {
    var maxLength := MaxLength(left, right);
    var currentIsMarkdown := IsMarkdownAt(left, right, i);
    var nextIsMarkdown := i + 1 < maxLength && IsMarkdownAt(left, right, i + 1);
    var extra := m == Double && i < maxLength - 1;
    EmitKinds(Primary(At(left, i), At(right, i)),
              extra && IsBlockquote(At(left, i)) && (i + 1 < maxLength && IsBlockquote(At(left, i + 1))),
              extra && IsBlockquote(At(right, i)) && (i + 1 < maxLength && IsBlockquote(At(right, i + 1))),
              extra && (!currentIsMarkdown || !nextIsMarkdown));
  }

  /** The rows of one index form one group, and their kinds come in the
      fixed order: primary, left continuation, right continuation, spacer. */
  lemma RowsAtOrder(left: seq<string>, right: seq<string>, m: SplitMethod, i: nat)
    requires i < MaxLength(left, right)
    ensures IsGroup(RowsAt(left, right, m, i)) && InRankOrder(RowsAt(left, right, m, i))
  {
  }

  /** The rows for indices `i` up to the last one. */
  function AlignFrom(left: seq<string>, right: seq<string>, m: SplitMethod, i: nat): seq<Row>
    requires i <= MaxLength(left, right)
    decreases MaxLength(left, right) - i
  {
    if i == MaxLength(left, right) then []
    else RowsAt(left, right, m, i) + AlignFrom(left, right, m, i + 1)
  }

  /** All rows of the comparison, index by index. */
  function Align(left: seq<string>, right: seq<string>, m: SplitMethod): seq<Row> {
    AlignFrom(left, right, m, 0)
  }

  /** The primary rows of a row sequence, in order. */
  function Primaries(rows: seq<Row>): seq<Row>
    decreases |rows|
  {
    if rows == [] then []
    else (if rows[0].Primary? then [rows[0]] else []) + Primaries(rows[1..])
  }

  /** The primary row every index gets. */
  function PrimaryRow(left: seq<string>, right: seq<string>, i: nat): Row {
    Primary(At(left, i), At(right, i))
  }

  /** The primary rows of indices `i` up to the last one. */
  function PrimaryRowsFrom(left: seq<string>, right: seq<string>, i: nat): (rows: seq<Row>)
    requires i <= MaxLength(left, right)
    ensures |rows| == MaxLength(left, right) - i
    ensures forall k :: 0 <= k < |rows| ==> rows[k] == PrimaryRow(left, right, i + k)
    decreases MaxLength(left, right) - i
  {
    if i == MaxLength(left, right) then []
    else [PrimaryRow(left, right, i)] + PrimaryRowsFrom(left, right, i + 1)
  }

  lemma {:induction false} PrimariesAppend(a: seq<Row>, b: seq<Row>)
    ensures Primaries(a + b) == Primaries(a) + Primaries(b)
    decreases |a|
  {
    if a != [] {
      assert (a + b)[0] == a[0];
      assert (a + b)[1..] == a[1..] + b;
      PrimariesAppend(a[1..], b);
      var h := if a[0].Primary? then [a[0]] else [];
      calc {
        Primaries(a + b);
        h + Primaries(a[1..] + b);
        h + (Primaries(a[1..]) + Primaries(b));
        (h + Primaries(a[1..])) + Primaries(b);
        Primaries(a) + Primaries(b);
      }
    } else {
      assert a + b == b;
    }
  }

  lemma {:induction false} PrimariesNone(rows: seq<Row>)
    requires forall k :: 0 <= k < |rows| ==> !rows[k].Primary?
    ensures Primaries(rows) == []
    decreases |rows|
  {
    if rows != [] {
      PrimariesNone(rows[1..]);
    }
  }

  lemma PrimariesOfIndex(left: seq<string>, right: seq<string>, m: SplitMethod, i: nat)
    requires i < MaxLength(left, right)
    ensures Primaries(RowsAt(left, right, m, i)) == [PrimaryRow(left, right, i)]
  {
    var rows := RowsAt(left, right, m, i);
    RowsAtOrder(left, right, m, i);
    PrimariesNone(rows[1..]);
    assert rows == [rows[0]] + rows[1..];
  }

  lemma PrimariesStep(left: seq<string>, right: seq<string>, m: SplitMethod, i: nat)
    requires i < MaxLength(left, right)
    ensures Primaries(AlignFrom(left, right, m, i))
            == [PrimaryRow(left, right, i)] + Primaries(AlignFrom(left, right, m, i + 1))
  {
    var here := RowsAt(left, right, m, i);
    var rest := AlignFrom(left, right, m, i + 1);
    assert AlignFrom(left, right, m, i) == here + rest;
    PrimariesAppend(here, rest);
    PrimariesOfIndex(left, right, m, i);
  }

  lemma {:induction false} PrimariesFrom(left: seq<string>, right: seq<string>, m: SplitMethod, i: nat)
    requires i <= MaxLength(left, right)
    ensures Primaries(AlignFrom(left, right, m, i)) == PrimaryRowsFrom(left, right, i)
    decreases MaxLength(left, right) - i
  {
    if i < MaxLength(left, right) {
      PrimariesFrom(left, right, m, i + 1);
      PrimariesStep(left, right, m, i);
    }
  }

  /** Exactly `maxLength` primary rows come out, in index order, and the one
      for index `i` pairs the two blocks at `i`, each empty when absent. */
  lemma PrimaryRows(left: seq<string>, right: seq<string>, m: SplitMethod)
    ensures |Primaries(Align(left, right, m))| == MaxLength(left, right)
    ensures forall i :: 0 <= i < MaxLength(left, right) ==>
              Primaries(Align(left, right, m))[i] == Primary(At(left, i), At(right, i))
  {
    PrimariesFrom(left, right, m, 0);
  }

  lemma {:induction false} AlignFromAtLeast(left: seq<string>, right: seq<string>, m: SplitMethod, i: nat)
    requires i <= MaxLength(left, right)
    ensures |AlignFrom(left, right, m, i)| >= MaxLength(left, right) - i
    decreases MaxLength(left, right) - i
  {
    if i < MaxLength(left, right) {
      AlignFromAtLeast(left, right, m, i + 1);
      var here := RowsAt(left, right, m, i);
      assert AlignFrom(left, right, m, i) == here + AlignFrom(left, right, m, i + 1);
      assert |here| >= 1;
    }
  }

  /** Extra rows only ever add to the `maxLength` primary rows. */
  lemma AlignLength(left: seq<string>, right: seq<string>, m: SplitMethod)
    ensures |Align(left, right, m)| >= |left| && |Align(left, right, m)| >= |right|
  {
    AlignFromAtLeast(left, right, m, 0);
  }

  lemma {:induction false} SingleFrom(left: seq<string>, right: seq<string>, i: nat)
    requires i <= MaxLength(left, right)
    ensures AlignFrom(left, right, Single, i) == PrimaryRowsFrom(left, right, i)
    decreases MaxLength(left, right) - i
  {
    if i < MaxLength(left, right) {
      SingleFrom(left, right, i + 1);
      var rows := RowsAt(left, right, Single, i);
      assert ContinueLeft !in rows && ContinueRight !in rows && Spacer !in rows;
      assert rows == [PrimaryRow(left, right, i)];
    }
  }

  /** In the single-break strategy the rows are exactly the primary rows:
      `maxLength` of them, one per index, in order. */
  lemma SingleRows(left: seq<string>, right: seq<string>)
    ensures |Align(left, right, Single)| == MaxLength(left, right)
    ensures forall i :: 0 <= i < MaxLength(left, right) ==>
              Align(left, right, Single)[i] == Primary(At(left, i), At(right, i))
  {
    SingleFrom(left, right, 0);
  }

  /** The last index emits only its primary row, so nothing follows the
      primary row of the last index. */
  lemma {:induction false} LastRow(left: seq<string>, right: seq<string>, m: SplitMethod, i: nat)
    requires i < MaxLength(left, right)
    ensures var rows := AlignFrom(left, right, m, i);
            |rows| > 0 && rows[|rows| - 1] == PrimaryRow(left, right, MaxLength(left, right) - 1)
    decreases MaxLength(left, right) - i
  {
    var n := MaxLength(left, right);
    var here := RowsAt(left, right, m, i);
    if i + 1 < n {
      LastRow(left, right, m, i + 1);
      var rest := AlignFrom(left, right, m, i + 1);
      var rows := AlignFrom(left, right, m, i);
      assert |rows| > 0 && rows[|rows| - 1] == rest[|rest| - 1] by {
        assert rows == here + rest;
      }
    } else {
      assert AlignFrom(left, right, m, i) == [PrimaryRow(left, right, i)] by {
        assert here == Emit(PrimaryRow(left, right, i), false, false, false);
        assert AlignFrom(left, right, m, i) == here + [];
      }
    }
  }

  /** The first index at or after `from` that holds a primary row, or the
      length of the sequence. */
  function NextPrimary(rows: seq<Row>, from: nat): (j: nat)
    requires from <= |rows|
    ensures from <= j <= |rows|
    ensures forall k :: from <= k < j ==> !rows[k].Primary?
    ensures j < |rows| ==> rows[j].Primary?
    decreases |rows| - from
  {
    if from == |rows| || rows[from].Primary? then from else NextPrimary(rows, from + 1)
  }

  /** Cuts a row sequence into groups, each running from one primary row to
      just before the next: how a reader of the output sees the indices. */
  function Groups(rows: seq<Row>): seq<seq<Row>>
    decreases |rows|
  {
    if rows == [] then []
    else
      var j := NextPrimary(rows, 1);
      [rows[..j]] + Groups(rows[j..])
  }

  /** A group followed by rows that start a new group (or by nothing) is
      cut off as one group. */
  lemma GroupsCons(here: seq<Row>, rest: seq<Row>)
    requires |here| >= 1 && here[0].Primary?
    requires forall k :: 0 < k < |here| ==> !here[k].Primary?
    requires rest == [] || rest[0].Primary?
    ensures Groups(here + rest) == [here] + Groups(rest)
  {
    var rows := here + rest;
    assert forall k :: 1 <= k < |here| ==> rows[k] == here[k];
    assert |here| < |rows| ==> rows[|here|] == rest[0];
    assert NextPrimary(rows, 1) == |here|;
    assert rows[..|here|] == here;
    assert rows[|here|..] == rest;
  }

  /** The rows of each index from `i` up to the last one. */
  function RowsFrom(left: seq<string>, right: seq<string>, m: SplitMethod, i: nat): (groups: seq<seq<Row>>)
    requires i <= MaxLength(left, right)
    ensures |groups| == MaxLength(left, right) - i
    decreases MaxLength(left, right) - i
  {
    if i == MaxLength(left, right) then []
    else [RowsAt(left, right, m, i)] + RowsFrom(left, right, m, i + 1)
  }

  /** The `k`-th group from index `i` is the rows of index `i + k`. */
  lemma {:induction false} RowsFromAt(left: seq<string>, right: seq<string>, m: SplitMethod, i: nat)
    requires i <= MaxLength(left, right)
    ensures forall k :: 0 <= k < MaxLength(left, right) - i ==>
              RowsFrom(left, right, m, i)[k] == RowsAt(left, right, m, i + k)
    decreases MaxLength(left, right) - i
  {
    if i < MaxLength(left, right) {
      RowsFromAt(left, right, m, i + 1);
      var rest := RowsFrom(left, right, m, i + 1);
      var groups := [RowsAt(left, right, m, i)] + rest;
      assert forall k :: 0 < k < |groups| ==> groups[k] == rest[k - 1];
    }
  }

  /** The groups one after the other. */
  function Flatten(groups: seq<seq<Row>>): seq<Row>
    decreases |groups|
  {
    if groups == [] then [] else groups[0] + Flatten(groups[1..])
  }

  /** Cutting a run of groups at its primary rows gives back the groups. */
  lemma {:induction false} GroupsOfFlatten(groups: seq<seq<Row>>)
    requires forall i :: 0 <= i < |groups| ==> IsGroup(groups[i])
    ensures Groups(Flatten(groups)) == groups
    decreases |groups|
  {
    if groups != [] {
      var rest := Flatten(groups[1..]);
      GroupsOfFlatten(groups[1..]);
      if groups[1..] != [] {
        assert rest[0] == groups[1][0];
      }
      GroupsCons(groups[0], rest);
      assert groups == [groups[0]] + groups[1..];
    }
  }

  /** The rows from an index are the groups of the indices from there on. */
  lemma {:induction false} FlattenRowsFrom(left: seq<string>, right: seq<string>, m: SplitMethod, i: nat)
    requires i <= MaxLength(left, right)
    ensures AlignFrom(left, right, m, i) == Flatten(RowsFrom(left, right, m, i))
    decreases MaxLength(left, right) - i
  {
    if i < MaxLength(left, right) {
      FlattenRowsFrom(left, right, m, i + 1);
      var rest := RowsFrom(left, right, m, i + 1);
      var groups := [RowsAt(left, right, m, i)] + rest;
      assert groups[1..] == rest;
      assert Flatten(groups) == groups[0] + Flatten(rest);
    }
  }

  /** Cutting the rows from an index at their primary rows gives the
      groups of the indices from there on. */
  lemma GroupsFrom(left: seq<string>, right: seq<string>, m: SplitMethod, i: nat)
    requires i <= MaxLength(left, right)
    ensures Groups(AlignFrom(left, right, m, i)) == RowsFrom(left, right, m, i)
  {
    FlattenRowsFrom(left, right, m, i);
    var groups := RowsFrom(left, right, m, i);
    RowsFromAt(left, right, m, i);
    forall k | 0 <= k < |groups| ensures IsGroup(groups[k]) {
      RowsAtOrder(left, right, m, i + k);
    }
    GroupsOfFlatten(groups);
  }

  /** Reading the output back index by index gives, for each index, exactly
      the rows `RowsAt` describes: so the continuation and spacer rows of
      index `i` sit right after its primary row and before that of `i + 1`. */
  lemma GroupsOfAlign(left: seq<string>, right: seq<string>, m: SplitMethod)
    ensures |Groups(Align(left, right, m))| == MaxLength(left, right)
    ensures forall i :: 0 <= i < MaxLength(left, right) ==>
              Groups(Align(left, right, m))[i] == RowsAt(left, right, m, i)
  {
    GroupsFrom(left, right, m, 0);
    RowsFromAt(left, right, m, 0);
  }

  /** Whether the markdown pass ran is not an input of the aligner: the
      continuation and spacer rows depend on the strategy alone. A left
      continuation row appears, with no markdown processing at all, as soon
      as two neighbouring localized blocks are blockquotes. */
  lemma ContinuationWithoutMarkdownPass(left: seq<string>, right: seq<string>, i: nat)
    requires i + 1 < |left|
    requires IsBlockquote(left[i]) && IsBlockquote(left[i + 1])
    ensures ContinueLeft in Align(left, right, Double)
  {
    GroupsOfAlign(left, right, Double);
    RowsAtKinds(left, right, Double, i);
    InGroups(Align(left, right, Double), i, ContinueLeft);
  }

  lemma {:induction false} InGroups(rows: seq<Row>, i: nat, r: Row)
    requires i < |Groups(rows)| && r in Groups(rows)[i]
    ensures r in rows
    decreases |rows|
  {
    var j := NextPrimary(rows, 1);
    if i > 0 {
      InGroups(rows[j..], i - 1, r);
    }
  }
}
