/**
  The comparison component: when both entries are present it segments the
  localized content and the source content with the same strategy and
  aligns the two block lists row by row; otherwise it shows a notice.
 */
module DiffReview {
  import opened Text
  import opened Segmenter
  import opened Aligner

  /** An entry as the comparison reads it: only its content takes part in
      the segmentation and alignment. */
  datatype Entry = Entry(content: string)

  /** What the comparison shows: the "not available" notice, or the rows. */
  datatype View = Unavailable | Rows(rows: seq<Row>)

  /** The comparison of a localized entry with its source entry. A missing
      entry (`null` or `undefined`) on either side gives the notice;
      otherwise there is one primary row per index of the longer block
      list, pairing the blocks of both sides at that index, and the rows
      fall into one group per index: that index's rows as `RowsAt` gives
      them, continuation and spacer rows included. */
  function CompareContent(l10ned: Option<Entry>, source: Option<Entry>, m: SplitMethod, markdown: bool): (v: View)
    ensures v.Unavailable? <==> l10ned.None? || source.None?
    ensures v.Rows? ==>
              var left := Segment(l10ned.value.content, m, markdown);
              var right := Segment(source.value.content, m, markdown);
              |Primaries(v.rows)| == MaxLength(left, right)
              && (forall i :: 0 <= i < MaxLength(left, right) ==>
                    Primaries(v.rows)[i] == Primary(At(left, i), At(right, i)))
              && (m == Single ==> |v.rows| == MaxLength(left, right))
    ensures v.Rows? ==>
              var left := Segment(l10ned.value.content, m, markdown);
              var right := Segment(source.value.content, m, markdown);
              |Groups(v.rows)| == MaxLength(left, right)
              && (forall i :: 0 <= i < MaxLength(left, right) ==>
                    Groups(v.rows)[i] == RowsAt(left, right, m, i))
  {
    if l10ned.None? || source.None? then Unavailable
    else
      var left := Segment(l10ned.value.content, m, markdown);
      var right := Segment(source.value.content, m, markdown);
      PrimaryRows(left, right, m);
      SingleRows(left, right);
      GroupsOfAlign(left, right, m);
      Rows(Align(left, right, m))
  }

  // ---------------------------------------------------------------------
  // A paragraph followed by a list
  // ---------------------------------------------------------------------

  /** A one-line paragraph: not empty, neither a blockquote nor a list item. */
  predicate PlainLine(para: string) {
    para != "" && '\n' !in para && !IsBlockquote(para) && !IsListItem(para)
  }

  /** A list item `- x` with a trimmed, non-empty text on one line. */
  predicate ItemText(x: string) {
    Trimmed(x) && x != "" && '\n' !in x
  }

  /** A plain line is a block of one line, kept as written. */
  lemma PlainLineSettled(para: string)
    requires PlainLine(para)
    ensures Settled(para) && NoEmptyLine(para) && Rescan(para) == [para]
  {
    SplitWithout(para, "\n");
    RescanOfLine(para);
  }

  /** `- x` is a settled list item and not a blockquote. */
  lemma ItemSettled(x: string)
    requires ItemText(x)
    ensures Settled("- " + x) && IsListItem("- " + x) && !IsBlockquote("- " + x)
  {
    var l := "- " + x;
    assert l[0] == '-' && l[1] == ' ' && l[2] == x[0];
    assert l[..2] == "- ";
    assert forall k :: 2 <= k < |l| ==> l[k] == x[k - 2];
  }

  /** Two list items make one block, kept as written. */
  lemma ItemsBlock(x: string, y: string)
    requires ItemText(x) && ItemText(y)
    ensures var b := "- " + x + "\n" + ("- " + y);
            NoEmptyLine(b) && Rescan(b) == [b] && IsListItem(b) && !IsBlockquote(b)
  {
    var l1, l2 := "- " + x, "- " + y;
    ItemSettled(x);
    ItemSettled(y);
    RescanOfTwo(l1, l2);
    var b := l1 + "\n" + l2;
    assert b[..2] == "- " && b[2] == x[0];
  }

  /** A single list item is a block of one line, kept as written. */
  lemma ItemLine(x: string)
    requires ItemText(x)
    ensures NoEmptyLine("- " + x) && Rescan("- " + x) == ["- " + x]
  {
    ItemSettled(x);
    SplitWithout("- " + x, "\n");
    RescanOfLine("- " + x);
  }

  /** The double-break split of a paragraph, a blank line and a block. */
  lemma ParagraphThenBlock(para: string, b: string)
    requires PlainLine(para) && NoEmptyLine(b) && Rescan(b) == [b]
    ensures Segment(para + "\n\n" + b, Double, true) == [para, b]
  {
    PlainLineSettled(para);
    SegmentAfterBlock(para, b);
    SegmentOfBlock(b);
  }

  /** The rows of two indices where only the second holds markdown: a
      spacer follows the first primary row, and nothing the second. */
  lemma TwoIndexRows(left: seq<string>, right: seq<string>)
    requires |left| == 2 && |right| == 2
    requires !IsMarkdownAt(left, right, 0) && IsMarkdownAt(left, right, 1)
    ensures Align(left, right, Double)
            == [Primary(left[0], right[0]), Spacer, Primary(left[1], right[1])]
  {
    var r0 := RowsAt(left, right, Double, 0);
    var r1 := RowsAt(left, right, Double, 1);
    assert r0 == [Primary(left[0], right[0]), Spacer];
    assert r1 == [Primary(left[1], right[1])];
    assert AlignFrom(left, right, Double, 2) == [];
    assert AlignFrom(left, right, Double, 1) == r1;
    assert Align(left, right, Double) == r0 + r1;
  }

  /** A paragraph, then a list of two items on the localized side and of
      one item on the source side. Each side is cut into the paragraph and
      the list; two primary rows come out, with a
      spacer between them because the paragraph is not markdown and the
      list is, and no continuation rows because nothing is quoted. */
  lemma ListScenario(para: string, x: string, y: string)
    requires PlainLine(para) && ItemText(x) && ItemText(y)
    ensures var l10ned := para + "\n\n" + ("- " + x + "\n" + ("- " + y));
            var source := para + "\n\n" + ("- " + x);
            Segment(l10ned, Double, true) == [para, "- " + x + "\n" + ("- " + y)]
            && Segment(source, Double, true) == [para, "- " + x]
            && CompareContent(Some(Entry(l10ned)), Some(Entry(source)), Double, true)
               == Rows([Primary(para, para), Spacer, Primary("- " + x + "\n" + ("- " + y), "- " + x)])
  {
    var item := "- " + x;
    var items := item + "\n" + ("- " + y);
    var left, right := [para, items], [para, item];
    assert Segment(para + "\n\n" + items, Double, true) == left by {
      ItemsBlock(x, y);
      ParagraphThenBlock(para, items);
    }
    assert Segment(para + "\n\n" + item, Double, true) == right by {
      ItemLine(x);
      ParagraphThenBlock(para, item);
    }
    assert !IsMarkdownAt(left, right, 0) && IsMarkdownAt(left, right, 1) by {
      ItemsBlock(x, y);
    }
    TwoIndexRows(left, right);
  }
}
