/**
 * The context block handed to the language model (`build_context` in
 * src/app.py): one tagged segment per retrieved row, in row order, joined by
 * a fixed separator. The separator is not escaped inside row content, so the
 * block cannot in general be split back into its rows.
 *
 * The three-decimal rendering of a similarity (`f"{sim:.3f}"`) is the
 * parameter `fmt3`.
 */
module ContextAssembly {
  import opened Text
  import opened PgVector

  /** One retrieved row `(id, filename, content, similarity)`. */
  datatype Row = Row(id: int, filename: string, content: string, similarity: Float)

  const Separator: string := "\n\n---\n\n"

  /** The provenance tag that opens a segment, ending with its newline. */
  function Header(row: Row, fmt3: Float -> string): (h: string)
    ensures |h| >= 2 && h[0] == '[' && h[|h| - 2..] == "]\n"
  {
    "[SOURCE id=" + IntToString(row.id) + " file=" + row.filename +
    " similarity=" + fmt3(row.similarity) + "]\n"
  }

  /** One segment: the row's header, then the row's content. */
  function Segment(row: Row, fmt3: Float -> string): string {
    Header(row, fmt3) + row.content
  }

  /**
   * A segment opens with its row's header, which starts with `[` and ends
   * with `]` and a newline, and goes on with the row's content verbatim and
   * in full.
   */
  lemma SegmentLayout(row: Row, fmt3: Float -> string)
    ensures var seg := Segment(row, fmt3); var h := Header(row, fmt3);
            |seg| == |h| + |row.content| && seg[0] == '[' &&
            seg[|h| - 2..|h|] == "]\n" && seg[|h|..] == row.content
  {
  }

  function Segments(rows: seq<Row>, fmt3: Float -> string): seq<string> {
    seq(|rows|, i requires 0 <= i < |rows| => Segment(rows[i], fmt3))
  }

  /**
   * The context block of `rows`: their segments joined by the separator. It
   * is the empty string exactly when there are no rows.
   */
  function Context(rows: seq<Row>, fmt3: Float -> string): (ctx: string)
    ensures ctx == "" <==> rows == []
  {
    var segs := Segments(rows, fmt3);
    assert rows != [] ==> Join(Separator, segs) != "" by {
      if rows != [] {
        JoinPartAt(Separator, segs, 0);
      }
    }
    Join(Separator, segs)
  }

  lemma SegmentsSnoc(rows: seq<Row>, fmt3: Float -> string, i: nat)
    requires i < |rows|
    ensures Segments(rows[..i + 1], fmt3) == Segments(rows[..i], fmt3) + [Segment(rows[i], fmt3)]
  {
    var longer := Segments(rows[..i + 1], fmt3);
    var shorter := Segments(rows[..i], fmt3);
    forall k | 0 <= k < i ensures longer[k] == shorter[k] {
      assert rows[..i + 1][k] == rows[..i][k];
    }
    assert longer[i] == Segment(rows[i], fmt3);
  }

  /** `build_context(rows)`: collects one segment per row, then joins them. */
  method BuildContext(rows: seq<Row>, fmt3: Float -> string) returns (context: string)
    ensures context == Context(rows, fmt3)
  {
    var parts: seq<string> := [];
    for i := 0 to |rows|
      invariant parts == Segments(rows[..i], fmt3)
    {
      SegmentsSnoc(rows, fmt3, i);
      parts := parts + [Segment(rows[i], fmt3)];
    }
    assert rows[..|rows|] == rows;
    context := Join(Separator, parts);
  }

  /** A further row adds the separator and that row's segment at the end. */
  lemma ContextAppend(rows: seq<Row>, row: Row, fmt3: Float -> string)
    requires rows != []
    ensures Context(rows + [row], fmt3) == Context(rows, fmt3) + Separator + Segment(row, fmt3)
  {
    assert Segments(rows + [row], fmt3) == Segments(rows, fmt3) + [Segment(row, fmt3)];
    JoinSnoc(Separator, Segments(rows, fmt3), Segment(row, fmt3));
  }

  /** Where segment `i` starts in the block. */
  function SegmentStart(rows: seq<Row>, fmt3: Float -> string, i: nat): nat
    requires i < |rows|
  {
    Offset(Separator, Segments(rows, fmt3), i)
  }

  /** A piece `header + content` found at `at` in `s` has its header, then its content, there. */
  lemma PieceAt(s: string, at: nat, piece: string, header: string, content: string)
    requires piece == header + content
    requires at + |piece| <= |s| && s[at..at + |piece|] == piece
    ensures s[at..at + |header|] == header
    ensures s[at + |header|..at + |piece|] == content
  {
    assert s[at..at + |header|] == piece[..|header|];
    assert s[at + |header|..at + |piece|] == piece[|header|..];
  }

  /**
   * Segment `i` sits in the block at `SegmentStart(i)`, the first one at the
   * very beginning: its row's header, then the row's content unchanged and in
   * full.
   */
  lemma SegmentPlacement(rows: seq<Row>, fmt3: Float -> string, i: nat)
    requires i < |rows|
    ensures SegmentStart(rows, fmt3, 0) == 0
    ensures SegmentStart(rows, fmt3, i) + |Segment(rows[i], fmt3)| <= |Context(rows, fmt3)|
    ensures Context(rows, fmt3)[SegmentStart(rows, fmt3, i)..SegmentStart(rows, fmt3, i) + |Header(rows[i], fmt3)|]
            == Header(rows[i], fmt3)
    ensures Context(rows, fmt3)[SegmentStart(rows, fmt3, i) + |Header(rows[i], fmt3)|..SegmentStart(rows, fmt3, i) + |Segment(rows[i], fmt3)|]
            == rows[i].content
  {
    var segs := Segments(rows, fmt3);
    assert segs[i] == Header(rows[i], fmt3) + rows[i].content;
    JoinedPieceAt(Separator, segs, i, Header(rows[i], fmt3), rows[i].content);
  }

  /** Part `i` of a join, made of `header + content`, has both in place at its offset. */
  lemma JoinedPieceAt(sep: string, parts: seq<string>, i: nat, header: string, content: string)
    requires i < |parts| && parts[i] == header + content
    ensures Offset(sep, parts, 0) == 0
    ensures Offset(sep, parts, i) + |parts[i]| <= |Join(sep, parts)|
    ensures Join(sep, parts)[Offset(sep, parts, i)..Offset(sep, parts, i) + |header|] == header
    ensures Join(sep, parts)[Offset(sep, parts, i) + |header|..Offset(sep, parts, i) + |parts[i]|] == content
  {
    JoinPartAt(sep, parts, i);
    PieceAt(Join(sep, parts), Offset(sep, parts, i), parts[i], header, content);
  }

  /**
   * Between segment `i` and segment `i + 1` stands exactly one separator and
   * nothing else; the last segment ends the block.
   */
  lemma SegmentBoundary(rows: seq<Row>, fmt3: Float -> string, i: nat)
    requires i < |rows|
    ensures i + 1 < |rows| ==>
              SegmentStart(rows, fmt3, i + 1) == SegmentStart(rows, fmt3, i) + |Segment(rows[i], fmt3)| + |Separator| &&
              SegmentStart(rows, fmt3, i + 1) <= |Context(rows, fmt3)| &&
              Context(rows, fmt3)[SegmentStart(rows, fmt3, i) + |Segment(rows[i], fmt3)|..SegmentStart(rows, fmt3, i + 1)]
              == Separator
    ensures i + 1 == |rows| ==> SegmentStart(rows, fmt3, i) + |Segment(rows[i], fmt3)| == |Context(rows, fmt3)|
  {
    var segs := Segments(rows, fmt3);
    assert segs[i] == Segment(rows[i], fmt3);
    if i + 1 < |rows| {
      JoinSepAt(Separator, segs, i);
    } else {
      JoinPartAt(Separator, segs, i);
    }
  }

  /**
   * The block does not determine the rows: a row whose content holds the
   * separator and a forged tag yields the same block as two separate rows.
   */
  lemma ContextAmbiguous(fmt3: Float -> string)
    ensures exists rows1: seq<Row>, rows2: seq<Row> ::
              rows1 != rows2 && Context(rows1, fmt3) == Context(rows2, fmt3)
  {
    var sim := Finite(0.5);
    var first := Row(1, "a.txt", "x", sim);
    var second := Row(2, "b.txt", "y", sim);
    var tail := Separator + Segment(second, fmt3);
    var forged := first.(content := first.content + tail);
    ForgedRow(first, second, fmt3);
    assert Context([forged], fmt3) == Context([first, second], fmt3);
    assert [forged] != [first, second];
  }

  /** The block of a single row is that row's header, then its content. */
  lemma ContextOfOne(row: Row, fmt3: Float -> string)
    ensures Context([row], fmt3) == Header(row, fmt3) + row.content
  {
    assert Segments([row], fmt3) == [Segment(row, fmt3)];
  }

  /** The block of two rows is their segments around one separator. */
  lemma ContextOfTwo(first: Row, second: Row, fmt3: Float -> string)
    ensures Context([first, second], fmt3) == Header(first, fmt3) + first.content + Separator + Segment(second, fmt3)
  {
    var s1 := Segment(first, fmt3);
    var s2 := Segment(second, fmt3);
    var segs := Segments([first, second], fmt3);
    assert segs == [s1, s2];
    assert segs[1..] == [s2];
    assert Join(Separator, segs) == s1 + Separator + Join(Separator, [s2]);
  }

  /** A row's header does not depend on its content. */
  lemma HeaderIgnoresContent(row: Row, content: string, fmt3: Float -> string)
    ensures Header(row.(content := content), fmt3) == Header(row, fmt3)
  {
  }

  /**
   * A row whose content continues with the separator and the segment of
   * `second` gives the same block as the two rows `first` and `second`.
   */
  lemma ForgedRow(first: Row, second: Row, fmt3: Float -> string)
    ensures var forged := first.(content := first.content + Separator + Segment(second, fmt3));
            Context([forged], fmt3) == Context([first, second], fmt3)
  {
    var h := Header(first, fmt3);
    var s2 := Segment(second, fmt3);
    var forged := first.(content := first.content + Separator + s2);
    HeaderIgnoresContent(first, forged.content, fmt3);
    ContextOfOne(forged, fmt3);
    ContextOfTwo(first, second, fmt3);
    assert h + (first.content + Separator + s2) == h + first.content + Separator + s2;
  }
}
