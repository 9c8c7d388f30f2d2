/** The bookkeeping of the HTML pixel loop: the document and the row under
    way after each span, and why the `<div>`s the loop writes are exactly
    the complete rows of the grid. */
module Rows {
  import opened Base
  import opened Glyphs
  import opened Colors
  import opened Html

  /** `n % w == 0`: after `n` pixels a row of `w` has just been completed. */
  predicate RowEnds(n: nat, w: nat)
    requires w >= 1
  {
    n % w == 0
  }

  /** What the pixel loop has built after `i` pixels: the document so far
      and the row under way. */
  datatype Draft = Draft(html: string, line: string)

  /** The loop over a sequence of spans, span by span: each span joins the
      current line, and when the count of spans so far is a multiple of
      `width` the line goes into the document as a `<div>` and a new line
      starts. */
  ghost function Layout(html0: string, width: nat, spans: seq<string>): Draft
    requires width >= 1
  {
    if spans == [] then Draft(html0, "")
    else
      var d := Layout(html0, width, spans[..|spans| - 1]);
      var line := d.line + spans[|spans| - 1];
      if RowEnds(|spans|, width) then Draft(d.html + DivMarkup(line), "") else Draft(d.html, line)
  }

  /** One span more, as the loop body does it. */
  lemma LayoutSnoc(html0: string, width: nat, spans: seq<string>, span: string)
    requires width >= 1
    ensures var d := Layout(html0, width, spans);
            var line := d.line + span;
            Layout(html0, width, spans + [span])
              == if RowEnds(|spans| + 1, width) then Draft(d.html + DivMarkup(line), "") else Draft(d.html, line)
  {
    assert (spans + [span])[..|spans|] == spans;
  }

  /** The document and the current line for the spans produced so far:
      `html` is the opening followed by a `<div>` for every complete row,
      and `line` holds the spans of the row under way, which starts at
      `rowStart`, a whole number of rows. */
  ghost predicate RowsSoFar(html0: string, width: nat, spans: seq<string>, rowStart: nat,
                            html: string, line: string)
    requires width >= 1
  {
    && Aligned(rowStart, width)
    && rowStart <= |spans| < rowStart + width
    && html == html0 + Divs(CompleteRows(spans[..rowStart], width))
    && line == Concat(spans[rowStart..])
  }

  /** One span more: it joins the current line (`line` is `line0` with the
      span appended), and exactly when `(|spans| + 1) % width == 0` the line
      closes a row and goes into the document. */
  lemma AdvanceRows(html0: string, width: nat, spans: seq<string>, rowStart: nat,
                    html: string, line0: string, span: string, line: string, closes: bool)
    requires width >= 1 && RowsSoFar(html0, width, spans, rowStart, html, line0)
    requires line == line0 + span
    requires closes == RowEnds(|spans| + 1, width)
    ensures closes <==> |spans| + 1 == rowStart + width
    ensures closes ==> RowsSoFar(html0, width, spans + [span], |spans| + 1, html + DivMarkup(line), "")
    ensures !closes ==> RowsSoFar(html0, width, spans + [span], rowStart, html, line)
  {
    var spans' := spans + [span];
    ExtendLine(line0, spans, rowStart, span);
    RowBoundary(rowStart, width, |spans'|);
    if closes {
      CloseRowStep(html0, spans', rowStart, |spans'|, width, line);
      assert spans'[|spans'|..] == [];
    }
  }

  /** The document holds exactly the complete rows among the spans and the
      line holds the rest. */
  lemma {:induction false} LayoutRows(html0: string, width: nat, spans: seq<string>) returns (rowStart: nat)
    requires width >= 1
    ensures RowsSoFar(html0, width, spans, rowStart, Layout(html0, width, spans).html, Layout(html0, width, spans).line)
    decreases |spans|
  {
    if spans == [] {
      rowStart := 0;
    } else {
      var init := spans[..|spans| - 1];
      var span := spans[|spans| - 1];
      var d := Layout(html0, width, init);
      var from := LayoutRows(html0, width, init);
      var closes := RowEnds(|spans|, width);
      AdvanceRows(html0, width, init, from, d.html, d.line, span, d.line + span, closes);
      assert init + [span] == spans;
      rowStart := if closes then |spans| else from;
    }
  }

  /** Laid out in full, the spans give the `<div>` of every complete row,
      in order, and nothing of a trailing partial row. */
  lemma LayoutDocument(html0: string, width: nat, spans: seq<string>)
    requires width >= 1
    ensures Layout(html0, width, spans).html == html0 + Divs(CompleteRows(spans, width))
  {
    var d := Layout(html0, width, spans);
    var rowStart := LayoutRows(html0, width, spans);
    FinishRows(html0, width, spans, rowStart, d.html, d.line);
  }

  /** After the last span the document holds the `<div>`s of all complete
      rows and nothing of the trailing partial row. */
  lemma FinishRows(html0: string, width: nat, spans: seq<string>, rowStart: nat, html: string, line: string)
    requires width >= 1 && RowsSoFar(html0, width, spans, rowStart, html, line)
    ensures html == html0 + Divs(CompleteRows(spans, width))
  {
    LeftoverDropped(spans, rowStart, width);
  }

  /** The current line grows by one span; the finished rows stay as they are. */
  lemma ExtendLine(line: string, spans: seq<string>, from: nat, span: string)
    requires from <= |spans| && line == Concat(spans[from..])
    ensures line + span == Concat((spans + [span])[from..])
    ensures (spans + [span])[..from] == spans[..from]
  {
    assert (spans + [span])[from..] == spans[from..] + [span];
  }

  /** The document so far grows by the `<div>` of the row just closed. */
  lemma CloseRowStep(head: string, spans: seq<string>, from: nat, to: nat, w: nat, line: string)
    requires w >= 1 && Aligned(from, w) && to == from + w && to == |spans|
    requires line == Concat(spans[from..])
    ensures head + Divs(CompleteRows(spans[..from], w)) + DivMarkup(line)
         == head + Divs(CompleteRows(spans[..to], w))
  {
    CloseRow(spans, from, to, w);
    assert spans[from..] == spans[from..to];
  }

  lemma MulMono(a: nat, b: nat, w: nat)
    requires a <= b
    ensures a * w <= b * w
  {
  }

  /** `n` is a whole number of rows of `w`: the condition `(i + 1) % w == 0`
      checks, stated without multiplication. */
  predicate Aligned(n: nat, w: nat)
    requires w >= 1
  {
    n == 0 || (n >= w && Aligned(n - w, w))
  }

  lemma {:induction false} AlignedRows(n: nat, w: nat) returns (k: nat)
    requires w >= 1 && Aligned(n, w)
    ensures n == k * w
  {
    if n == 0 {
      k := 0;
    } else {
      var k' := AlignedRows(n - w, w);
      k := k' + 1;
      MulSucc(k', w);
    }
  }

  /** Inside a row that starts at a whole number of rows, `j % w == 0`
      exactly at the row's end, which is again a whole number of rows. */
  lemma RowBoundary(from: nat, w: nat, j: nat)
    requires w >= 1 && Aligned(from, w) && from < j <= from + w
    ensures j % w == 0 <==> j == from + w
    ensures Aligned(from + w, w)
  {
    var rows := AlignedRows(from, w);
    var q := j / w;
    var r := j % w;
    assert j == q * w + r;
    assert (rows + 1) * w == rows * w + w;
    assert (rows + 2) * w == rows * w + w + w;
    if q <= rows {
      MulMono(q, rows, w);
    } else if q >= rows + 2 {
      MulMono(rows + 2, q, w);
    } else {
      assert q == rows + 1;
    }
  }

  lemma DivsSnoc(rows: seq<seq<string>>, row: seq<string>)
    ensures Divs(rows + [row]) == Divs(rows) + Div(row)
  {
    assert (rows + [row])[..|rows|] == rows;
  }

  lemma OneRow(row: seq<string>, w: nat)
    requires w >= 1 && |row| == w
    ensures CompleteRows(row, w) == [row]
  {
    assert row[..w] == row;
    assert CompleteRows(row[w..], w) == [];
  }

  /** Closing the full row `spans[from..to]` adds one `<div>` for it. */
  lemma CloseRow(spans: seq<string>, from: nat, to: nat, w: nat)
    requires w >= 1 && Aligned(from, w) && to == from + w && to <= |spans|
    ensures Divs(CompleteRows(spans[..to], w)) == Divs(CompleteRows(spans[..from], w)) + Div(spans[from..to])
  {
    var done := spans[..from];
    var row := spans[from..to];
    assert spans[..to] == done + row;
    var k := AlignedRows(from, w);
    CompleteRowsAppend(done, row, w, k);
    OneRow(row, w);
    DivsSnoc(CompleteRows(done, w), row);
  }

  /** The pixels after the last complete row produce no `<div>`. */
  lemma LeftoverDropped(spans: seq<string>, from: nat, w: nat)
    requires w >= 1 && Aligned(from, w) && from <= |spans| < from + w
    ensures CompleteRows(spans[..from], w) == CompleteRows(spans, w)
  {
    var k := AlignedRows(from, w);
    CompleteRowsAppend(spans[..from], spans[from..], w, k);
    assert spans[..from] + spans[from..] == spans;
  }
}
