/**
 * `Exceptions::highlightFile` (system/Debug/Exceptions.php:191-261): a
 * numbered window of syntax-highlighted source rows around a line, with the
 * row at WINDOW index `$lineNumber` marked and as many closing `</span>` tags
 * appended as the span counter says.
 */
module Highlight {
  import opened PhpStrings

  // ---------------------------------------------------------------------
  // The window (lines 222-229)
  // ---------------------------------------------------------------------

  /** `(int)round($lines / 2)`: the nearest integer, halves rounded away from zero. */
  function HalfRounded(lines: int): (r: int)
    ensures lines >= 0 ==> 2 * r - 1 <= lines <= 2 * r
    ensures lines < 0 ==> 2 * r <= lines <= 2 * r + 1
  {
    if lines >= 0 then (lines + 1) / 2 else -((1 - lines) / 2)
  }

  /** Lines 222-223: `$start`, half a window before the line, or 0 when that would be negative. */
  function WindowStart(lineNumber: int, lines: int): (start: nat)
    ensures start == 0 || start == lineNumber - HalfRounded(lines)
    ensures start == 0 <==> lineNumber <= HalfRounded(lines)
  {
    var start := lineNumber - HalfRounded(lines);
    if start < 0 then 0 else start
  }

  /**
   * Line 226: the rows `array_splice($rows, $offset, $length)` removes and
   * returns, reindexed from 0, for a non-negative offset. A negative length
   * stops that many rows before the end.
   */
  function Splice(rows: seq<string>, offset: nat, length: int): (w: seq<string>)
    ensures forall k :: 0 <= k < |w| ==> offset + k < |rows| && w[k] == rows[offset + k]
    ensures length >= 0 ==> |w| == Min(length, Max(0, |rows| - offset))
    ensures length < 0 ==> |w| == Max(0, |rows| + length - offset)
  {
    var from := Min(offset, |rows|);
    var to := if length < 0 then Max(from, |rows| + length) else Min(|rows|, from + length);
    rows[from..to]
  }

  /**
   * Line 229: the field width, `strlen($start + $lines)`: the number of
   * decimal digits of the sum, plus one for the sign of a negative sum.
   */
  function Width(start: nat, lines: int): (w: nat)
    ensures w >= 1
    ensures start + lines == 0 ==> w == 1
    ensures start + lines >= 0 ==>
      start + lines < Pow10(w) && (start + lines == 0 || Pow10(w - 1) <= start + lines)
    ensures start + lines < 0 ==>
      w >= 2 && -(start + lines) < Pow10(w - 1) && Pow10(w - 2) <= -(start + lines)
  {
    NatToStringDigits(if start + lines < 0 then -(start + lines) else start + lines);
    |IntToString(start + lines)|
  }

  /** `sprintf('% Nd', $number)` with N the field width: the digits, right-justified with spaces. */
  function NumberField(number: int, width: nat): (f: string)
    ensures |f| == Max(width, |IntToString(number)|)
    ensures EndsWith(f, IntToString(number))
    ensures forall k :: 0 <= k < |f| - |IntToString(number)| ==> f[k] == ' '
  {
    PadLeft(IntToString(number), width)
  }

  // ---------------------------------------------------------------------
  // Rows (lines 238-256)
  // ---------------------------------------------------------------------

  /** Line 241: carriage returns and newlines are deleted from the row, every other character kept in order. */
  function CleanRow(row: string): (r: string)
    ensures r == Without(Without(row, '\r'), '\n')
    ensures '\r' !in r && '\n' !in r
  {
    var noCR := Without(row, '\r');
    ReplaceCharDeletes(row, '\r');
    ReplaceCharDeletes(noCR, '\n');
    var r := Without(noCR, '\n');
    assert forall k :: 0 <= k < |r| ==> r[k] in noCR;
    ReplaceEach(row, ["\r", "\n"], "", false)
  }

  /** A row that `explode("\n", ...)` produced, holding no line break, is left as it is. */
  lemma CleanRowKeepsPlain(row: string)
    requires '\r' !in row && '\n' !in row
    ensures CleanRow(row) == row
  {
    WithoutAbsent(row, '\r');
    WithoutAbsent(row, '\n');
  }

  /** Line 240: what one row adds to the span counter; `<span` is 5 and `</span` 6 characters long. */
  function SpanDelta(row: string): (d: int)
    ensures 5 * d <= |row| && -6 * d <= |row|
  {
    Count(row, "<span") - Count(row, "</span")
  }

  /** The counter's change is the number of places `<span` starts minus those where `</span` starts. */
  lemma SpanDeltaCountsTags(row: string)
    ensures SpanDelta(row) == Positions(row, "<span") - Positions(row, "</span")
  {
    SpanTagsSelfDisjoint();
    CountIsPositions(row, "<span");
    CountIsPositions(row, "</span");
  }

  /** A row without markup leaves the counter as it is. */
  lemma SpanDeltaPlain(row: string)
    requires '<' !in row
    ensures SpanDelta(row) == 0
  {
    CountZeroIffAbsent(row, "<span");
    CountZeroIffAbsent(row, "</span");
    AbsentFirstChar(row, "<span");
    AbsentFirstChar(row, "</span");
  }

  function SpanBalance(rows: seq<string>): int {
    if rows == [] then 0 else SpanBalance(rows[..|rows| - 1]) + SpanDelta(rows[|rows| - 1])
  }

  lemma SpanBalancePrefix(rows: seq<string>, n: nat)
    requires n < |rows|
    ensures SpanBalance(rows[..n + 1]) == SpanBalance(rows[..n]) + SpanDelta(rows[n])
  {
    assert rows[..n + 1][..n] == rows[..n];
  }

  /**
   * Line 258: the number of closing tags, `$spans`; `str_repeat` with a
   * negative count appends nothing.
   */
  function ClosingCount(window: seq<string>): (n: nat)
    ensures 1 + SpanBalance(window) >= 0 ==> n == 1 + SpanBalance(window)
    ensures 1 + SpanBalance(window) < 0 ==> n == 0
  {
    var spans := 1 + SpanBalance(window);
    if spans < 0 then 0 else spans
  }

  lemma {:induction false} SpanBalancePlain(rows: seq<string>)
    requires forall k :: 0 <= k < |rows| ==> '<' !in rows[k]
    ensures SpanBalance(rows) == 0
  {
    if rows != [] {
      SpanBalancePlain(rows[..|rows| - 1]);
      SpanDeltaPlain(rows[|rows| - 1]);
    }
  }

  /** A window without markup gets exactly one closing tag. */
  lemma ClosingCountPlain(window: seq<string>)
    requires forall k :: 0 <= k < |window| ==> '<' !in window[k]
    ensures ClosingCount(window) == 1
  {
    SpanBalancePlain(window);
  }

  const HighlightOpen := "<span class='line highlight'><span class='number'>"
  const LineOpen := "<span class=\"line\"><span class=\"number\">"

  /** The opening of the marked row up to its text: wrapper, number field, closing `</span> `. */
  function HighlightHead(number: int, width: nat): string {
    HighlightOpen + NumberField(number, width) + "</span> "
  }

  /** The end of the marked row: newline, closing `</span>`, then the row's tags in order. */
  function HighlightTail(row: string): string {
    "\n</span>" + Tags(row)
  }

  /**
   * Line 246: the marked row, its text without tags (`strip_tags`) between
   * the opening and the number, and the closing `</span>` followed by the
   * tags it held, in order.
   */
  function HighlightedRow(number: int, width: nat, row: string): (r: string)
    ensures StartsWith(r, HighlightHead(number, width))
    ensures EndsWith(r, HighlightTail(row))
    ensures |r| == |HighlightHead(number, width)| + |StripTags(row)| + |HighlightTail(row)|
  {
    var head := HighlightHead(number, width);
    var tail := HighlightTail(row);
    Framed(head, StripTags(row), tail);
    head + StripTags(row) + tail
  }

  /** Between the number and the closing tags, the marked row holds the row's text with every tag cut out. */
  lemma HighlightedRowText(number: int, width: nat, row: string)
    ensures var h := |HighlightHead(number, width)|;
      HighlightedRow(number, width, row)[h..h + |StripTags(row)|] == StripTags(row)
  {
    Framed(HighlightHead(number, width), StripTags(row), HighlightTail(row));
  }

  /** Moving the tags to the end of the marked row loses none of the row's characters. */
  lemma HighlightedRowKeepsCharacters(number: int, width: nat, row: string)
    ensures multiset(row) <= multiset(HighlightedRow(number, width, row))
  {
    Framed(HighlightHead(number, width), StripTags(row), HighlightTail(row));
    StripTagsPartition(row);
  }

  /** Line 254: an ordinary row, markup kept and its `line` span left open. */
  function PlainRow(number: int, width: nat, row: string): (r: string)
    ensures StartsWith(r, LineOpen + NumberField(number, width) + "</span> ")
    ensures EndsWith(r, row + "\n")
    ensures |r| == |LineOpen + NumberField(number, width) + "</span> "| + |row| + 1
  {
    var head := LineOpen + NumberField(number, width) + "</span> ";
    ConcatEnds(head, row + "\n");
    head + (row + "\n")
  }

  function RenderRow(row: string, number: int, width: nat, highlighted: bool): string {
    if highlighted then HighlightedRow(number, width, row) else PlainRow(number, width, row)
  }

  predicate IsHighlighted(out: string) {
    StartsWith(out, HighlightOpen)
  }

  /** The two row openings differ at their 13th character, so no plain row starts like a marked one. */
  lemma OpeningsDiffer(s: string)
    requires StartsWith(s, LineOpen)
    ensures !StartsWith(s, HighlightOpen)
  {
    assert s[12] == LineOpen[12] == '"' != HighlightOpen[12];
  }

  lemma HighlightedRowMarked(number: int, width: nat, row: string)
    ensures IsHighlighted(HighlightedRow(number, width, row))
  {
    assert HighlightHead(number, width) == HighlightOpen + NumberField(number, width) + "</span> ";
    StartsWithHead(HighlightedRow(number, width, row), HighlightOpen, NumberField(number, width), "</span> ");
  }

  lemma PlainRowUnmarked(number: int, width: nat, row: string)
    ensures !IsHighlighted(PlainRow(number, width, row))
  {
    StartsWithHead(PlainRow(number, width, row), LineOpen, NumberField(number, width), "</span> ");
    OpeningsDiffer(PlainRow(number, width, row));
  }

  /** A rendered row carries the highlight wrapper exactly when it was rendered as the marked row. */
  lemma RenderRowHighlighted(row: string, number: int, width: nat, highlighted: bool)
    ensures IsHighlighted(RenderRow(row, number, width, highlighted)) <==> highlighted
  {
    if highlighted {
      HighlightedRowMarked(number, width, row);
    } else {
      PlainRowUnmarked(number, width, row);
    }
  }

  /**
   * Lines 238-256 as written: row `k` of the window is numbered `k + start`
   * and is the marked one when its WINDOW index `k` equals `lineNumber`.
   */
  function RenderedRows(window: seq<string>, start: nat, width: nat, lineNumber: int): (rs: seq<string>)
    ensures |rs| == |window|
  {
    seq(|window|, k requires 0 <= k < |window| => RenderRow(CleanRow(window[k]), k + start, width, k == lineNumber))
  }

  lemma RenderedRowsAt(window: seq<string>, start: nat, width: nat, lineNumber: int, k: nat)
    requires k < |window|
    ensures RenderedRows(window, start, width, lineNumber)[k] == RenderRow(CleanRow(window[k]), k + start, width, k == lineNumber)
  {
  }

  /** Under the code as written, the marked row is the one at window index `lineNumber`, and no other. */
  lemma MarkedAtWindowIndex(window: seq<string>, start: nat, width: nat, lineNumber: int, k: nat)
    requires k < |window|
    ensures IsHighlighted(RenderedRows(window, start, width, lineNumber)[k]) <==> k == lineNumber
  {
    RenderedRowsAt(window, start, width, lineNumber, k);
    RenderRowHighlighted(CleanRow(window[k]), k + start, width, k == lineNumber);
  }

  /**
   * Under the code as written, a `lineNumber` outside the window's index
   * range (a line near the end of a long file, say) marks no row at all.
   */
  lemma NothingMarkedBeyondWindow(window: seq<string>, start: nat, width: nat, lineNumber: int)
    requires lineNumber < 0 || lineNumber >= |window|
    ensures forall k :: 0 <= k < |window| ==> !IsHighlighted(RenderedRows(window, start, width, lineNumber)[k])
  {
    forall k | 0 <= k < |window|
      ensures !IsHighlighted(RenderedRows(window, start, width, lineNumber)[k])
    {
      MarkedAtWindowIndex(window, start, width, lineNumber, k);
    }
  }

  /**
   * Corrected rule: window row `k` is file line `k + start + 1` (the rows
   * of the file are counted from 0, its lines from 1), is shown with that
   * number, and is the marked one when that number is `lineNumber`.
   */
  function IntendedRows(window: seq<string>, start: nat, width: nat, lineNumber: int): (rs: seq<string>)
    ensures |rs| == |window|
  {
    seq(|window|, k requires 0 <= k < |window| => RenderRow(CleanRow(window[k]), k + start + 1, width, k + start + 1 == lineNumber))
  }

  lemma IntendedRowsAt(window: seq<string>, start: nat, width: nat, lineNumber: int, k: nat)
    requires k < |window|
    ensures IntendedRows(window, start, width, lineNumber)[k] == RenderRow(CleanRow(window[k]), k + start + 1, width, k + start + 1 == lineNumber)
  {
  }

  /** Under the corrected rule the marked row is the one numbered `lineNumber`, wherever the window starts. */
  lemma IntendedMarksNumberedLine(window: seq<string>, start: nat, width: nat, lineNumber: int, k: nat)
    requires k < |window|
    ensures IsHighlighted(IntendedRows(window, start, width, lineNumber)[k]) <==> k + start + 1 == lineNumber
  {
    IntendedRowsAt(window, start, width, lineNumber, k);
    RenderRowHighlighted(CleanRow(window[k]), k + start + 1, width, k + start + 1 == lineNumber);
  }

  /** Line 222-226 arithmetic: for any window of at least one row, a line of the file falls inside it. */
  lemma LineInsideWindow(rows: seq<string>, lineNumber: int, lines: int)
    requires 1 <= lineNumber <= |rows| && lines >= 1
    ensures var start := WindowStart(lineNumber, lines);
            0 <= lineNumber - 1 - start < |Splice(rows, start, lines)|
  {
  }

  /**
   * Under the corrected rule a line of the file is always inside its own
   * window and marked there, for any window of at least one row and any
   * field width.
   */
  lemma IntendedShowsLine(rows: seq<string>, lineNumber: int, lines: int, width: nat)
    requires 1 <= lineNumber <= |rows| && lines >= 1
    ensures var start := WindowStart(lineNumber, lines);
            var window := Splice(rows, start, lines);
            var k := lineNumber - 1 - start;
            0 <= k < |window| && window[k] == rows[lineNumber - 1] &&
            IsHighlighted(IntendedRows(window, start, width, lineNumber)[k])
  {
    var start := WindowStart(lineNumber, lines);
    var window := Splice(rows, start, lines);
    var k := lineNumber - 1 - start;
    LineInsideWindow(rows, lineNumber, lines);
    assert window[k] == rows[start + k];
    IntendedMarksNumberedLine(window, start, width, lineNumber, k);
  }

  /** Under the corrected rule every shown number is at most `start + lines`, so it fits the field width of line 229. */
  lemma IntendedNumberFits(rows: seq<string>, lineNumber: int, lines: int, k: nat)
    requires lines >= 0
    requires k < |Splice(rows, WindowStart(lineNumber, lines), lines)|
    ensures var start := WindowStart(lineNumber, lines);
            var width := Width(start, lines);
            |NumberField(k + start + 1, width)| == width
  {
    var start := WindowStart(lineNumber, lines);
    NatToStringLengthMonotone(k + start + 1, start + lines);
  }

  /**
   * Line 243 compares the window index with the file line: for line 10 of
   * a 30-row file and the default 15-row window, the window starts at row
   * 2, the marked row is window row 10 (file line 13), and window row 7,
   * which holds file line 10, is plain. The corrected rule marks window row 7.
   */
  lemma MarkedRowMissesLine(rows: seq<string>)
    requires |rows| == 30
    ensures var start := WindowStart(10, 15);
            var window := Splice(rows, start, 15);
            var width := Width(start, 15);
            start == 2 && |window| == 15 && window[7] == rows[9] && window[10] == rows[12] &&
            IsHighlighted(RenderedRows(window, start, width, 10)[10]) &&
            !IsHighlighted(RenderedRows(window, start, width, 10)[7]) &&
            IsHighlighted(IntendedRows(window, start, width, 10)[7])
  {
    var start := WindowStart(10, 15);
    var window := Splice(rows, start, 15);
    var width := Width(start, 15);
    assert start == 2;
    MarkedAtWindowIndex(window, start, width, 10, 10);
    MarkedAtWindowIndex(window, start, width, 10, 7);
    IntendedMarksNumberedLine(window, start, width, 10, 7);
  }

  /**
   * Line 243 again: for line 25 of a 30-row file the window holds the 13
   * rows from row 17 on, so window index 25 does not exist and no row is
   * marked; the corrected rule marks window row 7, file line 25.
   */
  lemma MarkedRowMissingNearEnd(rows: seq<string>)
    requires |rows| == 30
    ensures var start := WindowStart(25, 15);
            var window := Splice(rows, start, 15);
            var width := Width(start, 15);
            start == 17 && |window| == 13 && window[7] == rows[24] &&
            (forall k :: 0 <= k < |window| ==> !IsHighlighted(RenderedRows(window, start, width, 25)[k])) &&
            IsHighlighted(IntendedRows(window, start, width, 25)[7])
  {
    var start := WindowStart(25, 15);
    var window := Splice(rows, start, 15);
    var width := Width(start, 15);
    assert start == 17;
    NothingMarkedBeyondWindow(window, start, width, 25);
    IntendedMarksNumberedLine(window, start, width, 25, 7);
  }

  /** The opening and number of a rendered row, whichever form it takes. */
  lemma RenderRowNumbered(row: string, number: int, width: nat, highlighted: bool)
    ensures StartsWith(RenderRow(row, number, width, highlighted),
                       (if highlighted then HighlightOpen else LineOpen) + NumberField(number, width) + "</span> ")
  {
    assert HighlightHead(number, width) == HighlightOpen + NumberField(number, width) + "</span> ";
  }

  lemma SmallNumberFields()
    ensures Width(0, 15) == 2 && NumberField(0, 2) == " 0" && NumberField(1, 2) == " 1"
  {
    assert IntToString(15) == "15";
    assert IntToString(0) == "0";
    assert IntToString(1) == "1";
  }

  /**
   * Lines 247 and 254 show window row `k` with the number `k + start`, one
   * less than its line: the first line of a file is shown as " 0".
   */
  lemma FirstLineNumberedZero(rows: seq<string>)
    requires |rows| >= 2
    ensures var window := Splice(rows, WindowStart(1, 15), 15);
            WindowStart(1, 15) == 0 && window[0] == rows[0] && Width(0, 15) == 2 &&
            NumberField(0, 2) == " 0" &&
            StartsWith(RenderedRows(window, 0, 2, 1)[0], LineOpen + NumberField(0, 2) + "</span> ")
  {
    var window := Splice(rows, 0, 15);
    SmallNumberFields();
    RenderedRowsAt(window, 0, 2, 1, 0);
    RenderRowNumbered(CleanRow(window[0]), 0, 2, false);
  }

  /** Under the corrected rule the first line of a file is shown as " 1", and marked when it is the line asked for. */
  lemma IntendedFirstLineNumberedOne(rows: seq<string>)
    requires |rows| >= 2
    ensures var window := Splice(rows, WindowStart(1, 15), 15);
            WindowStart(1, 15) == 0 && window[0] == rows[0] && Width(0, 15) == 2 &&
            NumberField(1, 2) == " 1" &&
            StartsWith(IntendedRows(window, 0, 2, 1)[0], HighlightOpen + NumberField(1, 2) + "</span> ")
  {
    var window := Splice(rows, 0, 15);
    SmallNumberFields();
    IntendedRowsAt(window, 0, 2, 1, 0);
    RenderRowNumbered(CleanRow(window[0]), 1, 2, true);
  }

  /**
   * The numbers of one excerpt all fill exactly the same field width, the
   * digit count of `start + lines` (for a non-negative `lines`).
   */
  lemma NumberFieldFits(rows: seq<string>, lineNumber: int, lines: int, k: nat)
    requires lines >= 0
    requires k < |Splice(rows, WindowStart(lineNumber, lines), lines)|
    ensures var start := WindowStart(lineNumber, lines);
            var width := Width(start, lines);
            |NumberField(k + start, width)| == width && EndsWith(NumberField(k + start, width), IntToString(k + start))
  {
    var start := WindowStart(lineNumber, lines);
    NatToStringLengthMonotone(k + start, start + lines);
  }

  /** A line in the first half-window puts the window at the top of the file: its first min(lines, rows) rows. */
  lemma EarlyLineClampsStart(rows: seq<string>, lineNumber: int, lines: int)
    requires lines >= 0 && lineNumber <= HalfRounded(lines)
    ensures WindowStart(lineNumber, lines) == 0
    ensures Splice(rows, 0, lines) == rows[..Min(lines, |rows|)]
  {
  }

  /** A 5-row file, line 2, the default 15 rows: start 0, all 5 rows shown, width 2, row 2 marked. */
  lemma ShortFile(rows: seq<string>)
    requires |rows| == 5
    ensures WindowStart(2, 15) == 0 && Splice(rows, 0, 15) == rows && Width(0, 15) == 2
    ensures IsHighlighted(RenderedRows(rows, 0, 2, 2)[2])
  {
    assert rows[..5] == rows;
    assert IntToString(15) == "15";
    MarkedAtWindowIndex(rows, 0, 2, 2, 2);
  }

  // ---------------------------------------------------------------------
  // The whole excerpt (lines 191-261)
  // ---------------------------------------------------------------------

  /**
   * The loop of lines 238-256: each row of the window adds to the span
   * counter and is rendered, numbered from `start`, marked when its window
   * index is `lineNumber`.
   */
  method WriteRows(window: seq<string>, start: nat, width: nat, lineNumber: int)
    returns (out: string, spans: int)
    ensures out == Concat(RenderedRows(window, start, width, lineNumber))
    ensures spans == 1 + SpanBalance(window)
  {
    out := "";
    spans := 1;
    ghost var rendered := RenderedRows(window, start, width, lineNumber);
    var n := 0;
    while n < |window|
      invariant 0 <= n <= |window|
      invariant spans == 1 + SpanBalance(window[..n])
      invariant out == Concat(rendered[..n])
    {
      var row := window[n];
      spans := spans + SpanDelta(row);
      row := CleanRow(row);
      RenderedRowsAt(window, start, width, lineNumber, n);
      if n == lineNumber {
        out := out + HighlightedRow(n + start, width, row);
      } else {
        out := out + PlainRow(n + start, width, row);
      }
      SpanBalancePrefix(window, n);
      ConcatPrefix(rendered, n);
      n := n + 1;
    }
    assert window[..n] == window && rendered[..n] == rendered;
  }

  /** Line 215: "\r\n", then any remaining "\r", become "\n". */
  function Normalize(source: string): (r: string)
    ensures '\r' !in r
  {
    var crlf := Replace(source, "\r\n", "\n", false);
    ReplaceRemovesChar(crlf, '\r', "\n", false);
    ReplaceEach(source, ["\r\n", "\r"], "\n", false)
  }

  /**
   * One left-to-right pass over the text: a "\r\n" pair becomes one "\n",
   * a lone "\r" becomes "\n", and every other character is kept.
   */
  function LineBreaks(source: string): (r: string)
    ensures '\r' !in r
    decreases |source|
  {
    if source == [] then []
    else if |source| >= 2 && source[0] == '\r' && source[1] == '\n' then "\n" + LineBreaks(source[2..])
    else (if source[0] == '\r' then "\n" else [source[0]]) + LineBreaks(source[1..])
  }

  /** The first replacement of line 215 either takes a "\r\n" pair or passes one character. */
  lemma CrlfStep(s: string)
    requires s != []
    ensures Replace(s, "\r\n", "\n", false) ==
      if |s| >= 2 && s[0] == '\r' && s[1] == '\n' then "\n" + Replace(s[2..], "\r\n", "\n", false)
      else [s[0]] + Replace(s[1..], "\r\n", "\n", false)
  {
    if |s| < 2 {
      assert s == [s[0]] && s[1..] == [];
    } else if s[0] == '\r' && s[1] == '\n' {
      assert s[..2] == "\r\n";
    } else {
      assert s[..2] != "\r\n" by { assert s[..2][0] == s[0] && s[..2][1] == s[1]; }
    }
  }

  /**
   * Replacing "\r\n" first and "\r" second is the one-pass rule above:
   * no "\r\n" pair turns into two line breaks.
   */
  lemma {:induction false} NormalizeIsLineBreaks(source: string)
    ensures Normalize(source) == LineBreaks(source)
    decreases |source|
  {
    assert Normalize(source) == Replace(Replace(source, "\r\n", "\n", false), "\r", "\n", false);
    if source != [] {
      CrlfStep(source);
      if |source| >= 2 && source[0] == '\r' && source[1] == '\n' {
        NormalizeIsLineBreaks(source[2..]);
        ReplaceCharCons('\n', Replace(source[2..], "\r\n", "\n", false), '\r', "\n");
        assert Normalize(source[2..]) == Replace(Replace(source[2..], "\r\n", "\n", false), "\r", "\n", false);
      } else {
        NormalizeIsLineBreaks(source[1..]);
        ReplaceCharCons(source[0], Replace(source[1..], "\r\n", "\n", false), '\r', "\n");
        assert Normalize(source[1..]) == Replace(Replace(source[1..], "\r\n", "\n", false), "\r", "\n", false);
      }
    }
  }

  /** Text without carriage returns is left as it is, so normalising twice is normalising once. */
  lemma NormalizeKeepsPlain(source: string)
    requires '\r' !in source
    ensures Normalize(source) == source
  {
    ReplaceMissingChar(source, "\r\n", "\n", 0);
    ReplaceMissingChar(source, "\r", "\n", 0);
  }

  /**
   * The excerpt of already highlighted `rows`, by the rules above: the
   * rendered window rows, in order, then the closing tags the counter asks
   * for, inside `<pre><code>`.
   */
  function Excerpt(rows: seq<string>, lineNumber: int, lines: int): (r: string)
    ensures var start := WindowStart(lineNumber, lines);
            var window := Splice(rows, start, lines);
            StartsWith(r, "<pre><code>" + Concat(RenderedRows(window, start, Width(start, lines), lineNumber))) &&
            EndsWith(r, Repeat("</span>", ClosingCount(window)) + "</code></pre>") &&
            |r| == |"<pre><code>"| + |Concat(RenderedRows(window, start, Width(start, lines), lineNumber))| +
                   |Repeat("</span>", ClosingCount(window))| + |"</code></pre>"|
  {
    var start := WindowStart(lineNumber, lines);
    var window := Splice(rows, start, lines);
    var body := Concat(RenderedRows(window, start, Width(start, lines), lineNumber));
    var closing := Repeat("</span>", ClosingCount(window));
    Wrapped("<pre><code>", body, closing, "</code></pre>");
    "<pre><code>" + (body + closing) + "</code></pre>"
  }

  /** Lines 193-213: when `highlightFile` returns false. */
  predicate Unavailable(file: string, readable: bool, contents: Option<string>) {
    IsEmpty(file) || !readable || contents.None? || IsEmpty(contents.value)
  }

  /**
   * `readable` is `is_readable($file)`, `contents` is what
   * `@file_get_contents($file)` returns (None for false), and `highlight`
   * maps the normalised source to the rows of highlighted markup
   * (`highlight_string`, unwrapped and split at line breaks).
   * None stands for the `false` result.
   */
  method HighlightFile(file: string, readable: bool, contents: Option<string>,
                       highlight: string -> seq<string>, lineNumber: int, lines: int := 15)
    returns (r: Option<string>)
    ensures r.None? <==> Unavailable(file, readable, contents)
    ensures r.Some? ==> r.value == Excerpt(highlight(Normalize(contents.value)), lineNumber, lines)
  {
    if IsEmpty(file) || !readable {
      return None;
    }
    if contents.None? || IsEmpty(contents.value) {
      return None;
    }
    var source := Normalize(contents.value);
    var rows := highlight(source);

    var start := lineNumber - HalfRounded(lines);
    start := if start < 0 then 0 else start;
    var window := Splice(rows, start, lines);
    var width := |IntToString(start + lines)|;

    var out, spans := WriteRows(window, start, width, lineNumber);
    out := out + Repeat("</span>", if spans < 0 then 0 else spans);
    assert start == WindowStart(lineNumber, lines) && width == Width(start, lines);
    assert out == Concat(RenderedRows(window, start, width, lineNumber)) + Repeat("</span>", ClosingCount(window));
    r := Some("<pre><code>" + out + "</code></pre>");
  }
}
