/**
 * The wrapping loop of `measure_text` in layout-core/src/measure.rs, over given word widths.
 * A segment is the text up to one break opportunity; the line breaker always ends the text with a
 * mandatory break.  Widths are reals, where the program uses f32.
 */
module LineWrap {
  import opened Wrappers

  datatype Segment = Segment(width: real, mandatory: bool)

  datatype Style = Style(maxWidth: real, space: real, maxLines: Option<nat>)

  const U32_MAX: nat := 0xFFFF_FFFF

  function LineLimit(style: Style): nat {
    match style.maxLines
    case Some(n) => n
    case None => U32_MAX
  }

  // ---------------------------------------------------------------------------------------------
  // Lines and divisions into lines
  // ---------------------------------------------------------------------------------------------

  /** The width of the segments `i..j` on one line, spaces between them. */
  function LineWidth(text: seq<Segment>, space: real, i: nat, j: nat): real
    decreases j
  {
    if j <= i || j > |text| then 0.0
    else if j == i + 1 then text[i].width
    else LineWidth(text, space, i, j - 1) + space + text[j - 1].width
  }

  /** A line fits, or is a single over-wide word; and it has no mandatory break inside. */
  ghost predicate IsLine(text: seq<Segment>, style: Style, i: nat, j: nat) {
    && i < j <= |text|
    && (j == i + 1 || LineWidth(text, style.space, i, j) <= style.maxWidth)
    && forall k :: i <= k < j - 1 ==> !text[k].mandatory
  }

  /** `cuts` are the starts of consecutive lines from 0, and the end of the last one. */
  ghost predicate Lines(text: seq<Segment>, style: Style, cuts: seq<nat>) {
    && cuts != [] && cuts[0] == 0
    && forall t :: 0 <= t < |cuts| - 1 ==> IsLine(text, style, cuts[t], cuts[t + 1])
  }

  ghost predicate Division(text: seq<Segment>, style: Style, cuts: seq<nat>) {
    Lines(text, style, cuts) && cuts[|cuts| - 1] == |text|
  }

  /** `n` is the least number of lines the text can be divided into. */
  ghost predicate Least(text: seq<Segment>, style: Style, n: nat) {
    && (exists cuts :: Division(text, style, cuts) && |cuts| == n + 1)
    && forall cuts :: Division(text, style, cuts) ==> |cuts| >= n + 1
  }

  /** What the line breaker and the shaper deliver. */
  ghost predicate Shaped(text: seq<Segment>, style: Style) {
    && style.maxWidth > 0.0 && style.space >= 0.0
    && (forall k :: 0 <= k < |text| ==> text[k].width > 0.0)
    && (text != [] ==> text[|text| - 1].mandatory)
  }

  /** A line that could not take the next segment too. */
  ghost predicate IsFullLine(text: seq<Segment>, style: Style, i: nat, j: nat) {
    && IsLine(text, style, i, j)
    && (text[j - 1].mandatory || (j < |text| && LineWidth(text, style.space, i, j + 1) > style.maxWidth))
  }

  ghost predicate Greedy(text: seq<Segment>, style: Style, cuts: seq<nat>) {
    && cuts != [] && cuts[0] == 0
    && forall t :: 0 <= t < |cuts| - 1 ==> IsFullLine(text, style, cuts[t], cuts[t + 1])
  }

  // ---------------------------------------------------------------------------------------------
  // The loop
  // ---------------------------------------------------------------------------------------------

  datatype Layout = Layout(lines: nat, lastLineWidth: real, elided: bool)

  /**
   * The line count is the least possible, cut off at the line limit, and the text is elided
   * exactly when the least possible number is above the limit.  The width reported as the last
   * line's is that of the last line counted: when the text is elided, of the first line dropped.
   */
  method MeasureText(text: seq<Segment>, style: Style) returns (out: Layout, ghost cuts: seq<nat>)
    ensures style.maxWidth <= 0.0 ==> out == Layout(0, 0.0, false)
    ensures Shaped(text, style) ==>
      && Greedy(text, style, cuts)
      && (if out.elided then |cuts| - 1 == LineLimit(style) + 1 && out.lines == LineLimit(style)
          else cuts[|cuts| - 1] == |text| && out.lines == |cuts| - 1 <= LineLimit(style))
      && (|cuts| > 1 ==> out.lastLineWidth == LineWidth(text, style.space, cuts[|cuts| - 2], cuts[|cuts| - 1]))
    ensures Shaped(text, style) ==> forall n: nat :: Least(text, style, n) ==>
      && out.lines == (if n <= LineLimit(style) then n else LineLimit(style))
      && (out.elided <==> n > LineLimit(style))
    ensures Shaped(text, style) ==> forall n: nat :: Least(text, style, n) ==>
      match style.maxLines
      case Some(max) => out.lines == (if n <= max then n else max) && (out.elided <==> n > max)
      case None => n <= 4_294_967_295 ==> out.lines == n && !out.elided
  {
    hide IsFullLine, OpenLine, LineWidth, Least;
    OpenLineStarts(text, style, 0);
    cuts := [0];
    if style.maxWidth <= 0.0 {
      return Layout(0, 0.0, false), cuts;
    }
    var maxLines := LineLimit(style);
    var lineCount, lineWidth, lastWidth, elided := 0, 0.0, 0.0, false;
    ghost var start := 0;
    var i := 0;
    while i < |text|
      invariant 0 <= i <= |text| && cuts != [] && lineCount == |cuts| - 1 <= maxLines && !elided
      invariant Shaped(text, style) ==>
        && Greedy(text, style, cuts) && cuts[|cuts| - 1] == start && OpenLine(text, style, start, i)
        && lineWidth == LineWidth(text, style.space, start, i)
        && (|cuts| > 1 ==> lastWidth == LineWidth(text, style.space, cuts[|cuts| - 2], cuts[|cuts| - 1]))
    {
      var w := text[i].width;
      if Shaped(text, style) {
        OpenLineStep(text, style, start, i);
      }
      var add := if lineWidth > 0.0 then style.space + w else w;
      if lineWidth > 0.0 && lineWidth + add > style.maxWidth {
        lastWidth := lineWidth;
        lineCount := lineCount + 1;
        cuts, start := cuts + [i], i;
        if lineCount > maxLines {
          elided := true;
          break;
        }
        lineWidth := w;
      } else {
        lineWidth := lineWidth + add;
      }
      if text[i].mandatory {
        lastWidth := lineWidth;
        lineCount := lineCount + 1;
        cuts, start := cuts + [i + 1], i + 1;
        if lineCount > maxLines {
          elided := true;
          break;
        }
        lineWidth := 0.0;
        OpenLineStarts(text, style, i + 1);
      }
      i := i + 1;
    }
    out := Layout(if lineCount < maxLines then lineCount else maxLines, lastWidth, elided);
    if Shaped(text, style) {
      NothingLeftOpen(text, style);
      forall n: nat | Least(text, style, n)
        ensures |cuts| <= n + 1 && (cuts[|cuts| - 1] == |text| ==> |cuts| == n + 1)
      {
        GreedyIsLeast(text, style, cuts, n);
      }
    }
  }

  /** The input: two one-word lines cut off after the first; the width reported is the second's. */
  method ElidedTextReportsDroppedLine() returns (text: seq<Segment>, style: Style, out: Layout)
    ensures Shaped(text, style) && style.maxLines == Some(1)
    ensures IsFullLine(text, style, 0, 1) && out.lines == 1 && out.elided
    ensures out.lastLineWidth == 2.0 && LineWidth(text, style.space, 0, 1) == 1.0
  {
    text, style := [Segment(1.0, true), Segment(2.0, true)], Style(10.0, 1.0, Some(1));
    ghost var cuts;
    out, cuts := MeasureText(text, style);
    assert IsFullLine(text, style, cuts[0], cuts[1]);
    assert cuts[1] == 1;
    if |cuts| == 3 {
      assert IsFullLine(text, style, cuts[1], cuts[2]);
    }
  }

  /** The segments `start..i` are on the current line, which no mandatory break has ended. */
  ghost predicate OpenLine(text: seq<Segment>, style: Style, start: nat, i: nat) {
    && start <= i <= |text|
    && (start < i ==> IsLine(text, style, start, i) && !text[i - 1].mandatory)
  }

  lemma OpenLineStarts(text: seq<Segment>, style: Style, i: nat)
    requires i <= |text|
    ensures OpenLine(text, style, i, i) && LineWidth(text, style.space, i, i) == 0.0
  {
  }

  lemma NothingLeftOpen(text: seq<Segment>, style: Style)
    requires Shaped(text, style)
    ensures forall start :: OpenLine(text, style, start, |text|) ==> start == |text|
  {
  }

  /** What one more segment does to the current line. */
  lemma OpenLineStep(text: seq<Segment>, style: Style, start: nat, i: nat)
    requires Shaped(text, style) && OpenLine(text, style, start, i) && i < |text|
    ensures start <= i && if start < i then LineWidth(text, style.space, start, i) > 0.0
                          else LineWidth(text, style.space, start, i) == 0.0
    ensures LineWidth(text, style.space, start, i + 1)
         == (if start < i then LineWidth(text, style.space, start, i) + (style.space + text[i].width)
             else text[i].width)
    ensures LineWidth(text, style.space, i, i + 1) == text[i].width
    ensures start < i && LineWidth(text, style.space, start, i + 1) > style.maxWidth ==>
              IsFullLine(text, style, start, i)
    ensures start == i || LineWidth(text, style.space, start, i + 1) <= style.maxWidth ==>
              if text[i].mandatory then IsFullLine(text, style, start, i + 1) else OpenLine(text, style, start, i + 1)
    ensures if text[i].mandatory then IsFullLine(text, style, i, i + 1) else OpenLine(text, style, i, i + 1)
  {
    WidthIsPositive(text, style, start, i);
  }

  lemma {:induction false} WidthIsPositive(text: seq<Segment>, style: Style, i: nat, j: nat)
    requires Shaped(text, style) && i <= j <= |text|
    ensures i < j ==> LineWidth(text, style.space, i, j) > 0.0
    decreases j
  {
    if i + 1 < j {
      WidthIsPositive(text, style, i, j - 1);
    }
  }

  // ---------------------------------------------------------------------------------------------
  // Greedy is optimal
  // ---------------------------------------------------------------------------------------------

  lemma {:induction false} PartIsNarrower(text: seq<Segment>, style: Style, i: nat, k: nat, j: nat)
    requires Shaped(text, style) && i <= k <= j <= |text|
    ensures LineWidth(text, style.space, k, j) <= LineWidth(text, style.space, i, j)
    ensures LineWidth(text, style.space, i, k) <= LineWidth(text, style.space, i, j)
    decreases j
  {
    if k < j {
      PartIsNarrower(text, style, i, k, j - 1);
      WidthIsPositive(text, style, i, j - 1);
    } else {
      WidthIsPositive(text, style, i, j);
    }
  }

  /** A full line that starts no earlier than another line ends no earlier. */
  lemma FullLineReachesFurther(text: seq<Segment>, style: Style, a: nat, b: nat, c: nat, d: nat)
    requires Shaped(text, style) && IsFullLine(text, style, a, b) && IsLine(text, style, c, d) && c <= a
    ensures d <= b
  {
    if b < d {
      PartIsNarrower(text, style, c, a, d);
      PartIsNarrower(text, style, a, b + 1, d);
    }
  }

  lemma FullLineIsLine(text: seq<Segment>, style: Style, i: nat, j: nat)
    requires IsFullLine(text, style, i, j)
    ensures i < j <= |text| && IsLine(text, style, i, j)
  {
  }

  /** Cut by cut, the greedy lines stay ahead of any division. */
  lemma {:induction false} GreedyStaysAhead(text: seq<Segment>, style: Style, greedy: seq<nat>, cuts: seq<nat>, t: nat)
    requires Shaped(text, style) && Greedy(text, style, greedy) && Division(text, style, cuts)
    requires t < |greedy| && t < |cuts|
    ensures cuts[t] <= greedy[t]
  {
    if t > 0 {
      GreedyStaysAhead(text, style, greedy, cuts, t - 1);
      FullLineReachesFurther(text, style, greedy[t - 1], greedy[t], cuts[t - 1], cuts[t]);
    }
  }

  lemma GreedyIsShortest(text: seq<Segment>, style: Style, greedy: seq<nat>, cuts: seq<nat>)
    requires Shaped(text, style) && Greedy(text, style, greedy) && Division(text, style, cuts)
    ensures |cuts| >= |greedy|
  {
    if |cuts| < |greedy| {
      var t := |cuts| - 1;
      FullLineIsLine(text, style, greedy[t], greedy[t + 1]);
      GreedyStaysAhead(text, style, greedy, cuts, t);
    }
  }

  /** The text can always be divided: one line for each segment. */
  lemma LeastExists(text: seq<Segment>, style: Style) returns (n: nat)
    ensures Least(text, style, n)
  {
    var cuts := seq(|text| + 1, i requires 0 <= i <= |text| => i);
    assert Division(text, style, cuts);
    n := LeastBelow(text, style, cuts);
  }

  lemma {:induction false} LeastBelow(text: seq<Segment>, style: Style, cuts: seq<nat>) returns (n: nat)
    requires Division(text, style, cuts)
    ensures Least(text, style, n)
    decreases |cuts|
  {
    if shorter :| Division(text, style, shorter) && |shorter| < |cuts| {
      n := LeastBelow(text, style, shorter);
    } else {
      n := |cuts| - 1;
    }
  }

  /** Greedy lines are never more than the least number, and exactly that many when they reach the end. */
  lemma GreedyIsLeast(text: seq<Segment>, style: Style, cuts: seq<nat>, n: nat)
    requires Shaped(text, style) && Greedy(text, style, cuts) && Least(text, style, n)
    ensures |cuts| <= n + 1
    ensures cuts[|cuts| - 1] == |text| ==> |cuts| == n + 1
  {
    var shortest :| Division(text, style, shortest) && |shortest| == n + 1;
    GreedyIsShortest(text, style, cuts, shortest);
    if cuts[|cuts| - 1] == |text| {
      assert forall t :: 0 <= t < |cuts| - 1 ==> IsFullLine(text, style, cuts[t], cuts[t + 1]);
      assert Division(text, style, cuts);
    }
  }
}
