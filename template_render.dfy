// Rendering of the license template in LicenseUpdate.run: "{year}" becomes the
// year range, then all k "{padding}" tokens of a line become the same number of
// spaces, trunc((80 - n) / k) for n other characters. One token brings the line to
// column 80 exactly, k tokens can leave it up to k - 1 short, and a line with more
// than 80 other characters gets no spaces. Every rendered line is followed by the
// file's line separator.
module TemplateRender {
  import opened Text

  const YearToken := "{year}"
  const PaddingToken := "{padding}"
  const LineWidth := 80

  // int(a / b) for b > 0: the quotient truncated toward zero (Python's float
  // division followed by int()).
  function TruncDiv(a: int, b: int): int
    requires b > 0
  {
    if a >= 0 then a / b else -((-a) / b)
  }

  // The {padding} step of one line, after the year substitution.
  function PadLine(line: string): string {
    var count := Count(line, PaddingToken);
    if count == 0 then line
    else
      var padding := LineWidth - |line| + |PaddingToken| * count;
      ReplaceAll(line, PaddingToken, Spaces(TruncDiv(padding, count)))
  }

  // One template line as run writes it, without the separator.
  function RenderLine(line: string, yearRange: string): string {
    PadLine(ReplaceAll(line, YearToken, yearRange))
  }

  // Lines each followed by the separator, in order.
  function Terminated(ls: seq<string>, sep: string): string
    decreases |ls|
  {
    if ls == [] then ""
    else Terminated(ls[..|ls| - 1], sep) + ls[|ls| - 1] + sep
  }

  // What the template loop accumulates in `output`: each rendered line and a separator.
  function RenderAll(template: seq<string>, yearRange: string, sep: string): string {
    Terminated(RenderedLines(template, yearRange), sep)
  }

  // The rendered lines themselves, in template order.
  function RenderedLines(template: seq<string>, yearRange: string): (ls: seq<string>)
    ensures |ls| == |template|
    ensures forall k :: 0 <= k < |ls| ==> ls[k] == RenderLine(template[k], yearRange)
  {
    seq(|template|, k requires 0 <= k < |template| => RenderLine(template[k], yearRange))
  }

  // The width of each padding: with count tokens on a line of n other characters,
  // every token becomes trunc((80 - n) / count) spaces, or none if that is not positive.
  function PaddingWidth(n: int, count: nat): nat
    requires count > 0
  {
    var w := TruncDiv(LineWidth - n, count);
    if w > 0 then w else 0
  }

  // Length of a padded line: the other characters plus count paddings of the same width;
  // a line without the token is left as it is.
  lemma PadLineLength(line: string)
    ensures var count := Count(line, PaddingToken);
      var n := |line| - |PaddingToken| * count;
      && (count == 0 ==> PadLine(line) == line)
      && (count > 0 ==> |PadLine(line)| == n + count * PaddingWidth(n, count))
  {
    var count := Count(line, PaddingToken);
    if count > 0 {
      var n := |line| - |PaddingToken| * count;
      var sp := Spaces(TruncDiv(LineWidth - |line| + |PaddingToken| * count, count));
      assert PadLine(line) == ReplaceAll(line, PaddingToken, sp);
      ReplaceLength(line, PaddingToken, sp);
      assert |sp| == PaddingWidth(n, count);
      Distribute(|line|, count, |sp|, |PaddingToken|);
    }
  }

  lemma Distribute(len: int, count: int, w: int, t: int)
    ensures len + count * (w - t) == (len - t * count) + count * w
  {
  }

  // A line without the padding token is written as it is.
  lemma NoTokenNoPadding(line: string)
    requires !Contains(line, PaddingToken)
    ensures PadLine(line) == line
  {
    CountZero(line, PaddingToken);
  }

  // One padding token on a line of at most 80 other characters fills it to exactly 80.
  lemma SinglePaddingFillsLine(line: string)
    requires Count(line, PaddingToken) == 1 && |line| - |PaddingToken| <= LineWidth
    ensures |PadLine(line)| == LineWidth
  {
    PadLineLength(line);
  }

  // count paddings of the common width bring n characters to at most 80, and to more
  // than 80 - count: truncation loses less than one space per token.
  lemma PaddedWidthBounds(n: int, count: nat)
    requires count > 0 && n <= LineWidth
    ensures LineWidth - count < n + count * PaddingWidth(n, count) <= LineWidth
  {
    var room := LineWidth - n;
    var q := room / count;
    var r := room % count;
    assert room == count * q + r;
    assert 0 <= r < count;
    assert TruncDiv(room, count) == q;
    assert q >= 0;
    assert PaddingWidth(n, count) == q;
  }

  // Several tokens share the room left: the line ends up at most 80 long, and short of
  // 80 by less than the number of tokens (the remainder of the division).
  lemma PaddingNeverOverfills(line: string)
    requires Count(line, PaddingToken) > 0
    requires |line| - |PaddingToken| * Count(line, PaddingToken) <= LineWidth
    ensures LineWidth - Count(line, PaddingToken) < |PadLine(line)| <= LineWidth
  {
    PadLineLength(line);
    PaddedWidthBounds(|line| - |PaddingToken| * Count(line, PaddingToken), Count(line, PaddingToken));
  }

  // A line already longer than 80 without its tokens loses them: they become no spaces.
  lemma LongLineGetsNoPadding(line: string)
    requires Count(line, PaddingToken) > 0
    requires |line| - |PaddingToken| * Count(line, PaddingToken) > LineWidth
    ensures |PadLine(line)| == |line| - |PaddingToken| * Count(line, PaddingToken)
  {
    PadLineLength(line);
    var count := Count(line, PaddingToken);
    var n := |line| - |PaddingToken| * count;
    assert (n - LineWidth) / count >= 0;
    assert PaddingWidth(n, count) == 0;
  }

  // Terminated lines, read from the front: the first line, a separator, the rest.
  lemma {:induction false} TerminatedCons(ls: seq<string>, sep: string)
    requires |ls| > 0
    ensures Terminated(ls, sep) == ls[0] + sep + Terminated(ls[1..], sep)
    decreases |ls|
  {
    var n := |ls|;
    if n > 1 {
      var init := ls[..n - 1];
      TerminatedCons(init, sep);
      assert init[0] == ls[0];
      assert init[1..] == ls[1..][..n - 2];
      assert ls[1..][n - 2] == ls[n - 1];
    } else {
      assert ls[..0] == [];
      assert ls[1..] == [];
    }
  }

  // The accumulation, read from the front: the first rendered line, a separator, the rest.
  lemma RenderAllCons(template: seq<string>, yearRange: string, sep: string)
    requires |template| > 0
    ensures RenderAll(template, yearRange, sep) ==
      RenderLine(template[0], yearRange) + sep + RenderAll(template[1..], yearRange, sep)
  {
    var ls := RenderedLines(template, yearRange);
    RenderedLinesCons(template, yearRange);
    TerminatedCons(ls, sep);
    assert ls[1..] == RenderedLines(template[1..], yearRange);
  }

  // A rendered line keeps a leading "//" and gains no '\n' unless the year range has one.
  lemma RenderLineShape(line: string, yearRange: string)
    requires '\n' !in line && '\n' !in yearRange
    ensures '\n' !in RenderLine(line, yearRange)
    ensures StartsWith(line, "//") ==> StartsWith(RenderLine(line, yearRange), "//")
  {
    var y := ReplaceAll(line, YearToken, yearRange);
    ReplaceKeepsAbsent('\n', line, YearToken, yearRange);
    var count := Count(y, PaddingToken);
    if count > 0 {
      var sp := Spaces(TruncDiv(LineWidth - |y| + |PaddingToken| * count, count));
      assert '\n' !in sp;
      ReplaceKeepsAbsent('\n', y, PaddingToken, sp);
    }
    if StartsWith(line, "//") {
      ReplaceKeepsSlashes(line, YearToken, yearRange);
      if count > 0 {
        var sp := Spaces(TruncDiv(LineWidth - |y| + |PaddingToken| * count, count));
        ReplaceKeepsSlashes(y, PaddingToken, sp);
      }
    }
  }

  lemma RenderedLinesCons(template: seq<string>, yearRange: string)
    requires |template| > 0
    ensures RenderedLines(template, yearRange) ==
      [RenderLine(template[0], yearRange)] + RenderedLines(template[1..], yearRange)
  {
    var a := RenderedLines(template, yearRange);
    var b := [RenderLine(template[0], yearRange)] + RenderedLines(template[1..], yearRange);
    assert |a| == |b|;
    forall k | 0 <= k < |a| ensures a[k] == b[k] {
      if k > 0 {
        assert template[1..][k - 1] == template[k];
      }
    }
  }

  // One rendered line in front of text that splits into lines + more.
  lemma SplitStep(first: string, after: string, sep: string, lines: seq<string>, more: seq<string>)
    requires IsLineSep(sep) && '\n' !in first
    requires Split(after, sep) == lines + more
    ensures Split(first + sep + after, sep) == [first] + lines + more
  {
    SplitCons(first, after, sep);
  }

  // Terminated lines followed by a text split back into those lines and the pieces of
  // that text, when no line holds a '\n'.
  lemma {:induction false} SplitTerminated(ls: seq<string>, sep: string, rest: string)
    requires IsLineSep(sep)
    requires forall k :: 0 <= k < |ls| ==> '\n' !in ls[k]
    ensures Split(Terminated(ls, sep) + rest, sep) == ls + Split(rest, sep)
    decreases |ls|
  {
    if ls == [] {
      assert Terminated(ls, sep) + rest == rest;
    } else {
      var tail := Terminated(ls[1..], sep);
      TerminatedCons(ls, sep);
      assert Terminated(ls, sep) + rest == ls[0] + sep + (tail + rest);
      SplitTerminated(ls[1..], sep, rest);
      SplitStep(ls[0], tail + rest, sep, ls[1..], Split(rest, sep));
      assert ls == [ls[0]] + ls[1..];
    }
  }

  // The header a rewrite produces splits back into exactly the |template| rendered lines,
  // followed by the pieces of what comes after it, when no rendered line holds a '\n'.
  lemma SplitRendered(template: seq<string>, yearRange: string, sep: string, rest: string)
    requires IsLineSep(sep) && '\n' !in yearRange
    requires forall k :: 0 <= k < |template| ==> '\n' !in template[k]
    ensures Split(RenderAll(template, yearRange, sep) + rest, sep) ==
      RenderedLines(template, yearRange) + Split(rest, sep)
  {
    var ls := RenderedLines(template, yearRange);
    forall k | 0 <= k < |ls| ensures '\n' !in ls[k] {
      RenderLineShape(template[k], yearRange);
    }
    SplitTerminated(ls, sep, rest);
  }

  // The template loop of run: output += line + linesep for each rendered line.
  method RenderTemplate(template: seq<string>, yearRange: string, linesep: string) returns (output: string)
    ensures output == RenderAll(template, yearRange, linesep)
  {
    ghost var rendered := RenderedLines(template, yearRange);
    output := "";
    var i := 0;
    while i < |template|
      invariant i <= |template|
      invariant output == Terminated(rendered[..i], linesep)
    {
      var line := ReplaceAll(template[i], YearToken, yearRange);
      ghost var substituted := line;
      var paddingCount := Count(line, PaddingToken);
      if paddingCount > 0 {
        var padding := LineWidth - |line| + |PaddingToken| * paddingCount;
        var paddingWidth := TruncDiv(padding, paddingCount);
        line := ReplaceAll(line, PaddingToken, Spaces(paddingWidth));
      }
      assert line == PadLine(substituted);
      assert line == rendered[i];
      assert rendered[..i + 1][..i] == rendered[..i];
      output := output + line + linesep;
      i := i + 1;
    }
    assert rendered[..i] == rendered;
  }
}
