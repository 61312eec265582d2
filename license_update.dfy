// LicenseUpdate.run: replace the license comment at the top of a source file with
// the rendered license template, or insert the rendered template when the file
// does not open with a license. The template is found with read_license_template;
// the file's line separator and the current year are given by the caller.
module LicenseUpdate {
  import opened Wrappers
  import opened Text
  import opened CommentScan
  import opened CopyrightYear
  import opened TemplateRender
  import opened TemplateSearch

  // The name of the license template file.
  const TemplateName := ".styleguide-license"

  // file_parts: the license header to replace (empty when there is none) and the
  // text that follows the header in the output.
  datatype Parts = Parts(header: string, body: string)

  // What run returns: the new text, whether it differs from the old, and that the
  // change is formatting only; or the error exit when no template is found.
  datatype Outcome =
    | Rewritten(output: string, changed: bool, formattingOnly: bool)
    | TemplateNotFound

  // The split of the file into license header and the rest.
  function SplitParts(text: string, sep: string): Parts
    requires |sep| > 0
  {
    var stripped := Split(Lstrip(text), sep);
    var licenseEnd := Span(stripped);
    if LicenseMarked(stripped, licenseEnd) && licenseEnd > 0 then
      Parts(Join(stripped[..licenseEnd], sep), sep + Lstrip(Join(stripped[licenseEnd..], sep)))
    else
      Parts("", sep + Lstrip(text))
  }

  // The year range written into the template for a file with the given header.
  function RangeFor(header: string, sep: string, currentYear: nat): string
    requires |sep| > 0
  {
    YearRange(FirstYear(Split(header, sep)), NatToString(currentYear))
  }

  // run once the template has been read.
  function Rewrite(text: string, sep: string, template: seq<string>, currentYear: nat): Outcome
    requires |sep| > 0
  {
    var parts := SplitParts(text, sep);
    var output := RenderAll(template, RangeFor(parts.header, sep, currentYear), sep) + parts.body;
    Rewritten(output, text != output, true)
  }

  // run: the template file is looked up from the file's directory upwards; a missing
  // or empty template is an error.
  function RunSpec(fs: FileSystem, name: string, text: string, sep: string, currentYear: nat): Outcome
    requires |sep| > 0
  {
    match SearchDirs(fs, TemplateName, StartDir(name))
    case None => TemplateNotFound
    case Some(template) =>
      if template == [] then TemplateNotFound else Rewrite(text, sep, template, currentYear)
  }

  // The error is reported exactly when no directory on the way up has the template,
  // or the nearest one that has it is empty.
  lemma TemplateNotFoundIff(fs: FileSystem, name: string, text: string, sep: string, currentYear: nat)
    requires |sep| > 0
    ensures var cs := Candidates(StartDir(name));
      var k := FirstWith(fs, TemplateName, cs);
      RunSpec(fs, name, text, sep, currentYear).TemplateNotFound? <==>
        k == |cs| || TemplateIn(fs, TemplateName, cs[k]) == []
  {
    SearchFindsNearest(fs, TemplateName, StartDir(name));
  }

  lemma LstripIdempotent(s: string)
    ensures Lstrip(Lstrip(s)) == Lstrip(s)
  {
  }

  // lstrip does not see a separator in front of a text.
  lemma LstripAfterSep(sep: string, x: string)
    requires IsLineSep(sep)
    ensures Lstrip(sep + x) == Lstrip(x)
  {
    LineSepIsSpace(sep);
    LstripSpacePrefix(sep, x);
  }

  // What follows the first n of the lines ls in their join.
  function RestAfter(ls: seq<string>, n: nat, sep: string): string
    requires n <= |ls|
  {
    if n < |ls| then sep + Join(ls[n..], sep) else ""
  }

  // Cutting the join of ls after n lines: the first n lines, then a rest whose lstrip is
  // that of the remaining lines (the separator between them is whitespace).
  lemma CutAfterLines(ls: seq<string>, n: nat, sep: string)
    requires 0 < n <= |ls|
    requires forall k :: 0 <= k < |sep| ==> IsSpace(sep[k])
    ensures Join(ls, sep) == Join(ls[..n], sep) + RestAfter(ls, n, sep)
    ensures Lstrip(Join(ls[n..], sep)) == Lstrip(RestAfter(ls, n, sep))
  {
    if n < |ls| {
      JoinBeforeRest(ls, n, sep);
      LstripRest(ls, n, sep);
    } else {
      WholeJoin(ls, n, sep);
    }
  }

  lemma JoinBeforeRest(ls: seq<string>, n: nat, sep: string)
    requires 0 < n < |ls|
    ensures Join(ls, sep) == Join(ls[..n], sep) + RestAfter(ls, n, sep)
  {
    JoinAppend(ls, n, sep);
  }

  lemma LstripRest(ls: seq<string>, n: nat, sep: string)
    requires 0 < n < |ls|
    requires forall k :: 0 <= k < |sep| ==> IsSpace(sep[k])
    ensures Lstrip(Join(ls[n..], sep)) == Lstrip(RestAfter(ls, n, sep))
  {
    LstripSpacePrefix(sep, Join(ls[n..], sep));
  }

  lemma WholeJoin(ls: seq<string>, n: nat, sep: string)
    requires n == |ls|
    ensures Join(ls[..n], sep) == Join(ls, sep) && Join(ls[n..], sep) == ""
  {
    assert ls[..n] == ls;
    assert ls[n..] == [];
  }

  // Nothing of the file is lost: the text after its leading whitespace is the header
  // followed by a rest, and the output keeps that rest behind one separator, with its
  // own leading whitespace dropped.
  lemma SplitPartsKeepsText(text: string, sep: string)
    requires IsLineSep(sep)
    ensures var parts := SplitParts(text, sep);
      var s := Lstrip(text);
      && |parts.header| <= |s| && s == parts.header + s[|parts.header|..]
      && parts.body == sep + Lstrip(s[|parts.header|..])
  {
    var s := Lstrip(text);
    var stripped := Split(s, sep);
    var licenseEnd := Span(stripped);
    JoinSplit(s, sep);
    LstripIdempotent(text);
    PartsKeepText(s, sep, stripped, licenseEnd, LicenseMarked(stripped, licenseEnd), SplitParts(text, sep));
  }

  // The same on the pieces of the split: the lines of s, where the scan stopped, and
  // whether the comment holds the marker.
  lemma PartsKeepText(s: string, sep: string, stripped: seq<string>, licenseEnd: nat, isLicense: bool, parts: Parts)
    requires IsLineSep(sep) && Join(stripped, sep) == s && Lstrip(s) == s && licenseEnd <= |stripped|
    requires parts == if isLicense && licenseEnd > 0
      then Parts(Join(stripped[..licenseEnd], sep), sep + Lstrip(Join(stripped[licenseEnd..], sep)))
      else Parts("", sep + s)
    ensures |parts.header| <= |s| && s == parts.header + s[|parts.header|..]
    ensures parts.body == sep + Lstrip(s[|parts.header|..])
  {
    if isLicense && licenseEnd > 0 {
      HeaderCut(s, sep, stripped, licenseEnd);
      assert s[|parts.header|..] == RestAfter(stripped, licenseEnd, sep);
    } else {
      assert s[|parts.header|..] == s;
    }
  }

  // The license branch of the split: the header is the first licenseEnd lines, and the
  // rest is what follows them in the stripped text.
  lemma HeaderCut(s: string, sep: string, stripped: seq<string>, licenseEnd: nat)
    requires IsLineSep(sep) && 0 < licenseEnd <= |stripped| && Join(stripped, sep) == s
    ensures var rest := RestAfter(stripped, licenseEnd, sep);
      s == Join(stripped[..licenseEnd], sep) + rest &&
      sep + Lstrip(Join(stripped[licenseEnd..], sep)) == sep + Lstrip(rest)
  {
    LineSepIsSpace(sep);
    CutAfterLines(stripped, licenseEnd, sep);
  }

  // A header without a year on any line gets the current year alone.
  lemma NoHeaderYearUsesCurrentYear(header: string, sep: string, currentYear: nat)
    requires |sep| > 0
    requires forall k :: 0 <= k < |Split(header, sep)| ==> YearIn(Split(header, sep)[k]).None?
    ensures RangeFor(header, sep, currentYear) == NatToString(currentYear)
  {
    assert FirstYear(Split(header, sep)) == None;
  }

  // Otherwise the year of the first line that carries one starts the range, unless it
  // is the current year already.
  lemma HeaderYearStartsRange(header: string, sep: string, currentYear: nat, k: nat)
    requires |sep| > 0 && FirstYearLine(Split(header, sep), k)
    ensures var year := YearIn(Split(header, sep)[k]).value;
      var current := NatToString(currentYear);
      RangeFor(header, sep, currentYear) == if year == current then current else year + "-" + current
  {
    FirstYearAt(Split(header, sep), k);
  }

  // Line k is the first of lines on which the year regex matches.
  predicate FirstYearLine(lines: seq<string>, k: int) {
    0 <= k < |lines| && YearIn(lines[k]).Some? && forall j :: 0 <= j < k ==> YearIn(lines[j]).None?
  }

  // A file without a license header gets the template with the current year alone,
  // in front of its whole text.
  lemma NewHeaderUsesCurrentYear(text: string, sep: string, template: seq<string>, currentYear: nat)
    requires |sep| > 0
    requires SplitParts(text, sep).header == ""
    ensures Rewrite(text, sep, template, currentYear).output ==
      RenderAll(template, NatToString(currentYear), sep) + SplitParts(text, sep).body
  {
    var parts := SplitParts(text, sep);
    assert Rewrite(text, sep, template, currentYear).output ==
      RenderAll(template, RangeFor(parts.header, sep, currentYear), sep) + parts.body;
    EmptyHeaderRange(sep, currentYear);
  }

  // The empty header is one empty line, which has no year.
  lemma EmptyHeaderRange(sep: string, currentYear: nat)
    requires |sep| > 0
    ensures RangeFor("", sep, currentYear) == NatToString(currentYear)
  {
    assert Split("", sep) == [""];
    NoYearInShortLine("");
    assert YearLineIndex([""]) == 1;
  }

  // ---- Running the task twice changes nothing ----

  // The template of a project: every line is a "//" comment, one line c is
  // "// Copyright (c) <holder> {year}" with a holder of letters, digits, '_' and
  // spaces, and the lines above it have no 'C' and no "{year}".
  predicate StyleTemplate(template: seq<string>, c: nat, holder: string) {
    && c < |template|
    && (forall k :: 0 <= k < |template| ==> StartsWith(template[k], "//") && '\n' !in template[k])
    && template[c] == CopyrightLine(holder, YearToken)
    && |holder| > 0
    && (forall k :: 0 <= k < |holder| ==> IsWordChar(holder[k]) || holder[k] == ' ')
    && (forall k :: 0 <= k < c ==> 'C' !in template[k] && !Contains(template[k], YearToken))
  }

  function CopyrightLine(holder: string, year: string): string {
    "// " + CopyrightPrefix + holder + " " + year
  }

  // A year range as run writes it: a captured year, then "-" and the current year or
  // nothing; reading its first year back gives the same range.
  predicate RangeShape(range: string, current: string) {
    && 4 <= |range| <= 9
    && IsCapturedYear(range[..4])
    && (|range| == 4 || range[4] == '-')
    && '\n' !in range
    && YearRange(Some(range[..4]), current) == range
  }

  lemma RangeForHasShape(header: string, sep: string, currentYear: nat)
    requires |sep| > 0 && 2000 <= currentYear <= 2099
    ensures RangeShape(RangeFor(header, sep, currentYear), NatToString(currentYear))
  {
    var found := FirstYear(Split(header, sep));
    var current := NatToString(currentYear);
    CenturyYear(currentYear);
    FoundYearIsCaptured(Split(header, sep));
    assert RangeFor(header, sep, currentYear) == YearRange(found, current);
    if found.Some? && found.value != current {
      RangeShapeOfPair(found.value, current);
    } else {
      RangeShapeOfCurrent(current);
    }
  }

  lemma RangeShapeOfPair(first: string, current: string)
    requires IsCapturedYear(first) && first != current
    requires |current| == 4 && forall k :: 0 <= k < 4 ==> '0' <= current[k] <= '9'
    ensures RangeShape(first + "-" + current, current)
  {
    var range := first + "-" + current;
    assert range[..4] == first;
    assert range[4] == '-';
    assert '\n' !in range by {
      forall k | 0 <= k < |range| ensures range[k] != '\n' {
        if k >= 5 {
          assert range[k] == current[k - 5];
        }
      }
    }
  }

  lemma RangeShapeOfCurrent(current: string)
    requires |current| == 4 && current[0] == '2' && current[1] == '0'
    requires forall k :: 0 <= k < 4 ==> '0' <= current[k] <= '9'
    ensures RangeShape(current, current)
  {
    assert current[..4] == current;
    assert '\n' !in current by {
      forall k | 0 <= k < |current| ensures current[k] != '\n' {
      }
    }
  }

  // The copyright line renders to itself with the range in place of "{year}".
  lemma RenderCopyrightLine(holder: string, range: string, current: string)
    requires forall k :: 0 <= k < |holder| ==> IsWordChar(holder[k]) || holder[k] == ' '
    requires RangeShape(range, current)
    ensures RenderLine(CopyrightLine(holder, YearToken), range) == CopyrightLine(holder, range)
  {
    var lead := "// " + CopyrightPrefix + holder + " ";
    LeadHasNoBrace(holder);
    ReplaceAtEnd(lead, YearToken, range);
    var line := lead + range;
    assert range[..4][0] == range[0];
    NoPaddingAfterLead(lead, range);
    NoTokenNoPadding(line);
  }

  // The rendered copyright line yields the first year of the range again.
  lemma RenderedCopyrightYear(holder: string, range: string, current: string)
    requires |holder| > 0
    requires forall k :: 0 <= k < |holder| ==> IsWordChar(holder[k]) || holder[k] == ' '
    requires RangeShape(range, current)
    ensures YearIn(CopyrightLine(holder, range)) == Some(range[..4])
  {
    var y := range[..4];
    var tail := range[4..];
    assert range == y + tail;
    assert "// " + CopyrightPrefix + holder + " " + range == "// " + CopyrightPrefix + holder + " " + y + tail;
    assert 'C' !in "// ";
    assert forall k :: 0 <= k < |holder| ==> InHolderClass(holder[k]);
    assert tail == [] || !InHolderClass(tail[0]);
    YearOfShape("// ", holder, y, tail);
  }

  // A line above the copyright line renders without a year.
  lemma RenderEarlyLine(line: string, range: string)
    requires 'C' !in line && !Contains(line, YearToken)
    ensures YearIn(RenderLine(line, range)) == None
  {
    ReplaceAbsent(line, YearToken, range);
    var count := Count(line, PaddingToken);
    if count > 0 {
      var spaces := Spaces(TruncDiv(LineWidth - |line| + |PaddingToken| * count, count));
      assert 'C' !in spaces;
      ReplaceKeepsAbsent('C', line, PaddingToken, spaces);
    }
    NoYearWithoutC(RenderLine(line, range));
  }

  // The facts about the rendered lines that a second run relies on.
  lemma RenderedLinesShape(template: seq<string>, c: nat, holder: string, range: string, current: string)
    requires StyleTemplate(template, c, holder) && RangeShape(range, current)
    ensures var ls := RenderedLines(template, range);
      && (forall k :: 0 <= k < |ls| ==> StartsWith(ls[k], "//") && '\n' !in ls[k])
      && ls[c] == CopyrightLine(holder, range)
      && FirstYear(ls) == Some(range[..4])
  {
    var ls := RenderedLines(template, range);
    forall k | 0 <= k < |ls| ensures StartsWith(ls[k], "//") && '\n' !in ls[k] {
      RenderLineShape(template[k], range);
    }
    RenderCopyrightLine(holder, range, current);
    RenderedCopyrightYear(holder, range, current);
    forall k | 0 <= k < c ensures YearIn(ls[k]).None? {
      RenderEarlyLine(template[k], range);
    }
    FirstYearAt(ls, c);
  }

  // The lines of the output of a run: the rendered lines, the empty line that the
  // separator in front of the body leaves, and the lines of the body.
  lemma OutputLines(template: seq<string>, range: string, sep: string, rest: string)
    requires IsLineSep(sep) && '\n' !in range
    requires forall k :: 0 <= k < |template| ==> '\n' !in template[k]
    ensures Split(RenderAll(template, range, sep) + (sep + rest), sep) ==
      RenderedLines(template, range) + ([""] + Split(rest, sep))
  {
    SplitRendered(template, range, sep, sep + rest);
    SplitLeadingSep(sep, rest);
  }

  // A separator at the front splits off one empty line.
  lemma SplitLeadingSep(sep: string, rest: string)
    requires IsLineSep(sep)
    ensures Split(sep + rest, sep) == [""] + Split(rest, sep)
  {
    assert sep + rest == "" + sep + rest;
    SplitCons("", rest, sep);
  }

  // The copyright line holds the license marker.
  lemma CopyrightLineMarked(holder: string, range: string)
    ensures Contains(CopyrightLine(holder, range), LicenseMarker)
  {
    var line := CopyrightLine(holder, range);
    var after := " " + holder + " " + range;
    assert line == "// " + LicenseMarker + after;
    assert line[3..3 + |LicenseMarker|] == LicenseMarker;
    assert OccursAt(line, LicenseMarker, 3);
  }

  // The text in front of the year on a copyright line has no '{'.
  lemma LeadHasNoBrace(holder: string)
    requires forall k :: 0 <= k < |holder| ==> IsWordChar(holder[k]) || holder[k] == ' '
    ensures '{' !in "// " + CopyrightPrefix + holder + " "
  {
    var lead := "// " + CopyrightPrefix + holder + " ";
    forall k | 0 <= k < |lead| ensures lead[k] != '{' {
      if 3 + |CopyrightPrefix| <= k < 3 + |CopyrightPrefix| + |holder| {
        assert lead[k] == holder[k - 3 - |CopyrightPrefix|];
      }
    }
  }

  // A text without '{' followed by a range no longer than the token, starting with
  // something other than '{', holds no "{padding}".
  lemma NoPaddingAfterLead(lead: string, range: string)
    requires '{' !in lead && 0 < |range| <= |PaddingToken| && range[0] != '{'
    ensures !Contains(lead + range, PaddingToken)
  {
    var line := lead + range;
    forall i: nat | i <= |line| ensures !OccursAt(line, PaddingToken, i) {
      if i + |PaddingToken| <= |line| {
        assert line[i..i + |PaddingToken|][0] == line[i];
        if i < |lead| {
          assert line[i] == lead[i];
        } else {
          assert line[i] == range[0];
        }
      }
    }
  }

  // The scan of a second run stops at the empty line after the rendered lines, and the
  // copyright line among them marks the comment as a license.
  lemma RerunScan(ls: seq<string>, more: seq<string>, c: nat, holder: string, range: string)
    requires c < |ls| && ls[c] == CopyrightLine(holder, range)
    requires forall k :: 0 <= k < |ls| ==> StartsWith(ls[k], "//")
    ensures var stripped := ls + ([""] + more);
      Span(stripped) == |ls| && LicenseMarked(stripped, |ls|)
  {
    var stripped := ls + ([""] + more);
    RerunSpan(ls, more);
    CopyrightLineMarked(holder, range);
    assert stripped[c] == ls[c];
    LicenseMarkedIff(stripped, |ls|);
  }

  lemma RerunSpan(ls: seq<string>, more: seq<string>)
    requires forall k :: 0 <= k < |ls| ==> StartsWith(ls[k], "//")
    ensures Span(ls + ([""] + more)) == |ls|
  {
    var stripped := ls + ([""] + more);
    assert stripped[|ls|] == "";
    assert forall k :: 0 <= k < |ls| ==> stripped[k] == ls[k];
    SpanOfLineComments(stripped, |ls|);
  }

  // The body a second run keeps: the separator and the rest, as before.
  lemma RerunBody(rest: string, sep: string)
    requires IsLineSep(sep) && Lstrip(rest) == rest
    ensures sep + Lstrip(Join([""] + Split(rest, sep), sep)) == sep + rest
  {
    var pieces := Split(rest, sep);
    JoinSplit(rest, sep);
    assert ([""] + pieces)[1..] == pieces;
    assert Join([""] + pieces, sep) == "" + sep + Join(pieces, sep);
    LstripAfterSep(sep, rest);
  }

  // The output of a run starts with the "//" of its first rendered line.
  lemma OutputNeedsNoStrip(template: seq<string>, range: string, sep: string, body: string)
    requires |template| > 0 && StartsWith(RenderLine(template[0], range), "//")
    ensures var output := RenderAll(template, range, sep) + body; Lstrip(output) == output
  {
    var first := RenderLine(template[0], range);
    var output := RenderAll(template, range, sep) + body;
    RenderAllCons(template, range, sep);
    assert output == first + (sep + RenderAll(template[1..], range, sep) + body);
    SlashNotSpace(first, sep + RenderAll(template[1..], range, sep) + body);
  }

  lemma SlashNotSpace(first: string, after: string)
    requires StartsWith(first, "//")
    ensures Lstrip(first + after) == first + after
  {
    assert first[..2] == "//";
    assert (first + after)[0] == '/';
  }

  // The header a second run reads is the rendered template; the body is kept.
  lemma RerunParts(template: seq<string>, c: nat, holder: string, range: string, current: string,
                   sep: string, rest: string)
    requires IsLineSep(sep) && StyleTemplate(template, c, holder) && RangeShape(range, current)
    requires Lstrip(rest) == rest
    ensures SplitParts(RenderAll(template, range, sep) + (sep + rest), sep) ==
      Parts(Join(RenderedLines(template, range), sep), sep + rest)
  {
    var output := RenderAll(template, range, sep) + (sep + rest);
    var ls := RenderedLines(template, range);
    var n := |template|;
    RenderedLinesShape(template, c, holder, range, current);
    OutputNeedsNoStrip(template, range, sep, sep + rest);
    OutputLines(template, range, sep, rest);
    var stripped := ls + ([""] + Split(rest, sep));
    assert Split(Lstrip(output), sep) == stripped;
    RerunScan(ls, Split(rest, sep), c, holder, range);
    assert stripped[..n] == ls;
    assert stripped[n..] == [""] + Split(rest, sep);
    RerunBody(rest, sep);
  }

  // Running the task on its own output finds nothing to change, for a template of the
  // usual shape and a year of this century.
  lemma RewriteIsIdempotent(text: string, sep: string, template: seq<string>, c: nat,
                            holder: string, currentYear: nat)
    requires IsLineSep(sep) && 2000 <= currentYear <= 2099
    requires StyleTemplate(template, c, holder)
    ensures var output := Rewrite(text, sep, template, currentYear).output;
      Rewrite(output, sep, template, currentYear) == Rewritten(output, false, true)
  {
    var parts := SplitParts(text, sep);
    var current := NatToString(currentYear);
    var range := RangeFor(parts.header, sep, currentYear);
    RangeForHasShape(parts.header, sep, currentYear);
    SplitPartsKeepsText(text, sep);
    var cut := Lstrip(text)[|parts.header|..];
    var rest := Lstrip(cut);
    LstripIdempotent(cut);
    var output := RenderAll(template, range, sep) + (sep + rest);
    assert output == Rewrite(text, sep, template, currentYear).output;
    RerunParts(template, c, holder, range, current, sep, rest);
    var ls := RenderedLines(template, range);
    RenderedLinesShape(template, c, holder, range, current);
    SplitJoin(ls, sep);
    assert RangeFor(Join(ls, sep), sep, currentYear) == range;
  }

  // The main loop of run.
  method Run(fs: FileSystem, name: string, lines: string, linesep: string, currentYear: nat)
    returns (r: Outcome)
    requires |linesep| > 0
    ensures r == RunSpec(fs, name, lines, linesep, currentYear)
  {
    var licenseTemplate := ReadLicenseTemplate(fs, TemplateName, name);
    if licenseTemplate.None? || licenseTemplate.value == [] {
      return TemplateNotFound;
    }
    var template := licenseTemplate.value;

    var strippedLines := Split(Lstrip(lines), linesep);
    var licenseEnd, firstCommentIsLicense := ScanLeadingComment(strippedLines);

    var fileParts;
    if firstCommentIsLicense && licenseEnd > 0 {
      fileParts := Parts(Join(strippedLines[..licenseEnd], linesep),
                         linesep + Lstrip(Join(strippedLines[licenseEnd..], linesep)));
    } else {
      fileParts := Parts("", linesep + Lstrip(lines));
    }
    assert fileParts == SplitParts(lines, linesep);

    var year, modifyCopyright := FindYear(fileParts.header, linesep);
    var currentYearText := NatToString(currentYear);
    if modifyCopyright && year != currentYearText {
      currentYearText := year + "-" + currentYearText;
    }
    assert currentYearText == RangeFor(fileParts.header, linesep, currentYear);

    var output := RenderTemplate(template, currentYearText, linesep);
    output := output + fileParts.body;
    assert Rewritten(output, lines != output, true) == Rewrite(lines, linesep, template, currentYear);
    return Rewritten(output, lines != output, true);
  }
}
