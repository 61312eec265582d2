// The copyright-year search of LicenseUpdate.run: year_regex.search on each
// header line, for the regex
//     Copyright \(c\) [\w\s,\.]+\s+(20..)
// written out by hand. re.search tries start positions left to right; at a
// start, the greedy class run backtracks from its longest length, and \s+ must
// then take the whole whitespace run in front of "20" (the '2' that follows is
// not whitespace), so the group it reports is the RIGHTMOST "20??" that the
// class run can reach and that follows whitespace.
module CopyrightYear {
  import opened Wrappers
  import opened Text

  const CopyrightPrefix := "Copyright (c) "

  // \w: letters, digits and the underscore.
  predicate IsWordChar(c: char) {
    ('a' <= c <= 'z') || ('A' <= c <= 'Z') || ('0' <= c <= '9') || c == '_'
  }

  // The class [\w\s,\.] of the copyright holder's text.
  predicate InHolderClass(c: char) {
    IsWordChar(c) || IsSpace(c) || c == ',' || c == '.'
  }

  // The regex matches from start i with group 1 at q: "Copyright (c) " at i, then
  // holder-class characters up to q (at least one for the class run, and a last one,
  // at q - 1, that is whitespace for \s+), then "20" and two characters other than
  // '\n' (what `.` matches).
  predicate CaptureAt(line: string, i: nat, q: nat) {
    && OccursAt(line, CopyrightPrefix, i)
    && i + |CopyrightPrefix| + 2 <= q
    && q + 4 <= |line|
    && (forall k :: i + |CopyrightPrefix| <= k < q ==> InHolderClass(line[k]))
    && IsSpace(line[q - 1])
    && line[q] == '2' && line[q + 1] == '0'
    && line[q + 2] != '\n' && line[q + 3] != '\n'
  }

  // The largest capture position at most upTo for start i.
  function LastCapture(line: string, i: nat, upTo: nat): (r: Option<nat>)
    ensures r.Some? ==> r.value <= upTo && CaptureAt(line, i, r.value)
    ensures r.Some? ==> forall q: nat :: r.value < q <= upTo ==> !CaptureAt(line, i, q)
    ensures r.None? ==> forall q: nat :: q <= upTo ==> !CaptureAt(line, i, q)
    decreases upTo
  {
    if CaptureAt(line, i, upTo) then Some(upTo)
    else if upTo == 0 then None
    else LastCapture(line, i, upTo - 1)
  }

  // re.search from index `from` on: the first start at which the regex matches,
  // with the group position the backtracking settles on.
  function SearchFrom(line: string, from: nat): (r: Option<(nat, nat)>)
    ensures r.Some? ==> from <= r.value.0 && CaptureAt(line, r.value.0, r.value.1)
    ensures r.Some? ==> forall i: nat, q: nat :: from <= i < r.value.0 ==> !CaptureAt(line, i, q)
    ensures r.Some? ==> forall q: nat :: r.value.1 < q ==> !CaptureAt(line, r.value.0, q)
    ensures r.None? ==> forall i: nat, q: nat :: from <= i ==> !CaptureAt(line, i, q)
    decreases |line| - from
  {
    if from >= |line| then None
    else match LastCapture(line, from, |line|)
      case Some(q) => Some((from, q))
      case None => SearchFrom(line, from + 1)
  }

  // match.group(1) when year_regex.search(line) matches.
  function YearIn(line: string): (r: Option<string>)
    ensures r.Some? <==> exists i: nat, q: nat :: CaptureAt(line, i, q)
    ensures r.Some? ==> |r.value| == 4 && r.value[0] == '2' && r.value[1] == '0' && '\n' !in r.value
  {
    match SearchFrom(line, 0)
    case Some((i, q)) =>
      var y := line[q..q + 4];
      assert y == [line[q], line[q + 1], line[q + 2], line[q + 3]];
      Some(y)
    case None => None
  }

  // The reported year is the one at the leftmost start, and there the rightmost capture.
  lemma YearInIsLeftmostRightmost(line: string, i: nat, q: nat)
    requires CaptureAt(line, i, q)
    requires forall i': nat, q': nat :: i' < i ==> !CaptureAt(line, i', q')
    requires forall q': nat :: q < q' ==> !CaptureAt(line, i, q')
    ensures YearIn(line) == Some(line[q..q + 4])
  {
    var r := SearchFrom(line, 0);
    assert r.Some?;
    var (i0, q0) := r.value;
    assert i0 == i;
    assert q0 == q;
  }

  // A four-character group as the regex captures it: "20" and two characters other than '\n'.
  predicate IsCapturedYear(y: string) {
    |y| == 4 && y[0] == '2' && y[1] == '0' && y[2] != '\n' && y[3] != '\n'
  }

  // The lines the license template renders to have the shape
  //     lead + "Copyright (c) " + holder + " " + y + tail
  // with no 'C' in lead, a non-empty holder of class characters, y a captured year,
  // and a tail that is empty or starts outside the class (the "-" of a range).
  predicate CopyrightShape(lead: string, holder: string, y: string, tail: string) {
    && 'C' !in lead
    && |holder| > 0 && (forall k :: 0 <= k < |holder| ==> InHolderClass(holder[k]))
    && IsCapturedYear(y)
    && (tail == [] || !InHolderClass(tail[0]))
  }

  lemma ShapeCaptures(lead: string, holder: string, y: string, tail: string)
    requires CopyrightShape(lead, holder, y, tail)
    ensures var line := lead + CopyrightPrefix + holder + " " + y + tail;
      CaptureAt(line, |lead|, |lead| + |CopyrightPrefix| + |holder| + 1)
  {
    var line := lead + CopyrightPrefix + holder + " " + y + tail;
    var j := |lead| + |CopyrightPrefix|;
    var p := j + |holder| + 1;
    assert line[|lead|..j] == CopyrightPrefix;
    forall k | j <= k < p ensures InHolderClass(line[k]) {
      if k < p - 1 {
        assert line[k] == holder[k - j];
      } else {
        assert line[k] == ' ';
      }
    }
    assert line[p - 1] == ' ';
    assert line[p..p + 4] == y;
  }

  lemma ShapeNoEarlierStart(lead: string, holder: string, y: string, tail: string)
    requires CopyrightShape(lead, holder, y, tail)
    ensures var line := lead + CopyrightPrefix + holder + " " + y + tail;
      forall i: nat, q: nat :: i < |lead| ==> !CaptureAt(line, i, q)
  {
    var line := lead + CopyrightPrefix + holder + " " + y + tail;
    forall i: nat, q: nat | i < |lead| ensures !CaptureAt(line, i, q) {
      assert line[i] == lead[i];
      assert lead[i] in lead;
      if i + |CopyrightPrefix| <= |line| {
        assert line[i..i + |CopyrightPrefix|][0] == line[i];
      }
    }
  }

  lemma ShapeNoLaterCapture(lead: string, holder: string, y: string, tail: string)
    requires CopyrightShape(lead, holder, y, tail)
    ensures var line := lead + CopyrightPrefix + holder + " " + y + tail;
      forall q: nat :: |lead| + |CopyrightPrefix| + |holder| + 1 < q ==> !CaptureAt(line, |lead|, q)
  {
    var line := lead + CopyrightPrefix + holder + " " + y + tail;
    var p := |lead| + |CopyrightPrefix| + |holder| + 1;
    assert line[p..p + 4] == y;
    assert tail != [] ==> line[p + 4] == tail[0];
    forall q: nat | p < q ensures !CaptureAt(line, |lead|, q) {
      if q == p + 1 {
        assert line[q - 1] == y[0];
      } else if q == p + 2 {
        assert line[q - 1] == y[1];
      } else if q == p + 3 {
        assert tail != [] ==> line[q + 1] != '0';
      } else if q == p + 4 {
        assert tail != [] ==> line[q] != '2';
      } else if q + 4 <= |line| {
        assert !InHolderClass(line[p + 4]);
      }
    }
  }

  // On such a line the regex reports y: the rightmost "20??" the class run reaches.
  lemma YearOfShape(lead: string, holder: string, y: string, tail: string)
    requires CopyrightShape(lead, holder, y, tail)
    ensures YearIn(lead + CopyrightPrefix + holder + " " + y + tail) == Some(y)
  {
    var line := lead + CopyrightPrefix + holder + " " + y + tail;
    var p := |lead| + |CopyrightPrefix| + |holder| + 1;
    ShapeCaptures(lead, holder, y, tail);
    ShapeNoEarlierStart(lead, holder, y, tail);
    ShapeNoLaterCapture(lead, holder, y, tail);
    YearInIsLeftmostRightmost(line, |lead|, p);
    assert line[p..p + 4] == y;
  }

  // A range such as "2008-2019" yields its first year: '-' ends the class run.
  lemma RangeYieldsFirstYear(holder: string, first: string, last: string)
    requires |holder| > 0 && forall k :: 0 <= k < |holder| ==> InHolderClass(holder[k])
    requires IsCapturedYear(first)
    ensures YearIn("// " + CopyrightPrefix + holder + " " + first + ("-" + last)) == Some(first)
  {
    YearOfShape("// ", holder, first, "-" + last);
  }

  // A line without room for "Copyright (c) " has no year: in particular the empty header.
  lemma NoYearInShortLine(line: string)
    requires |line| < |CopyrightPrefix|
    ensures YearIn(line) == None
  {
  }

  // The index of the first line on which the regex matches, or |lines| if none.
  function YearLineIndex(lines: seq<string>): (k: nat)
    ensures k <= |lines|
    ensures forall j :: 0 <= j < k ==> YearIn(lines[j]).None?
    ensures k < |lines| ==> YearIn(lines[k]).Some?
  {
    if lines == [] then 0
    else if YearIn(lines[0]).Some? then 0
    else 1 + YearLineIndex(lines[1..])
  }

  // The year of the first header line that matches the regex, as the search loop finds it.
  function FirstYear(lines: seq<string>): (r: Option<string>)
    ensures r.None? <==> forall k :: 0 <= k < |lines| ==> YearIn(lines[k]).None?
    ensures r.Some? ==> YearLineIndex(lines) < |lines| && r == YearIn(lines[YearLineIndex(lines)])
  {
    var k := YearLineIndex(lines);
    if k < |lines| then YearIn(lines[k]) else None
  }

  // A line without a 'C' holds no "Copyright (c) ", hence no year.
  lemma NoYearWithoutC(line: string)
    requires 'C' !in line
    ensures YearIn(line) == None
  {
    forall i: nat, q: nat ensures !CaptureAt(line, i, q) {
      if i + |CopyrightPrefix| <= |line| {
        assert line[i] in line;
        assert line[i..i + |CopyrightPrefix|][0] == line[i];
      }
    }
  }

  // The search stops at line c when the lines before it have no year and it has one.
  lemma FirstYearAt(lines: seq<string>, c: nat)
    requires c < |lines| && YearIn(lines[c]).Some?
    requires forall k :: 0 <= k < c ==> YearIn(lines[k]).None?
    ensures FirstYear(lines) == YearIn(lines[c])
  {
    var k := YearLineIndex(lines);
    assert !(k < c);
    assert !(c < k);
  }

  // The year the search reports is a group the regex captured.
  lemma FoundYearIsCaptured(lines: seq<string>)
    ensures FirstYear(lines).Some? ==> IsCapturedYear(FirstYear(lines).value)
  {
    if FirstYear(lines).Some? {
      var y := FirstYear(lines).value;
      assert y[2] in y && y[3] in y;
    }
  }

  // The year-search loop of run over the header's lines: stops at the first match.
  method FindYear(header: string, linesep: string) returns (year: string, modifyCopyright: bool)
    requires |linesep| > 0
    ensures modifyCopyright == FirstYear(Split(header, linesep)).Some?
    ensures modifyCopyright ==> year == FirstYear(Split(header, linesep)).value
    ensures !modifyCopyright ==> year == ""
  {
    var lines := Split(header, linesep);
    year := "";
    modifyCopyright := false;
    var i := 0;
    while i < |lines|
      invariant i <= YearLineIndex(lines)
      invariant year == "" && !modifyCopyright
    {
      var found := YearIn(lines[i]);
      if found.Some? {
        assert i == YearLineIndex(lines);
        year := found.value;
        modifyCopyright := true;
        break;
      }
      i := i + 1;
    }
    assert modifyCopyright || YearLineIndex(lines) == |lines|;
  }

  // The range written into the template: "first-current" when an earlier year was
  // found, otherwise the current year alone.
  function YearRange(found: Option<string>, current: string): string {
    if found.Some? && found.value != current then found.value + "-" + current else current
  }
}
