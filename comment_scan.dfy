// The comment-boundary scanner of LicenseUpdate.run: a two-state machine
// (inside a multiline comment or not) driven by the matches of the regex
// (^/\*|\*/|^//) on each line of the left-stripped text. The scan stops at the
// first line that has no match and is not inside an open "/*"; the lines
// before it form the leading comment.
module CommentScan {
  import opened Text

  datatype Kind = Open | Close | LineComment

  // One match of the comment-boundary regex: which token, and where it starts.
  datatype Token = Token(kind: Kind, pos: nat)

  function TokenText(k: Kind): string {
    match k
    case Open => "/*"
    case Close => "*/"
    case LineComment => "//"
  }

  // The text that marks a leading comment as a license.
  const LicenseMarker := "Copyright (c)"

  // The "*/" matches that re.finditer produces from index i on.
  function ClosesFrom(line: string, i: nat): seq<Token>
    decreases |line| - i
  {
    if i + 2 > |line| then []
    else if OccursAt(line, "*/", i) then [Token(Close, i)] + ClosesFrom(line, i + 2)
    else ClosesFrom(line, i + 1)
  }

  // Those matches are "*/" occurrences from index i on, in increasing order, that do
  // not overlap.
  lemma {:induction false} ClosesFromShape(line: string, i: nat)
    ensures forall k :: 0 <= k < |ClosesFrom(line, i)| ==>
      ClosesFrom(line, i)[k].kind == Close && i <= ClosesFrom(line, i)[k].pos &&
      OccursAt(line, "*/", ClosesFrom(line, i)[k].pos)
    ensures forall k :: 0 < k < |ClosesFrom(line, i)| ==>
      ClosesFrom(line, i)[k - 1].pos + 2 <= ClosesFrom(line, i)[k].pos
    decreases |line| - i
  {
    if i + 2 <= |line| {
      if OccursAt(line, "*/", i) {
        ClosesFromShape(line, i + 2);
        var rest := ClosesFrom(line, i + 2);
        var ts := ClosesFrom(line, i);
        assert ts == [Token(Close, i)] + rest;
        assert forall k :: 0 < k < |ts| ==> ts[k] == rest[k - 1];
      } else {
        ClosesFromShape(line, i + 1);
        assert ClosesFrom(line, i) == ClosesFrom(line, i + 1);
      }
    }
  }

  // Every "*/" from index i on is one of the matches: two of them cannot overlap.
  lemma {:induction false} ClosesFromComplete(line: string, i: nat, p: nat)
    requires i <= p && OccursAt(line, "*/", p)
    ensures Token(Close, p) in ClosesFrom(line, i)
    decreases |line| - i
  {
    if p == i {
    } else if OccursAt(line, "*/", i) {
      assert p != i + 1 by {
        assert line[i..i + 2][1] == '/';
        assert line[p..p + 2][0] == '*';
      }
      ClosesFromComplete(line, i + 2, p);
    } else {
      ClosesFromComplete(line, i + 1, p);
    }
  }

  // The matches of re.finditer("(^/\*|\*/|^//)", line), left to right. Without
  // MULTILINE, ^ matches only at index 0, so "/*" and "//" are found only there;
  // matching resumes after the two characters a match takes.
  function Tokens(line: string): seq<Token> {
    if StartsWith(line, "/*") then [Token(Open, 0)] + ClosesFrom(line, 2)
    else if StartsWith(line, "//") then [Token(LineComment, 0)] + ClosesFrom(line, 2)
    else ClosesFrom(line, 0)
  }

  // Every match occurs in the line at its position; only the first can be "/*" or "//",
  // and only at index 0; the later ones are "*/" and do not overlap.
  lemma TokensShape(line: string)
    ensures forall k :: 0 <= k < |Tokens(line)| ==>
      OccursAt(line, TokenText(Tokens(line)[k].kind), Tokens(line)[k].pos)
    ensures forall k :: 0 < k < |Tokens(line)| ==>
      Tokens(line)[k].kind == Close && Tokens(line)[k - 1].pos + 2 <= Tokens(line)[k].pos
    ensures forall k :: 0 <= k < |Tokens(line)| && Tokens(line)[k].kind != Close ==>
      k == 0 && Tokens(line)[k].pos == 0
    // a leading "/*" or "//" is the first match ("/*/" yields only "/*")
    ensures StartsWith(line, "/*") ==> |Tokens(line)| > 0 && Tokens(line)[0] == Token(Open, 0)
    ensures StartsWith(line, "//") ==> |Tokens(line)| > 0 && Tokens(line)[0] == Token(LineComment, 0)
  {
    if StartsWith(line, "/*") || StartsWith(line, "//") {
      var ts := Tokens(line);
      ClosesFromShape(line, 2);
      assert ts == [ts[0]] + ClosesFrom(line, 2);
      LedShape(line, ts[0], ClosesFrom(line, 2));
    } else {
      ClosesFromShape(line, 0);
    }
  }

  // A leading "/*" or "//" match followed by non-overlapping "*/" matches after it.
  lemma LedShape(line: string, first: Token, rest: seq<Token>)
    requires first.pos == 0 && first.kind != Close && OccursAt(line, TokenText(first.kind), 0)
    requires forall k :: 0 <= k < |rest| ==>
      rest[k].kind == Close && 2 <= rest[k].pos && OccursAt(line, "*/", rest[k].pos)
    requires forall k :: 0 < k < |rest| ==> rest[k - 1].pos + 2 <= rest[k].pos
    ensures var ts := [first] + rest;
      && (forall k :: 0 <= k < |ts| ==> OccursAt(line, TokenText(ts[k].kind), ts[k].pos))
      && (forall k :: 0 < k < |ts| ==> ts[k].kind == Close && ts[k - 1].pos + 2 <= ts[k].pos)
      && (forall k :: 0 <= k < |ts| && ts[k].kind != Close ==> k == 0 && ts[k].pos == 0)
  {
    var ts := [first] + rest;
    assert forall k :: 0 < k < |ts| ==> ts[k] == rest[k - 1];
  }

  // In "/*/" only the "/*" is matched, so the line opens a multiline comment.
  lemma OpenOverlapsClose()
    ensures Tokens("/*/") == [Token(Open, 0)]
    ensures AfterLine(false, "/*/")
  {
    assert StartsWith("/*/", "/*");
    assert ClosesFrom("/*/", 2) == [];
    assert AfterTokens(false, [Token(Open, 0)]) == Step(AfterTokens(false, []), Token(Open, 0));
  }

  // Every "*/" of the line is matched, except the one that overlaps a leading "/*"
  // (in "/*/" only "/*" is matched).
  lemma TokensComplete(line: string, p: nat)
    requires OccursAt(line, "*/", p) && !(p == 1 && StartsWith(line, "/*"))
    ensures Token(Close, p) in Tokens(line)
  {
    assert line[p..p + 2][0] == '*';
    if StartsWith(line, "/*") || StartsWith(line, "//") {
      assert line[0..2][0] == '/';
      if StartsWith(line, "//") {
        assert line[0..2][1] == '/';
      }
      assert p >= 2;
      ClosesFromComplete(line, 2, p);
    } else {
      ClosesFromComplete(line, 0, p);
    }
  }

  // A line has a match exactly when it opens with "/*" or "//" or holds a "*/".
  lemma HasCommentIff(line: string)
    ensures |Tokens(line)| > 0 <==>
      StartsWith(line, "/*") || StartsWith(line, "//") || Contains(line, "*/")
  {
    var ts := Tokens(line);
    TokensShape(line);
    if Contains(line, "*/") && !StartsWith(line, "/*") {
      var p: nat :| p <= |line| && OccursAt(line, "*/", p);
      TokensComplete(line, p);
    }
    if |ts| > 0 && !StartsWith(line, "/*") && !StartsWith(line, "//") {
      assert ts[0].kind == Close;
      assert OccursAt(line, "*/", ts[0].pos);
    }
  }

  // A line belongs to the comment by itself when it has a match.
  predicate HasComment(line: string) {
    |Tokens(line)| > 0
  }

  // The multiline flag after one match.
  function Step(inComment: bool, t: Token): bool {
    match t.kind
    case Open => true
    case Close => false
    case LineComment => inComment
  }

  // The multiline flag after the matches ts, taken left to right.
  function AfterTokens(inComment: bool, ts: seq<Token>): bool
    decreases |ts|
  {
    if ts == [] then inComment else Step(AfterTokens(inComment, ts[..|ts| - 1]), ts[|ts| - 1])
  }

  function AfterLine(inComment: bool, line: string): bool {
    AfterTokens(inComment, Tokens(line))
  }

  // After a line the flag is that of its last match: on after "/*", off after "*/";
  // it is unchanged when the line has no match or only a leading "//".
  lemma AfterLineIsLastMatch(inComment: bool, line: string)
    ensures var ts := Tokens(line);
      AfterLine(inComment, line) ==
        if ts == [] then inComment
        else match ts[|ts| - 1].kind
          case Open => true
          case Close => false
          case LineComment => inComment
  {
    var ts := Tokens(line);
    TokensShape(line);
    if ts != [] {
      assert AfterLine(inComment, line) == Step(AfterTokens(inComment, ts[..|ts| - 1]), ts[|ts| - 1]);
      if ts[|ts| - 1].kind == LineComment {
        assert |ts| == 1;
        assert ts[..|ts| - 1] == [];
        assert AfterTokens(inComment, ts[..|ts| - 1]) == inComment;
      }
    }
  }

  // A line opening with "//" never turns the flag on.
  lemma LineCommentKeepsFlagOff(line: string)
    requires StartsWith(line, "//")
    ensures HasComment(line) && !AfterLine(false, line)
  {
    var ts := Tokens(line);
    TokensShape(line);
    AfterLineIsLastMatch(false, line);
    assert ts[0].kind == LineComment by {
      assert line[0..2][1] != "/*"[1];
    }
    assert ts[|ts| - 1].kind != Open;
  }

  // The multiline flag after the first n lines, the scan starting outside any comment.
  function FlagAfter(lines: seq<string>, n: nat): bool
    requires n <= |lines|
  {
    if n == 0 then false else AfterLine(FlagAfter(lines, n - 1), lines[n - 1])
  }

  // Line k stops the scan: it has no match and leaves the flag off.
  predicate EndsScan(lines: seq<string>, k: nat)
    requires k < |lines|
  {
    !HasComment(lines[k]) && !FlagAfter(lines, k + 1)
  }

  // The first line at or after i that stops the scan, or |lines| if none does.
  function SpanFrom(lines: seq<string>, i: nat): (n: nat)
    requires i <= |lines|
    ensures i <= n <= |lines|
    ensures forall k :: i <= k < n ==> !EndsScan(lines, k)
    ensures n < |lines| ==> EndsScan(lines, n)
    decreases |lines| - i
  {
    if i == |lines| || EndsScan(lines, i) then i else SpanFrom(lines, i + 1)
  }

  // license_end: the number of leading lines that form the first comment.
  function Span(lines: seq<string>): (n: nat)
    ensures n <= |lines|
    ensures forall k :: 0 <= k < n ==> !EndsScan(lines, k)
    ensures n < |lines| ==> EndsScan(lines, n)
  {
    SpanFrom(lines, 0)
  }

  // first_comment_is_license: "Copyright (c)" occurs in one of the lines scanned,
  // the line that stopped the scan included.
  predicate LicenseMarked(lines: seq<string>, licenseEnd: nat) {
    MarkedBefore(lines, if licenseEnd < |lines| then licenseEnd + 1 else |lines|)
  }

  // Some of the first n lines holds the marker.
  predicate MarkedBefore(lines: seq<string>, n: nat)
    requires n <= |lines|
  {
    n > 0 && (MarkedBefore(lines, n - 1) || Contains(lines[n - 1], LicenseMarker))
  }

  lemma {:induction false} MarkedBeforeIff(lines: seq<string>, n: nat)
    requires n <= |lines|
    ensures MarkedBefore(lines, n) <==> exists k :: 0 <= k < n && Contains(lines[k], LicenseMarker)
  {
    if n > 0 {
      MarkedBeforeIff(lines, n - 1);
    }
  }

  // The license test reads the lines up to and including the one that stopped the scan.
  lemma LicenseMarkedIff(lines: seq<string>, licenseEnd: nat)
    ensures LicenseMarked(lines, licenseEnd) <==>
      exists k :: 0 <= k < |lines| && k <= licenseEnd && Contains(lines[k], LicenseMarker)
  {
    MarkedBeforeIff(lines, if licenseEnd < |lines| then licenseEnd + 1 else |lines|);
  }

  // A run of "//" lines keeps the multiline flag off.
  lemma {:induction false} FlagOffThroughLineComments(lines: seq<string>, n: nat)
    requires n <= |lines|
    requires forall k :: 0 <= k < n ==> StartsWith(lines[k], "//")
    ensures !FlagAfter(lines, n)
  {
    if n > 0 {
      FlagOffThroughLineComments(lines, n - 1);
      var line := lines[n - 1];
      assert StartsWith(line, "//");
      LineCommentKeepsFlagOff(line);
      assert FlagAfter(lines, n) == AfterLine(false, line);
    }
  }

  // Leading "//" lines followed by an empty line: the comment is exactly those lines.
  lemma SpanOfLineComments(lines: seq<string>, n: nat)
    requires n < |lines| && lines[n] == ""
    requires forall k :: 0 <= k < n ==> StartsWith(lines[k], "//")
    ensures Span(lines) == n
  {
    forall k | 0 <= k < n ensures !EndsScan(lines, k) {
      LineCommentKeepsFlagOff(lines[k]);
    }
    FlagOffThroughLineComments(lines, n);
    assert Tokens(lines[n]) == [];
    assert EndsScan(lines, n);
  }

  // A line without "*/" leaves the flag on when it was on before the line or when
  // the line opens with "/*".
  lemma NoCloseFlagOn(inComment: bool, line: string)
    requires !Contains(line, "*/")
    requires inComment || StartsWith(line, "/*")
    ensures AfterLine(inComment, line)
  {
    var ts := Tokens(line);
    TokensShape(line);
    AfterLineIsLastMatch(inComment, line);
    if ts != [] {
      var last := ts[|ts| - 1];
      assert OccursAt(line, TokenText(last.kind), last.pos);
      assert last.kind != Close;
      assert |ts| == 1;
      if last.kind == LineComment && !inComment {
        assert ts[0] == Token(Open, 0);
      }
    }
  }

  // A "/*" line without "*/" and n - 1 more lines without "*/": the flag is on
  // after each of them.
  lemma {:induction false} FlagOnInside(lines: seq<string>, n: nat)
    requires 0 < n <= |lines|
    requires StartsWith(lines[0], "/*")
    requires forall k :: 0 <= k < n ==> !Contains(lines[k], "*/")
    ensures FlagAfter(lines, n)
  {
    if n == 1 {
      NoCloseFlagOn(false, lines[0]);
    } else {
      FlagOnInside(lines, n - 1);
      NoCloseFlagOn(FlagAfter(lines, n - 1), lines[n - 1]);
    }
  }

  // A line holding "*/" that does not open with "/*" has a match, and its last
  // match is a "*/", which turns the flag off.
  lemma CloseLine(inComment: bool, line: string)
    requires Contains(line, "*/") && !StartsWith(line, "/*")
    ensures HasComment(line) && !AfterLine(inComment, line)
  {
    var ts := Tokens(line);
    HasCommentIff(line);
    TokensShape(line);
    AfterLineIsLastMatch(inComment, line);
    var p: nat :| p <= |line| && OccursAt(line, "*/", p);
    TokensComplete(line, p);
    assert ts[|ts| - 1].kind == Close;
  }

  // A "/*" line, lines without "*/", a line that closes the comment, then an empty
  // line: the comment is the whole block, every line inside it included, whatever
  // those lines hold.
  lemma SpanOfBlockComment(lines: seq<string>, m: nat)
    requires 0 < m && m + 1 < |lines|
    requires StartsWith(lines[0], "/*")
    requires forall k :: 0 <= k < m ==> !Contains(lines[k], "*/")
    requires Contains(lines[m], "*/") && !StartsWith(lines[m], "/*")
    requires lines[m + 1] == ""
    ensures Span(lines) == m + 1
  {
    forall k | 0 <= k < m ensures !EndsScan(lines, k) {
      FlagOnInside(lines, k + 1);
    }
    FlagOnInside(lines, m);
    CloseLine(FlagAfter(lines, m), lines[m]);
    assert FlagAfter(lines, m + 1) == AfterLine(FlagAfter(lines, m), lines[m]);
    ClosedBlockEnds(lines, m);
  }

  // The lines before m + 1 do not stop the scan, line m closed the comment and line
  // m + 1 is empty: the scan stops at line m + 1.
  lemma ClosedBlockEnds(lines: seq<string>, m: nat)
    requires m + 1 < |lines|
    requires forall k :: 0 <= k < m ==> !EndsScan(lines, k)
    requires HasComment(lines[m]) && !FlagAfter(lines, m + 1)
    requires lines[m + 1] == ""
    ensures Span(lines) == m + 1
  {
    EmptyLine(FlagAfter(lines, m + 1));
    assert FlagAfter(lines, m + 2) == AfterLine(FlagAfter(lines, m + 1), lines[m + 1]);
    forall k | 0 <= k < m + 1 ensures !EndsScan(lines, k) {
      if k == m {
        assert HasComment(lines[k]);
      }
    }
    SpanAt(lines, m + 1);
  }

  // An empty line has no match and leaves the flag as it was.
  lemma EmptyLine(inComment: bool)
    ensures !HasComment("") && AfterLine(inComment, "") == inComment
  {
    assert Tokens("") == [];
  }

  // The first line that stops the scan is where the comment ends.
  lemma SpanAt(lines: seq<string>, n: nat)
    requires n < |lines|
    requires forall k :: 0 <= k < n ==> !EndsScan(lines, k)
    requires !HasComment(lines[n]) && !FlagAfter(lines, n + 1)
    ensures Span(lines) == n
  {
    assert EndsScan(lines, n);
  }

  // Taking one more match updates the flag by that match.
  lemma AfterOneMore(inComment: bool, ts: seq<Token>, j: nat)
    requires j < |ts|
    ensures AfterTokens(inComment, ts[..j + 1]) == Step(AfterTokens(inComment, ts[..j]), ts[j])
  {
    assert ts[..j + 1][..j] == ts[..j];
  }

  // The inner loop of the scan over the matches of one line: whether the line has a
  // match, and the multiline flag after it.
  method ScanLine(inComment: bool, line: string) returns (lineHasComment: bool, inMultilineComment: bool)
    ensures lineHasComment == HasComment(line)
    ensures inMultilineComment == AfterLine(inComment, line)
  {
    inMultilineComment := inComment;
    lineHasComment := false;
    var matches := Tokens(line);
    var j := 0;
    while j < |matches|
      invariant j <= |matches|
      invariant lineHasComment == (j > 0)
      invariant inMultilineComment == AfterTokens(inComment, matches[..j])
    {
      AfterOneMore(inComment, matches, j);
      lineHasComment := true;
      var token := matches[j].kind;
      if token == Open {
        inMultilineComment := true;
      } else if token == Close {
        inMultilineComment := false;
      }
      j := j + 1;
    }
    assert matches[..j] == matches;
  }

  // What one more line of the scan changes.
  lemma ScanStep(lines: seq<string>, i: nat)
    requires i < |lines|
    ensures FlagAfter(lines, i + 1) == AfterLine(FlagAfter(lines, i), lines[i])
    ensures MarkedBefore(lines, i + 1) == (MarkedBefore(lines, i) || Contains(lines[i], LicenseMarker))
    ensures EndsScan(lines, i) <==> !HasComment(lines[i]) && !FlagAfter(lines, i + 1)
    ensures EndsScan(lines, i) ==> SpanFrom(lines, i) == i
    ensures !EndsScan(lines, i) ==> SpanFrom(lines, i) == SpanFrom(lines, i + 1)
  {
  }

  // The scanning loop of run: licenseEnd counts the leading comment lines and
  // isLicense tells whether the marker was seen before the scan stopped.
  method ScanLeadingComment(stripped: seq<string>) returns (licenseEnd: nat, isLicense: bool)
    ensures licenseEnd == Span(stripped)
    ensures isLicense == LicenseMarked(stripped, licenseEnd)
  {
    isLicense := false;
    licenseEnd := 0;
    var inMultilineComment := false;
    var i := 0;
    while i < |stripped|
      invariant i <= |stripped| && licenseEnd == i
      invariant inMultilineComment == FlagAfter(stripped, i)
      invariant SpanFrom(stripped, i) == Span(stripped)
      invariant isLicense == MarkedBefore(stripped, i)
    {
      var line := stripped[i];
      var wasLicense := isLicense;
      var wasInComment := inMultilineComment;
      if Contains(line, LicenseMarker) {
        isLicense := true;
      }
      var lineHasComment;
      lineHasComment, inMultilineComment := ScanLine(inMultilineComment, line);
      ScanStepValues(stripped, i, wasInComment, wasLicense, lineHasComment, inMultilineComment, isLicense);
      if !inMultilineComment && !lineHasComment {
        break;
      }
      licenseEnd := licenseEnd + 1;
      i := i + 1;
    }
  }

  // One pass of the scanning loop, on the values it keeps.
  lemma ScanStepValues(lines: seq<string>, i: nat, flag: bool, marked: bool,
                       hasComment: bool, newFlag: bool, newMarked: bool)
    requires i < |lines| && flag == FlagAfter(lines, i) && marked == MarkedBefore(lines, i)
    requires hasComment == HasComment(lines[i]) && newFlag == AfterLine(flag, lines[i])
    requires newMarked == (marked || Contains(lines[i], LicenseMarker))
    ensures newFlag == FlagAfter(lines, i + 1) && newMarked == MarkedBefore(lines, i + 1)
    ensures !newFlag && !hasComment ==> SpanFrom(lines, i) == i && LicenseMarked(lines, i) == newMarked
    ensures newFlag || hasComment ==> SpanFrom(lines, i) == SpanFrom(lines, i + 1)
  {
    ScanStep(lines, i);
  }
}
