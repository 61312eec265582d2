# License header update, modelled in Dafny

This project models `LicenseUpdate`, the style-guide task that keeps a license
comment at the top of every source file. It models two parts of that task:

- `run` finds the leading comment of a file and decides whether it is a license
  (it holds "Copyright (c)"). It takes the first copyright year found there and
  writes the license template in place of the license, or in front of the file
  when there is none. `{year}` becomes `first-current` or `current`. All
  `{padding}` tokens of a line become the same number of spaces, trunc((80 - n) / k)
  for n other characters and k tokens. One token brings a line of at most 80
  other characters to exactly column 80. Several tokens can leave it up to k - 1
  columns short. A line with more than 80 other characters loses its tokens and
  gets no spaces.
- `read_license_template` looks for the `.styleguide-license` template in the
  file's directory and then in each parent directory.

The modules follow the steps of `run`:

- `Text`: the Python string builtins the code uses, written as functions.
  These are `str.isspace`, `lstrip`, `split`, `join`, `replace`, `count`, `in`
  and `str(int)`.
- `CommentScan`: the comment-boundary regex `(^/\*|\*/|^//)` and the two-state
  scan over the lines. The scan keeps an "inside a multiline comment" flag and
  stops at the first line that is outside a comment and has no comment token.
- `CopyrightYear`: the year regex `Copyright \(c\) [\w\s,\.]+\s+(20..)`,
  written out by hand. `re.search` reports the leftmost start, and there the
  rightmost `20..` the greedy class run can reach. This module also holds the
  year-search loop and the year range.
- `TemplateRender`: the `{year}` and `{padding}` substitutions and the loop
  that appends each rendered line and the line separator.
- `TemplateSearch`: the upward directory search over a file system given as a
  map from path to lines.
- `LicenseUpdate`: `run` as a method, proved equal to the specification
  function `RunSpec`. This module also holds the properties of the whole
  rewrite, idempotence among them.

The loops of the source are methods with `while` loops:
- the line scan and the token loop;
- the year search;
- the template loop;
- the directory walk.

Each method's postcondition equates its results with a specification function,
and the lemmas state the properties of those functions. The task object has no
state of its own, so there is no class.

Two behaviours of the code are worth noting:
- The text after the license is not copied byte for byte. `run` left-strips it
  and puts exactly one line separator between the rendered template and it
  (licenseupdate.py:67, :69). The model follows the code.
- The "Copyright (c)" test runs before the scan decides to stop, so the line
  that ends the scan also counts (licenseupdate.py:44-61). `LicenseMarkedIff`
  states this.

## Model

| member | source | states |
|---|---|---|
| Text.Lstrip | licenseupdate.py:30 | lstrip leaves a suffix of the text, removes only whitespace characters, and leaves no leading whitespace |
| Text.LstripSpacePrefix | licenseupdate.py:67 | whitespace in front of a text does not change what lstrip leaves |
| Text.Join | licenseupdate.py:66-67 | str.join; JoinSplit, JoinAppend and SplitJoin state its relation to Split |
| Text.Split | licenseupdate.py:30 | split gives at least one piece, and no piece contains the separator |
| Text.JoinSplit | licenseupdate.py:66-67 | joining the pieces of a split with the separator gives back the text |
| Text.JoinAppend | licenseupdate.py:66-67 | the join of the first n lines, a separator, and the join of the rest is the join of all lines |
| Text.SplitJoin | licenseupdate.py:74 | lines without '\n' that are joined with "\n" or "\r\n" split back into the same lines |
| Text.SplitCons | licenseupdate.py:30 | a line without '\n', a separator and a text split into that line followed by the pieces of the text |
| Text.Count | licenseupdate.py:97 | str.count over non-overlapping occurrences; CountZero and ReplaceLength state its meaning |
| Text.ReplaceAll | licenseupdate.py:91-101 | str.replace of every non-overlapping occurrence, leftmost first; ReplaceLength and ReplaceAtEnd state its result |
| Text.CountZero | licenseupdate.py:97-98 | count is zero exactly when the pattern does not occur |
| Text.ReplaceLength | licenseupdate.py:101 | replacing every occurrence changes the length by count times the difference of the lengths |
| Text.ReplaceAtEnd | licenseupdate.py:91 | a pattern at the end of a text whose first character does not occur before it is replaced there |
| Text.NatToString | licenseupdate.py:85 | str(year) is a non-empty string of decimal digits whose value is the year, with no leading zero |
| Text.NatToStringInjective | licenseupdate.py:86 | two years print alike exactly when they are equal, so `year != current_year` compares the years |
| Text.CenturyYear | licenseupdate.py:85 | a year from 2000 to 2099 prints as four characters starting with "20" |
| CommentScan.ClosesFromShape | licenseupdate.py:39 | the "*/" matches from an index on occur in the line, in increasing order, and do not overlap |
| CommentScan.Tokens | licenseupdate.py:39-48 | re.finditer with the comment-boundary regex; TokensShape, TokensComplete and HasCommentIff state its result |
| CommentScan.TokensShape | licenseupdate.py:39-48 | every match occurs in the line at its position; a leading "/*" or "//" is the first match; only the first match can be "/*" or "//" and only at index 0; the later matches are "*/" and do not overlap |
| CommentScan.OpenOverlapsClose | licenseupdate.py:39-57 | in "/*/" only "/*" is matched, and the line opens a multiline comment |
| CommentScan.TokensComplete | licenseupdate.py:39 | every "*/" of a line is matched, except one overlapping a leading "/*" |
| CommentScan.HasCommentIff | licenseupdate.py:47-50 | a line has a match exactly when it starts with "/*" or "//" or contains "*/" |
| CommentScan.AfterLineIsLastMatch | licenseupdate.py:52-57 | after a line the multiline flag is set by its last match: on for "/*", off for "*/", unchanged for "//" or no match |
| CommentScan.LineCommentKeepsFlagOff | licenseupdate.py:48-57 | a line starting with "//" has a comment and does not turn the flag on |
| CommentScan.Span | licenseupdate.py:58-61 | license_end is the first line that has no match and leaves the flag off, or the number of lines |
| CommentScan.LicenseMarkedIff | licenseupdate.py:44-45 | the license flag is set exactly when "Copyright (c)" occurs in a scanned line, the line that stops the scan included |
| CommentScan.SpanOfLineComments | licenseupdate.py:41-61 | leading "//" lines followed by an empty line form a comment of exactly those lines |
| CommentScan.NoCloseFlagOn | licenseupdate.py:48-57 | a line without "*/" leaves the multiline flag on when it was on or when the line opens with "/*" |
| CommentScan.CloseLine | licenseupdate.py:48-57 | a line holding "*/" that does not open with "/*" has a comment and turns the multiline flag off |
| CommentScan.SpanOfBlockComment | licenseupdate.py:41-61 | a "/*" line, lines without "*/", a closing line and an empty line form one comment, every line inside it included whatever it holds |
| CommentScan.ScanLine | licenseupdate.py:47-57 | the token loop returns whether the line has a match and the flag after it |
| CommentScan.ScanLeadingComment | licenseupdate.py:35-61 | the scan returns license_end = Span and the license flag = LicenseMarked |
| CopyrightYear.CaptureAt | licenseupdate.py:71 | the year regex matching at start i with its group at q; SearchFrom and YearIn take the leftmost i and the rightmost q |
| CopyrightYear.LastCapture | licenseupdate.py:71 | the greedy class run backtracks to the rightmost capture position for a start |
| CopyrightYear.SearchFrom | licenseupdate.py:75 | re.search takes the leftmost start that matches, and there the rightmost capture |
| CopyrightYear.YearIn | licenseupdate.py:75-78 | a year is found exactly when the regex can match, and it is four characters starting with "20" and without '\n' |
| CopyrightYear.YearInIsLeftmostRightmost | licenseupdate.py:75-78 | the group reported is the one at the leftmost start and the rightmost capture |
| CopyrightYear.YearOfShape | licenseupdate.py:71-78 | on a line lead + "Copyright (c) " + holder + " " + year + tail, the year captured is that year |
| CopyrightYear.RangeYieldsFirstYear | licenseupdate.py:71 | on "// Copyright (c) holder first-last" the first year of the range is captured, not a year inside "last" |
| CopyrightYear.NoYearInShortLine | licenseupdate.py:71 | a line shorter than "Copyright (c) " has no year, the empty header included |
| CopyrightYear.NoYearWithoutC | licenseupdate.py:71 | a line without 'C' has no year |
| CopyrightYear.YearLineIndex | licenseupdate.py:74-80 | the index the year loop stops at: no line before it has a year, and the line there, if any, has one |
| CopyrightYear.FirstYear | licenseupdate.py:74-80 | the year search finds nothing exactly when no line has a year, and otherwise the year of the first line that has one |
| CopyrightYear.FirstYearAt | licenseupdate.py:74-80 | when no line before line c has a year and line c has one, the search returns line c's year |
| CopyrightYear.FoundYearIsCaptured | licenseupdate.py:77-78 | the year found is a captured group: "20" and two characters other than '\n' |
| CopyrightYear.YearRange | licenseupdate.py:84-87 | "first-current" when a year was found that differs from the current year, else the current year; HeaderYearStartsRange and RangeForHasShape state it for a header |
| CopyrightYear.FindYear | licenseupdate.py:72-80 | the loop sets modify_copyright exactly when FirstYear finds a year, and year to that year, else "" |
| TemplateRender.PadLine | licenseupdate.py:93-101 | the {padding} step of one line; PadLineLength and the padding lemmas below state its result |
| TemplateRender.RenderLine | licenseupdate.py:89-101 | "{year}" substitution then the {padding} step; RenderLineShape and RenderCopyrightLine state its result |
| TemplateRender.PadLineLength | licenseupdate.py:96-101 | a line without "{padding}" is left as is; otherwise its length is the other characters plus count paddings of width trunc((80 - others) / count), or 0 when that is negative |
| TemplateRender.NoTokenNoPadding | licenseupdate.py:97-98 | a line without "{padding}" is written unchanged |
| TemplateRender.SinglePaddingFillsLine | licenseupdate.py:93-101 | one "{padding}" on a line of at most 80 other characters brings it to exactly 80 |
| TemplateRender.PaddedWidthBounds | licenseupdate.py:99-100 | with at most 80 other characters, the padded length is at most 80 and more than 80 minus the token count |
| TemplateRender.PaddingNeverOverfills | licenseupdate.py:93-101 | several "{padding}" tokens leave the line at most 80 long, and short by less than their number |
| TemplateRender.LongLineGetsNoPadding | licenseupdate.py:99-101 | a line already over 80 without its tokens loses the tokens and gets no spaces |
| TemplateRender.TerminatedCons | licenseupdate.py:89-103 | lines each followed by the separator are the first line, the separator, and the remaining lines followed by theirs |
| TemplateRender.RenderAllCons | licenseupdate.py:89-103 | the output of the template loop is the first rendered line, the separator, and the output for the remaining lines |
| TemplateRender.RenderLineShape | licenseupdate.py:91-101 | rendering adds no '\n' and keeps a leading "//" |
| TemplateRender.SplitTerminated | licenseupdate.py:30 | lines without '\n', each followed by "\n" or "\r\n", then a text, split into those lines and the pieces of the text |
| TemplateRender.SplitRendered | licenseupdate.py:89-103 | the rendered template followed by a text splits into the rendered lines and the pieces of that text |
| TemplateRender.RenderTemplate | licenseupdate.py:89-103 | the template loop outputs each line with "{year}" and "{padding}" substituted, followed by the separator (RenderAll) |
| TemplateSearch.Collapse | licenseupdate.py:132 | the key isfile looks up: no two '/' in a row, no longer than the path, first character kept |
| TemplateSearch.CollapseKeepsSingleSlashes | licenseupdate.py:132 | a path without two '/' in a row is its own key |
| TemplateSearch.CollapseMergesSlashes | licenseupdate.py:132 | doubling a '/' anywhere in a path does not change its key |
| TemplateSearch.RFind | licenseupdate.py:137 | rfind returns the last index holding '/', or -1 when there is none |
| TemplateSearch.DirName | licenseupdate.py:125 | dirname is the prefix of the path that ends inside the run of '/' holding its last '/'. The trailing '/' are dropped unless the prefix is all '/', in which case the whole run is kept. It is empty when the path has no '/' |
| TemplateSearch.StartDir | licenseupdate.py:125-128 | the search starts in the file's dirname, with exactly "./" put in front unless it already starts with "./" (so an absolute dirname "/usr" becomes ".//usr") |
| TemplateSearch.AbsolutePathStartDir | licenseupdate.py:125-128 | the search for "/usr/x.c" starts at ".//usr" |
| TemplateSearch.Parent | licenseupdate.py:137 | each step cuts the directory just before its last '/', or drops its last character when it has no '/' |
| TemplateSearch.Candidates | licenseupdate.py:130-137 | the directories tried are non-empty prefixes of the start directory, strictly shorter each time, starting with it |
| TemplateSearch.CandidatesAreParents | licenseupdate.py:130-137 | each directory tried is the Parent of the one before, and the walk ends when that parent is empty |
| TemplateSearch.SearchDirs | licenseupdate.py:130-138 | the result of the search loop from a directory; SearchFindsNearest states it over Candidates |
| TemplateSearch.FirstWith | licenseupdate.py:130-135 | the index of the first directory that has the template: none before it has one, and it has one if it is in range |
| TemplateSearch.SearchFindsNearest | licenseupdate.py:130-138 | the search returns the template of the first directory tried that has one, and None exactly when no directory has one |
| TemplateSearch.SearchEndsAtCurrentDir | licenseupdate.py:127-137 | from a "./" directory the last directory tried is "." |
| TemplateSearch.FileInCurrentDir | licenseupdate.py:125-137 | for a file name without '/', the search tries "./" and then "." |
| TemplateSearch.OwnDirectoryFirst | licenseupdate.py:130-135 | a template in the file's own directory wins over those of its parents |
| TemplateSearch.ReadLicenseTemplate | licenseupdate.py:122-138 | the loop returns what SearchDirs specifies from the start directory |
| LicenseUpdate.SplitParts | licenseupdate.py:63-69 | file_parts; SplitPartsKeepsText states what the header and body keep of the text |
| LicenseUpdate.Rewrite | licenseupdate.py:29-109 | run once the template is read; NewHeaderUsesCurrentYear, HeaderYearStartsRange and RewriteIsIdempotent state its result |
| LicenseUpdate.RunSpec | licenseupdate.py:19-109 | run including the template lookup; TemplateNotFoundIff states when it fails |
| LicenseUpdate.TemplateNotFoundIff | licenseupdate.py:22-27 | run fails exactly when no directory tried has the template, or the nearest one is empty |
| LicenseUpdate.CutAfterLines | licenseupdate.py:66-67 | the join of the lines is the header lines followed by a rest whose lstrip is that of the remaining lines |
| LicenseUpdate.SplitPartsKeepsText | licenseupdate.py:63-69 | the left-stripped text starts with the header, and the body is one separator plus the text after the header without its leading whitespace |
| LicenseUpdate.NewHeaderUsesCurrentYear | licenseupdate.py:69-87 | a file without a license gets the template rendered with the current year alone, in front of its body |
| LicenseUpdate.EmptyHeaderRange | licenseupdate.py:69-87 | the empty header of a file without a license yields the current year alone |
| LicenseUpdate.NoHeaderYearUsesCurrentYear | licenseupdate.py:74-87 | a license without a recognisable year gets the current year alone |
| LicenseUpdate.HeaderYearStartsRange | licenseupdate.py:74-87 | the year of the first header line that has one starts the range "year-current", unless it is the current year |
| LicenseUpdate.RangeShapeOfPair | licenseupdate.py:84-87 | "first-current" for a captured first year other than the current one reads back as that range |
| LicenseUpdate.RangeShapeOfCurrent | licenseupdate.py:84-87 | the current year alone, when it is in 2000-2099, reads back as that range |
| LicenseUpdate.RangeForHasShape | licenseupdate.py:84-87 | the range written is a captured year optionally followed by "-" and the current year, and reading its first year back gives the same range |
| LicenseUpdate.RenderCopyrightLine | licenseupdate.py:91-101 | "// Copyright (c) holder {year}" renders to the same line with the range in place of "{year}" and no padding |
| LicenseUpdate.RenderedCopyrightYear | licenseupdate.py:71-78 | the rendered copyright line yields the first year of its range |
| LicenseUpdate.RenderEarlyLine | licenseupdate.py:89-101 | a template line without 'C' and without "{year}" renders to a line without a year |
| LicenseUpdate.RenderedLinesShape | licenseupdate.py:71-101 | the rendered lines are "//" lines without '\n', and the year search on them finds the range's first year |
| LicenseUpdate.OutputLines | licenseupdate.py:30 | the output splits into the rendered lines, an empty line and the lines of the body |
| LicenseUpdate.RerunSpan | licenseupdate.py:41-61 | "//" lines followed by an empty line: the scan stops at the empty line |
| LicenseUpdate.RerunScan | licenseupdate.py:41-61 | on the output, the scan stops at the empty line after the rendered lines and marks them as a license |
| LicenseUpdate.CopyrightLineMarked | licenseupdate.py:44-45 | the rendered copyright line holds "Copyright (c)" |
| LicenseUpdate.RerunBody | licenseupdate.py:67 | on the output, the body kept is the same separator and rest |
| LicenseUpdate.OutputNeedsNoStrip | licenseupdate.py:30 | the output starts with "//", so lstrip leaves it unchanged |
| LicenseUpdate.RerunParts | licenseupdate.py:63-69 | on the output, the header is the join of the rendered lines and the body is unchanged |
| LicenseUpdate.RewriteIsIdempotent | licenseupdate.py:19-109 | running the task on its own output returns the same text with changed = false |
| LicenseUpdate.Run | licenseupdate.py:19-109 | run returns what RunSpec specifies: TemplateNotFound for a missing or empty template, else the rendered template followed by the body, with changed = (output != input) and formatting-only set |

## Left out

- `get_file_extensions` (licenseupdate.py:13-17) is configuration lookup through `Task` and is not part of this model.
- `Task.get_linesep` (licenseupdate.py:20) is not part of this model. The line separator is a parameter of `Run`. `Run` and `RunSpec` accept any non-empty separator. The lemmas that split a text back into lines take it to be "\n" or "\r\n" (`IsLineSep`). These are `Text.SplitJoin`, `Text.SplitCons`, `TemplateRender.SplitTerminated`, `TemplateRender.SplitRendered`, `LicenseUpdate.SplitPartsKeepsText`, `LicenseUpdate.OutputLines` and the idempotence lemmas.
- `date.today()` (licenseupdate.py:85): the clock is not modelled. The current year is a parameter of `Run`.
- Reading the template file (licenseupdate.py:133-135): the file system is a map from path to the file's lines, already split as `splitlines` would split them.
- TemplateSearch.IsFile: path resolution is modelled only as far as collapsing runs of '/'. Symbolic links, "..", absolute paths and directories named like the template are not modelled.
- The error exit `print` plus `sys.exit(1)` (licenseupdate.py:24-27) is the `TemplateNotFound` outcome.
- CopyrightYear.IsWordChar: `\w` is taken as ASCII letters, digits and '_'. Python's `str` regex also matches other Unicode letters and digits.
- TemplateRender.TruncDiv: `int(padding / padding_count)` is modelled as exact truncation toward zero. The float quotient rounds to a different integer only when the operands approach 2^53.
- The `len(file_parts) > 1` test (licenseupdate.py:106) always holds, so the body is always appended.
- The `config_found` flag (licenseupdate.py:124, 130, 134) is never true while the loop runs, because the found branch returns at once. The loop tests only the directory length.
- LicenseUpdate.RewriteIsIdempotent holds only under these hypotheses:
  - the template has the `StyleTemplate` shape: every line is a "//" comment, one line is "// Copyright (c) <holder> {year}", and the lines above it have no 'C' and no "{year}";
  - the current year is between 2000 and 2099.

  The lemma states nothing about other templates or other years.
