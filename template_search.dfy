// LicenseUpdate.read_license_template: look for the template file in the directory
// of the file being processed, then in each parent directory, and return the lines
// of the first one found. The file system is a map from path to the file's lines.
module TemplateSearch {
  import opened Wrappers
  import opened Text

  // The lines of each file, keyed by its path with runs of '/' collapsed (the form
  // under which the operating system resolves "./a//b" and "./a/b" alike).
  type FileSystem = map<string, seq<string>>

  // os.sep on the platforms the tool targets.
  const Sep := '/'

  // A path with every run of '/' reduced to one '/'; its first character stays.
  function Collapse(p: string): (r: string)
    ensures |r| <= |p|
    ensures |p| > 0 ==> |r| > 0 && r[0] == p[0]
    ensures forall k :: 0 <= k < |r| - 1 ==> !(r[k] == Sep && r[k + 1] == Sep)
  {
    if |p| < 2 then p
    else if p[0] == Sep && p[1] == Sep then Collapse(p[1..])
    else [p[0]] + Collapse(p[1..])
  }

  // A path with no two '/' in a row is its own key.
  lemma {:induction false} CollapseKeepsSingleSlashes(p: string)
    requires forall k :: 0 <= k < |p| - 1 ==> !(p[k] == Sep && p[k + 1] == Sep)
    ensures Collapse(p) == p
    decreases |p|
  {
    if |p| >= 2 {
      CollapseKeepsSingleSlashes(p[1..]);
      assert p == [p[0]] + p[1..];
    }
  }

  // Doubling a '/' anywhere in a path does not change its key.
  lemma {:induction false} CollapseMergesSlashes(a: string, b: string)
    ensures Collapse(a + [Sep, Sep] + b) == Collapse(a + [Sep] + b)
    decreases |a|
  {
    var p := a + [Sep, Sep] + b;
    var q := a + [Sep] + b;
    if a == [] {
      assert p[1..] == q;
    } else {
      CollapseMergesSlashes(a[1..], b);
      assert p[1..] == a[1..] + [Sep, Sep] + b;
      assert q[1..] == a[1..] + [Sep] + b;
      assert p[1] == q[1];
    }
  }

  // os.path.isfile.
  predicate IsFile(fs: FileSystem, path: string) {
    Collapse(path) in fs
  }

  // str.rfind for one character: the last index holding c, or -1.
  function RFind(s: string, c: char): (r: int)
    ensures -1 <= r < |s|
    ensures r >= 0 ==> s[r] == c
    ensures forall k :: r < k < |s| ==> s[k] != c
  {
    if s == [] then -1
    else if s[|s| - 1] == c then |s| - 1
    else RFind(s[..|s| - 1], c)
  }

  // str.rstrip('/').
  function RstripSep(s: string): (r: string)
    ensures |r| <= |s| && r == s[..|r|]
    ensures r == [] || r[|r| - 1] != Sep
    ensures forall k :: |r| <= k < |s| ==> s[k] == Sep
  {
    if s == [] || s[|s| - 1] != Sep then s
    else RstripSep(s[..|s| - 1])
  }

  // os.path.dirname (posixpath): everything up to the last '/', with the trailing
  // slashes removed unless it consists of slashes only.
  function DirName(p: string): (d: string)
    ensures |d| <= |p| && d == p[..|d|]
    // it ends inside the run of '/' that holds the last '/' of p, and is empty without one
    ensures |d| <= RFind(p, Sep) + 1
    ensures forall k :: |d| <= k <= RFind(p, Sep) ==> p[k] == Sep
    ensures RFind(p, Sep) >= 0 ==> |d| > 0
    // with no trailing '/' unless it is all '/', in which case the whole run is kept
    ensures d == [] || d[|d| - 1] != Sep || forall k :: 0 <= k < |d| ==> d[k] == Sep
    ensures (forall k :: 0 <= k <= RFind(p, Sep) ==> p[k] == Sep) ==> |d| == RFind(p, Sep) + 1
  {
    var i := RFind(p, Sep) + 1;
    var head := p[..i];
    if exists k :: 0 <= k < |head| && head[k] != Sep then RstripSep(head) else head
  }

  // The directory the search starts from: the file's directory, given a "./" prefix
  // unless it already has one.
  function StartDir(fileName: string): (d: string)
    ensures StartsWith(d, "./")
    ensures |DirName(fileName)| <= |d| <= |DirName(fileName)| + 2
    ensures d[|d| - |DirName(fileName)|..] == DirName(fileName)
    ensures StartsWith(DirName(fileName), "./") ==> d == DirName(fileName)
    ensures !StartsWith(DirName(fileName), "./") ==> |d| == |DirName(fileName)| + 2
  {
    var directory := DirName(fileName);
    if StartsWith(directory, "./") then directory else "./" + directory
  }

  // directory[:directory.rfind(os.sep)]: cut at the last '/'; with no '/' left,
  // rfind gives -1 and the slice drops the last character.
  function Parent(d: string): (r: string)
    requires |d| > 0
    ensures |r| < |d| && r == d[..|r|]
    ensures Sep in d ==> d[|r|] == Sep && Sep !in d[|r| + 1..]
    ensures Sep !in d ==> |r| == |d| - 1
  {
    var i := RFind(d, Sep);
    if i >= 0 then d[..i] else d[..|d| - 1]
  }

  // directory + os.sep + template_name.
  function Location(directory: string, name: string): string {
    directory + [Sep] + name
  }

  // The directories the loop tries, in order, until the directory becomes empty.
  function Candidates(d: string): (cs: seq<string>)
    ensures forall k :: 0 <= k < |cs| ==> 0 < |cs[k]| <= |d| && cs[k] == d[..|cs[k]|]
    ensures forall k :: 0 < k < |cs| ==> |cs[k]| < |cs[k - 1]|
    ensures |d| > 0 ==> |cs| > 0 && cs[0] == d
    decreases |d|
  {
    if |d| == 0 then []
    else
      var rest := Candidates(Parent(d));
      assert forall k :: 0 <= k < |rest| ==> rest[k] == Parent(d)[..|rest[k]|] == d[..|rest[k]|];
      [d] + rest
  }

  // Each directory tried is the parent of the one before, and the walk stops once the
  // parent is empty.
  lemma {:induction false} CandidatesAreParents(d: string)
    ensures var cs := Candidates(d);
      && (forall k :: 0 < k < |cs| ==> cs[k] == Parent(cs[k - 1]))
      && (|cs| > 0 ==> Parent(cs[|cs| - 1]) == "")
    decreases |d|
  {
    if |d| > 0 {
      var p := Parent(d);
      var rest := Candidates(p);
      CandidatesAreParents(p);
      CandidatesCons(d, p, rest);
    }
  }

  // The walk from d: d itself, then the walk from its parent.
  lemma CandidatesCons(d: string, p: string, rest: seq<string>)
    requires |d| > 0 && p == Parent(d) && rest == Candidates(p)
    requires forall k :: 0 < k < |rest| ==> rest[k] == Parent(rest[k - 1])
    requires |rest| > 0 ==> Parent(rest[|rest| - 1]) == ""
    ensures var cs := Candidates(d);
      && (forall k :: 0 < k < |cs| ==> cs[k] == Parent(cs[k - 1]))
      && (|cs| > 0 ==> Parent(cs[|cs| - 1]) == "")
  {
    assert Candidates(d) == [d] + rest;
    assert rest == [] <==> |p| == 0;
    assert rest != [] ==> rest[0] == p;
    ParentChainCons(d, rest);
  }

  // A chain of parents stays one with d in front when it starts at d's parent.
  lemma ParentChainCons(d: string, rest: seq<string>)
    requires |d| > 0 && forall k :: 0 <= k < |rest| ==> |rest[k]| > 0
    requires rest == [] ==> Parent(d) == ""
    requires rest != [] ==> rest[0] == Parent(d)
    requires forall k :: 0 < k < |rest| ==> rest[k] == Parent(rest[k - 1])
    requires |rest| > 0 ==> Parent(rest[|rest| - 1]) == ""
    ensures var cs := [d] + rest;
      && (forall k :: 0 < k < |cs| ==> cs[k] == Parent(cs[k - 1]))
      && Parent(cs[|cs| - 1]) == ""
  {
    var cs := [d] + rest;
    forall k | 0 < k < |cs| ensures cs[k] == Parent(cs[k - 1]) {
      if k > 1 {
        assert cs[k] == rest[k - 1] && cs[k - 1] == rest[k - 2];
      }
    }
    assert rest != [] ==> cs[|cs| - 1] == rest[|rest| - 1];
  }

  // The template file exists in directory d.
  predicate HasTemplate(fs: FileSystem, name: string, d: string) {
    IsFile(fs, Location(d, name))
  }

  // Its lines.
  function TemplateIn(fs: FileSystem, name: string, d: string): seq<string>
    requires HasTemplate(fs, name, d)
  {
    fs[Collapse(Location(d, name))]
  }

  // What read_license_template returns when its search starts at directory d.
  function SearchDirs(fs: FileSystem, name: string, d: string): Option<seq<string>>
    decreases |d|
  {
    if |d| == 0 then None
    else if HasTemplate(fs, name, d) then Some(TemplateIn(fs, name, d))
    else SearchDirs(fs, name, Parent(d))
  }

  // The position of the first directory of ds that holds the template, |ds| if none does.
  function FirstWith(fs: FileSystem, name: string, ds: seq<string>): (k: nat)
    ensures k <= |ds|
    ensures forall j :: 0 <= j < k ==> !HasTemplate(fs, name, ds[j])
    ensures k < |ds| ==> HasTemplate(fs, name, ds[k])
  {
    if ds == [] then 0
    else if HasTemplate(fs, name, ds[0]) then 0
    else 1 + FirstWith(fs, name, ds[1..])
  }

  // The search returns the template of the nearest candidate directory that has one,
  // and None exactly when none of them has.
  lemma {:induction false} SearchFindsNearest(fs: FileSystem, name: string, d: string)
    ensures var cs := Candidates(d);
      var k := FirstWith(fs, name, cs);
      SearchDirs(fs, name, d) == if k < |cs| then Some(TemplateIn(fs, name, cs[k])) else None
    decreases |d|
  {
    if |d| > 0 && !HasTemplate(fs, name, d) {
      var rest := Candidates(Parent(d));
      SearchFindsNearest(fs, name, Parent(d));
      SkipDirectory(fs, name, d, rest);
    }
  }

  // A directory without the template passes the search on to the candidates after it.
  lemma SkipDirectory(fs: FileSystem, name: string, d: string, rest: seq<string>)
    requires |d| > 0 && !HasTemplate(fs, name, d) && rest == Candidates(Parent(d))
    ensures var cs := Candidates(d);
      var k := FirstWith(fs, name, rest);
      && FirstWith(fs, name, cs) == 1 + k
      && (k < |rest| ==> cs[k + 1] == rest[k])
      && SearchDirs(fs, name, d) == SearchDirs(fs, name, Parent(d))
  {
    var cs := Candidates(d);
    assert cs == [d] + rest;
    assert cs[1..] == rest;
  }

  // Starting from a "./" directory, the walk always ends with the current directory ".".
  lemma {:induction false} SearchEndsAtCurrentDir(d: string)
    requires StartsWith(d, "./")
    ensures var cs := Candidates(d); |cs| > 0 && cs[|cs| - 1] == "."
    decreases |d|
  {
    var i := RFind(d, Sep);
    assert d[1] == Sep;
    assert i >= 1;
    var p := Parent(d);
    if i == 1 {
      assert p == ".";
      assert Parent(p) == "";
      assert Candidates(p) == ["."];
    } else {
      assert p[..2] == d[..2];
      SearchEndsAtCurrentDir(p);
    }
  }

  // A file named without a directory is looked up in "./" and then in ".".
  lemma FileInCurrentDir(fileName: string)
    requires Sep !in fileName
    ensures StartDir(fileName) == "./"
    ensures Candidates(StartDir(fileName)) == ["./", "."]
  {
    assert RFind(fileName, Sep) == -1;
    assert DirName(fileName) == "";
    assert Parent("./") == ".";
    assert Parent(".") == "";
  }

  // An absolute path gets the "./" prefix as well: "/usr/x.c" starts at ".//usr".
  lemma AbsolutePathStartDir()
    ensures StartDir("/usr/x.c") == ".//usr"
  {
    UsrDirName();
    var d := "/usr";
    assert !StartsWith(d, "./") by {
      assert d[..2][0] != '.';
    }
    assert ".//usr" == "./" + d;
  }

  // The directory part of "/usr/x.c".
  lemma UsrDirName()
    ensures DirName("/usr/x.c") == "/usr"
  {
    var p := "/usr/x.c";
    var d := DirName(p);
    assert RFind(p, Sep) == 4 by {
      assert p[4] == Sep && p[5] != Sep && p[6] != Sep && p[7] != Sep;
    }
    assert p[3] != Sep && d[1] != Sep;
    assert d == p[..4];
  }

  // The template next to the file wins over those of the parent directories.
  lemma OwnDirectoryFirst(fs: FileSystem, name: string, fileName: string)
    requires HasTemplate(fs, name, StartDir(fileName))
    ensures SearchDirs(fs, name, StartDir(fileName)) == Some(TemplateIn(fs, name, StartDir(fileName)))
  {
    assert |StartDir(fileName)| >= 2;
  }

  // The search loop of read_license_template.
  method ReadLicenseTemplate(fs: FileSystem, templateName: string, fileName: string)
    returns (template: Option<seq<string>>)
    ensures template == SearchDirs(fs, templateName, StartDir(fileName))
  {
    var directory := DirName(fileName);
    if !StartsWith(directory, "./") {
      directory := "./" + directory;
    }
    while |directory| > 0
      invariant SearchDirs(fs, templateName, directory) == SearchDirs(fs, templateName, StartDir(fileName))
      decreases |directory|
    {
      var templateLocation := directory + [Sep] + templateName;
      if IsFile(fs, templateLocation) {
        return Some(fs[Collapse(templateLocation)]);
      }
      var i := RFind(directory, Sep);
      directory := if i >= 0 then directory[..i] else directory[..|directory| - 1];
    }
    return None;
  }
}
