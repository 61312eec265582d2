// The Python string builtins that licenseupdate.py relies on, written out as
// functions: str.isspace, str.lstrip(), str.split(sep), sep.join, str.replace,
// str.count, str.startswith, the `in` test on strings, `" " * n` and str(int).
module Text {
  import opened Wrappers

  // str.isspace() of one character; `\s` in a str regex matches the same set.
  predicate IsSpace(c: char) {
    var n := c as int;
    (9 <= n <= 13) || (28 <= n <= 32) || n == 0x85 || n == 0xA0 || n == 0x1680
    || (0x2000 <= n <= 0x200A) || n == 0x2028 || n == 0x2029 || n == 0x202F
    || n == 0x205F || n == 0x3000
  }

  predicate OccursAt(s: string, p: string, i: nat) {
    i + |p| <= |s| && s[i..i + |p|] == p
  }

  // `p in s`
  predicate Contains(s: string, p: string) {
    exists i: nat | i <= |s| :: OccursAt(s, p, i)
  }

  // s.startswith(p)
  predicate StartsWith(s: string, p: string) {
    OccursAt(s, p, 0)
  }

  // s.lstrip(): drops the leading run of whitespace and nothing else.
  function Lstrip(s: string): (r: string)
    ensures |r| <= |s| && r == s[|s| - |r|..]
    ensures forall k :: 0 <= k < |s| - |r| ==> IsSpace(s[k])
    ensures r == [] || !IsSpace(r[0])
  {
    if |s| > 0 && IsSpace(s[0]) then Lstrip(s[1..]) else s
  }

  // Stripping whitespace in front of a text does not change what lstrip leaves.
  lemma {:induction false} LstripSpacePrefix(w: string, x: string)
    requires forall k :: 0 <= k < |w| ==> IsSpace(w[k])
    ensures Lstrip(w + x) == Lstrip(x)
  {
    if |w| > 0 {
      assert (w + x)[0] == w[0];
      assert (w + x)[1..] == w[1..] + x;
      LstripSpacePrefix(w[1..], x);
    } else {
      assert w + x == x;
    }
  }

  // s.find(p, from) as an Option: the leftmost occurrence at or after `from`.
  function Find(s: string, p: string, from: nat): (r: Option<nat>)
    requires |p| > 0
    ensures r.Some? ==> from <= r.value && OccursAt(s, p, r.value)
    ensures r.Some? ==> forall k :: from <= k < r.value ==> !OccursAt(s, p, k)
    ensures r.None? ==> forall k: nat :: from <= k ==> !OccursAt(s, p, k)
    decreases |s| - from
  {
    if from + |p| > |s| then None
    else if OccursAt(s, p, from) then Some(from)
    else Find(s, p, from + 1)
  }

  // s.split(sep) for a non-empty sep: the pieces between the leftmost
  // non-overlapping occurrences of sep; no piece contains sep.
  function Split(s: string, sep: string): (r: seq<string>)
    requires |sep| > 0
    ensures |r| >= 1
    ensures forall k :: 0 <= k < |r| ==> !Contains(r[k], sep)
    decreases |s|
  {
    match Find(s, sep, 0)
    case None => [s]
    case Some(i) =>
      var head := s[..i];
      assert !Contains(head, sep) by {
        forall k: nat | OccursAt(head, sep, k) ensures false {
          assert s[k..k + |sep|] == head[k..k + |sep|];
          assert OccursAt(s, sep, k);
        }
      }
      [head] + Split(s[i + |sep|..], sep)
  }

  // sep.join(ls)
  function Join(ls: seq<string>, sep: string): string {
    if |ls| == 0 then "" else if |ls| == 1 then ls[0] else ls[0] + sep + Join(ls[1..], sep)
  }

  // Joining the pieces of a split gives back the text that was split.
  lemma {:induction false} JoinSplit(s: string, sep: string)
    requires |sep| > 0
    ensures Join(Split(s, sep), sep) == s
    decreases |s|
  {
    match Find(s, sep, 0)
    case None =>
    case Some(i) =>
      var rest := s[i + |sep|..];
      JoinSplit(rest, sep);
      SplitAtFirst(s, sep, i);
      JoinCons(s[..i], Split(rest, sep), sep);
      assert s == s[..i] + sep + rest;
  }

  // Split takes the text before the first separator as its first piece.
  lemma SplitAtFirst(s: string, sep: string, i: nat)
    requires |sep| > 0 && Find(s, sep, 0) == Some(i)
    ensures Split(s, sep) == [s[..i]] + Split(s[i + |sep|..], sep)
  {
  }

  // Join of a first line and at least one more.
  lemma JoinCons(h: string, ls: seq<string>, sep: string)
    requires |ls| >= 1
    ensures Join([h] + ls, sep) == h + sep + Join(ls, sep)
  {
    assert ([h] + ls)[1..] == ls;
  }

  // Joining a prefix and the matching suffix with one more separator gives the whole join.
  lemma {:induction false} JoinAppend(ls: seq<string>, n: nat, sep: string)
    requires 0 < n < |ls|
    ensures Join(ls[..n], sep) + sep + Join(ls[n..], sep) == Join(ls, sep)
    decreases n
  {
    if n > 1 {
      JoinAppend(ls[1..], n - 1, sep);
      assert ls[..n][1..] == ls[1..][..n - 1];
      assert ls[1..][n - 1..] == ls[n..];
    }
  }

  // The two line-ending conventions a source file can use.
  predicate IsLineSep(sep: string) {
    sep == "\n" || sep == "\r\n"
  }

  // Line separators are whitespace, so lstrip removes them.
  lemma LineSepIsSpace(sep: string)
    requires IsLineSep(sep)
    ensures forall k :: 0 <= k < |sep| ==> IsSpace(sep[k])
  {
  }

  // A line without '\n' is not split any further.
  lemma SplitSingle(a: string, sep: string)
    requires IsLineSep(sep) && '\n' !in a
    ensures Split(a, sep) == [a]
  {
    forall k: nat | k + |sep| <= |a| ensures !OccursAt(a, sep, k) {
      var e := k + |sep| - 1;
      assert a[e] in a;
      assert a[k..k + |sep|][|sep| - 1] == a[e];
    }
  }

  // Splitting a line without '\n', a separator and a rest yields that line, then the rest's pieces.
  lemma SplitCons(a: string, b: string, sep: string)
    requires IsLineSep(sep) && '\n' !in a
    ensures Split(a + sep + b, sep) == [a] + Split(b, sep)
  {
    var s := a + sep + b;
    assert s[|a|..|a| + |sep|] == sep;
    assert OccursAt(s, sep, |a|);
    forall k: nat | k < |a| ensures !OccursAt(s, sep, k) {
      var e := k + |sep| - 1;
      if e < |a| {
        assert s[e] == a[e];
        assert a[e] in a;
      } else {
        assert s[e] == sep[0];
      }
      assert s[k..k + |sep|][|sep| - 1] == s[e];
    }
    assert Find(s, sep, 0) == Some(|a|);
    assert s[..|a|] == a;
    assert s[|a| + |sep|..] == b;
  }

  // Split undoes Join when no line holds a '\n'.
  lemma {:induction false} SplitJoin(ls: seq<string>, sep: string)
    requires IsLineSep(sep) && |ls| >= 1
    requires forall k :: 0 <= k < |ls| ==> '\n' !in ls[k]
    ensures Split(Join(ls, sep), sep) == ls
    decreases |ls|
  {
    if |ls| == 1 {
      SplitSingle(ls[0], sep);
    } else {
      var rest := ls[1..];
      assert ls == [ls[0]] + rest;
      JoinCons(ls[0], rest, sep);
      assert forall k :: 0 <= k < |rest| ==> rest[k] == ls[k + 1];
      SplitJoin(rest, sep);
      SplitCons(ls[0], Join(rest, sep), sep);
    }
  }

  // s.replace(p, r): each leftmost non-overlapping occurrence of p becomes r.
  function ReplaceAll(s: string, p: string, r: string): string
    requires |p| > 0
    decreases |s|
  {
    if |s| < |p| then s
    else if s[..|p|] == p then r + ReplaceAll(s[|p|..], p, r)
    else [s[0]] + ReplaceAll(s[1..], p, r)
  }

  // s.count(p): the number of occurrences replace would rewrite.
  function Count(s: string, p: string): nat
    requires |p| > 0
    decreases |s|
  {
    if |s| < |p| then 0
    else if s[..|p|] == p then 1 + Count(s[|p|..], p)
    else Count(s[1..], p)
  }

  // An occurrence past the first character is an occurrence in the tail.
  lemma OccursShift(s: string, p: string, i: nat)
    requires |s| > 0
    ensures OccursAt(s, p, i + 1) <==> OccursAt(s[1..], p, i)
  {
    if i + 1 + |p| <= |s| {
      assert s[1..][i..i + |p|] == s[i + 1..i + 1 + |p|];
    }
  }

  // count is zero exactly when the pattern does not occur.
  lemma {:induction false} CountZero(s: string, p: string)
    requires |p| > 0
    ensures Count(s, p) == 0 <==> !Contains(s, p)
    decreases |s|
  {
    if |s| < |p| {
    } else if s[..|p|] == p {
      assert OccursAt(s, p, 0);
    } else {
      CountZero(s[1..], p);
      if Contains(s, p) {
        var i: nat :| i <= |s| && OccursAt(s, p, i);
        assert i != 0;
        OccursShift(s, p, i - 1);
        assert OccursAt(s[1..], p, i - 1);
      }
      if Contains(s[1..], p) {
        var i: nat :| i <= |s[1..]| && OccursAt(s[1..], p, i);
        OccursShift(s, p, i);
        assert OccursAt(s, p, i + 1);
      }
    }
  }

  // Each replaced occurrence changes the length by |r| - |p|.
  lemma {:induction false} ReplaceLength(s: string, p: string, r: string)
    requires |p| > 0
    ensures |ReplaceAll(s, p, r)| == |s| + Count(s, p) * (|r| - |p|)
    decreases |s|
  {
    if |s| < |p| {
    } else if s[..|p|] == p {
      ReplaceLength(s[|p|..], p, r);
      OneMoreTimes(Count(s[|p|..], p), |r| - |p|);
    } else {
      ReplaceLength(s[1..], p, r);
    }
  }

  lemma OneMoreTimes(c: int, d: int)
    ensures (1 + c) * d == d + c * d
  {
  }

  // Replacing a pattern that does not occur changes nothing.
  lemma {:induction false} ReplaceAbsent(s: string, p: string, r: string)
    requires |p| > 0 && !Contains(s, p)
    ensures ReplaceAll(s, p, r) == s
    decreases |s|
  {
    if |s| >= |p| {
      assert !OccursAt(s, p, 0);
      assert !Contains(s[1..], p) by {
        forall i: nat | OccursAt(s[1..], p, i) ensures false {
          OccursShift(s, p, i);
        }
      }
      ReplaceAbsent(s[1..], p, r);
    }
  }

  // A character absent from the text and from the replacement is absent from the result.
  lemma {:induction false} ReplaceKeepsAbsent(c: char, s: string, p: string, r: string)
    requires |p| > 0 && c !in s && c !in r
    ensures c !in ReplaceAll(s, p, r)
    decreases |s|
  {
    if |s| < |p| {
    } else if s[..|p|] == p {
      assert forall k :: 0 <= k < |s[|p|..]| ==> s[|p|..][k] == s[|p| + k];
      ReplaceKeepsAbsent(c, s[|p|..], p, r);
    } else {
      assert forall k :: 0 <= k < |s[1..]| ==> s[1..][k] == s[1 + k];
      ReplaceKeepsAbsent(c, s[1..], p, r);
    }
  }

  // A leading "//" is kept by a replacement whose pattern starts with '{'.
  lemma ReplaceKeepsSlashes(s: string, p: string, r: string)
    requires |p| > 0 && p[0] == '{' && StartsWith(s, "//")
    ensures StartsWith(ReplaceAll(s, p, r), "//")
  {
    if |s| >= |p| {
      assert s[..|p|][0] != p[0];
      var t := s[1..];
      if |t| >= |p| {
        assert t[..|p|][0] != p[0];
      }
    }
  }

  // A pattern that occurs once, at the very end, is replaced there.
  lemma {:induction false} ReplaceAtEnd(a: string, p: string, r: string)
    requires |p| > 0 && p[0] !in a
    ensures ReplaceAll(a + p, p, r) == a + r
    decreases |a|
  {
    var s := a + p;
    if |a| == 0 {
      assert s == p;
      assert s[|p|..] == [];
    } else {
      assert s[0] == a[0];
      assert s[..|p|] != p by {
        assert s[..|p|][0] == a[0];
        assert a[0] in a;
      }
      assert s[1..] == a[1..] + p;
      assert p[0] !in a[1..] by {
        assert forall c :: c in a[1..] ==> c in a;
      }
      ReplaceAtEnd(a[1..], p, r);
      assert [a[0]] + (a[1..] + r) == a + r;
    }
  }

  // " " * n: no characters when n <= 0.
  function Spaces(n: int): (r: string)
    ensures |r| == (if n <= 0 then 0 else n)
    ensures forall k :: 0 <= k < |r| ==> r[k] == ' '
    decreases n
  {
    if n <= 0 then "" else [' '] + Spaces(n - 1)
  }

  function DigitChar(d: nat): (c: char)
    requires d < 10
    ensures '0' <= c <= '9' && DigitValue(c) == d
  {
    ('0' as int + d) as char
  }

  // The value of one decimal digit.
  function DigitValue(c: char): int {
    c as int - '0' as int
  }

  // The number a string of decimal digits denotes, most significant digit first.
  function DigitsValue(s: string): int
    decreases |s|
  {
    if s == [] then 0 else DigitsValue(s[..|s| - 1]) * 10 + DigitValue(s[|s| - 1])
  }

  // str(n) for a non-negative integer: the decimal digits of n, without leading zeros.
  function NatToString(n: nat): (r: string)
    ensures |r| >= 1
    ensures forall k :: 0 <= k < |r| ==> '0' <= r[k] <= '9'
    ensures DigitsValue(r) == n
    ensures r[0] == '0' <==> n == 0
    ensures |r| > 1 ==> r[0] != '0'
    decreases n
  {
    if n < 10 then [DigitChar(n)]
    else
      var init := NatToString(n / 10);
      var r := init + [DigitChar(n % 10)];
      assert r[..|r| - 1] == init;
      r
  }

  // Two years print alike exactly when they are equal (the year comparison of run).
  lemma NatToStringInjective(m: nat, n: nat)
    ensures NatToString(m) == NatToString(n) <==> m == n
  {
  }

  // A year of this century prints as four digits starting with "20".
  lemma CenturyYear(n: nat)
    requires 2000 <= n <= 2099
    ensures |NatToString(n)| == 4 && NatToString(n)[0] == '2' && NatToString(n)[1] == '0'
  {
    assert NatToString(2) == "2";
    assert NatToString(20) == "20";
    assert n / 10 / 10 == 20;
    assert NatToString(n / 10) == "20" + [DigitChar(n / 10 % 10)];
  }
}
