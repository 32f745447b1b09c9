/** The string surgery `from` applies to paths: POSIX `path.join`,
    `path.basename`, `path.extname`, and `String.prototype.replace` with a
    string pattern. */
module Paths {

  predicate StartsWith(s: string, prefix: string)
  {
    |prefix| <= |s| && s[..|prefix|] == prefix
  }

  predicate EndsWith(s: string, suffix: string)
  {
    |suffix| <= |s| && s[|s| - |suffix|..] == suffix
  }

  /** `path.join(dir, name)` for a name that `readdir` listed in `dir`. */
  function Join(dir: string, name: string): string
  {
    if dir == "" then name
    else if dir[|dir| - 1] == '/' then dir + name
    else dir + "/" + name
  }

  /** The path without its trailing separators. */
  function TrimTrailingSlashes(p: string): (r: string)
    ensures |r| <= |p|
  {
    if p != [] && p[|p| - 1] == '/' then TrimTrailingSlashes(p[..|p| - 1]) else p
  }

  /** Trimming keeps a prefix that does not end in '/', and removes only '/'. */
  lemma {:induction false} TrimTrailingSlashesShape(p: string)
    ensures var r := TrimTrailingSlashes(p);
      r == p[..|r|] && (r == [] || r[|r| - 1] != '/') &&
      (forall i :: |r| <= i < |p| ==> p[i] == '/')
  {
    if p != [] && p[|p| - 1] == '/' {
      TrimTrailingSlashesShape(p[..|p| - 1]);
      assert p[..|p| - 1][..|TrimTrailingSlashes(p)|] == p[..|TrimTrailingSlashes(p)|];
    }
  }

  /** Where the last segment of `p` starts: just after its last separator. */
  function SegmentStart(p: string): (i: nat)
    ensures i <= |p|
  {
    if p == [] || p[|p| - 1] == '/' then |p| else SegmentStart(p[..|p| - 1])
  }

  /** The last segment holds no '/' and follows one, unless it starts `p`. */
  lemma {:induction false} SegmentStartShape(p: string)
    ensures var i := SegmentStart(p);
      (forall j :: i <= j < |p| ==> p[j] != '/') && (0 < i ==> p[i - 1] == '/')
  {
    if !(p == [] || p[|p| - 1] == '/') {
      var q := p[..|p| - 1];
      SegmentStartShape(q);
      assert forall j :: 0 <= j < |q| ==> q[j] == p[j];
    }
  }

  /** `path.basename(p)`: the last segment, trailing separators ignored. */
  function Basename(p: string): string
  {
    var t := TrimTrailingSlashes(p);
    t[SegmentStart(t)..]
  }

  /** A basename holds no separator. */
  lemma BasenameNoSlash(p: string)
    ensures forall j :: 0 <= j < |Basename(p)| ==> Basename(p)[j] != '/'
  {
    var t := TrimTrailingSlashes(p);
    SegmentStartShape(t);
    assert forall j :: 0 <= j < |Basename(p)| ==> Basename(p)[j] == t[SegmentStart(t) + j];
  }

  /** The index of the last '.' of `b`, or -1. */
  function LastDot(b: string): (i: int)
    ensures -1 <= i < |b|
  {
    if b == [] then -1
    else if b[|b| - 1] == '.' then |b| - 1
    else LastDot(b[..|b| - 1])
  }

  /** The last dot is a dot, and none follows it. */
  lemma {:induction false} LastDotShape(b: string)
    ensures var i := LastDot(b);
      (0 <= i ==> b[i] == '.') && (forall j :: i < j < |b| ==> b[j] != '.')
  {
    if b != [] && b[|b| - 1] != '.' {
      var q := b[..|b| - 1];
      LastDotShape(q);
      assert forall j :: 0 <= j < |q| ==> q[j] == b[j];
    }
  }

  /** `path.extname(p)`: the basename from its last '.', or "" when there is
      no '.', when the only '.' opens the basename, or for "..". */
  function Extname(p: string): string
  {
    var b := Basename(p);
    var i := LastDot(b);
    if i <= 0 || b == ".." then "" else b[i..]
  }

  /** `path.basename(p, ext)`: the basename with the suffix `ext` removed,
      unless that would leave it empty. */
  function BasenameWithout(p: string, ext: string): string
  {
    var b := Basename(p);
    if ext != "" && |ext| < |b| && EndsWith(b, ext) then b[..|b| - |ext|] else b
  }

  predicate OccursAt(s: string, pat: string, i: int)
  {
    0 <= i && i + |pat| <= |s| && s[i..i + |pat|] == pat
  }

  /** The first index at or after `from` where `pat` occurs in `s`, or -1. */
  function IndexFrom(s: string, pat: string, from: nat): (i: int)
    ensures i == -1 || (from <= i && OccursAt(s, pat, i))
    decreases |s| - from
  {
    if from + |pat| > |s| then -1
    else if s[from..from + |pat|] == pat then from
    else IndexFrom(s, pat, from + 1)
  }

  /** No occurrence of `pat` at or after `from` precedes the one found. */
  lemma {:induction false} IndexFromFirst(s: string, pat: string, from: nat)
    ensures var i := IndexFrom(s, pat, from);
      forall j :: from <= j && (i == -1 || j < i) ==> !OccursAt(s, pat, j)
    decreases |s| - from
  {
    if from + |pat| <= |s| && s[from..from + |pat|] != pat {
      IndexFromFirst(s, pat, from + 1);
    }
  }

  /** `s.indexOf(pat)`. */
  function IndexOf(s: string, pat: string): int
  {
    IndexFrom(s, pat, 0)
  }

  /** `s.replace(pat, rep)` with a string pattern: only the FIRST occurrence
      of `pat` is replaced (`rep` holds no `$` patterns where it is used). */
  function ReplaceFirst(s: string, pat: string, rep: string): string
  {
    var i := IndexOf(s, pat);
    if i < 0 then s else s[..i] + rep + s[i + |pat|..]
  }

  /** The basename of an entry joined onto its directory is the entry name. */
  lemma BasenameOfJoin(dir: string, name: string)
    requires name != [] && forall j :: 0 <= j < |name| ==> name[j] != '/'
    ensures Basename(Join(dir, name)) == name
  {
    var pre := if dir == "" then "" else if dir[|dir| - 1] == '/' then dir else dir + "/";
    var p := Join(dir, name);
    assert p == pre + name;
    assert pre == [] || pre[|pre| - 1] == '/';
    assert TrimTrailingSlashes(p) == p;
    assert forall j :: |pre| <= j < |p| ==> p[j] == name[j - |pre|];
    if pre != [] {
      assert p[|pre| - 1] == '/';
    }
    SegmentStartShape(p);
    assert SegmentStart(p) == |pre|;
  }

  /** `extname` is ".md" exactly when the basename is longer than ".md" and
      ends with it. */
  lemma ExtnameIsMarkdown(p: string)
    ensures Extname(p) == ".md" <==> |Basename(p)| > 3 && EndsWith(Basename(p), ".md")
  {
    var b := Basename(p);
    var i := LastDot(b);
    LastDotShape(b);
    if |b| > 3 && EndsWith(b, ".md") {
      assert b[|b| - 3] == '.' && b[|b| - 2] == 'm' && b[|b| - 1] == 'd';
      assert i == |b| - 3;
    }
    if Extname(p) == ".md" {
      assert 0 < i && b[i..] == ".md";
    }
  }

  /** Removing the first ".md" from a path whose only ".md" is its suffix
      gives the path without that suffix. */
  lemma ReplaceSuffixOnly(s: string)
    requires EndsWith(s, ".md") && IndexOf(s, ".md") == |s| - 3
    ensures ReplaceFirst(s, ".md", "") + ".md" == s
  {
    assert s[|s| - 3 + 3..] == [];
    assert s[..|s| - 3] + ".md" == s;
  }

  /** When `y + ".md"` and `".md" + y` differ, `y` holds a character that
      is not one of '.', 'm' and 'd'. */
  lemma {:induction false} ShiftedByMarkdown(y: string, j: nat)
    requires y + ".md" == ".md" + y
    requires j < |y|
    ensures y[j] == '.' || y[j] == 'm' || y[j] == 'd'
    decreases j
  {
    assert (y + ".md")[j] == y[j];
    if j >= 3 {
      assert (".md" + y)[j] == y[j - 3];
      ShiftedByMarkdown(y, j - 3);
    } else {
      assert (".md" + y)[j] == ".md"[j];
    }
  }

  /** The first ".md" of `x + ".md" + rest` is the one after `x` when `x`
      has no '.'. */
  lemma ReplaceFirstAfter(x: string, rest: string)
    requires forall i :: 0 <= i < |x| ==> x[i] != '.'
    ensures ReplaceFirst(x + ".md" + rest, ".md", "") == x + rest
  {
    var p := x + ".md" + rest;
    var i := IndexFrom(p, ".md", 0);
    assert OccursAt(p, ".md", |x|) by {
      assert p[|x|..|x| + 3] == ".md";
    }
    forall k | 0 <= k < |x|
      ensures !OccursAt(p, ".md", k)
    {
      assert p[k] == x[k];
      if k + 3 <= |p| {
        assert p[k..k + 3][0] == p[k];
      }
    }
    IndexFromFirst(p, ".md", 0);
    assert i == |x|;
    assert p[..|x|] == x;
    assert p[|x| + 3..] == rest;
  }

  /** A slash-free path longer than ".md" that ends with it has extension
      ".md". */
  lemma PlainMarkdownPath(p: string)
    requires forall i :: 0 <= i < |p| ==> p[i] != '/'
    requires |p| > 3 && EndsWith(p, ".md")
    ensures Extname(p) == ".md"
  {
    BasenameOfJoin("", p);
    ExtnameIsMarkdown(p);
  }

  /** Moving ".md" in front of `y` changes the string unless `y` is made of
      '.', 'm' and 'd' only. */
  lemma MovedMarkdownDiffers(x: string, y: string, j: nat)
    requires j < |y| && y[j] != '.' && y[j] != 'm' && y[j] != 'd'
    ensures x + y + ".md" + ".md" != x + ".md" + y + ".md"
  {
    var q := x + y + ".md" + ".md";
    var p := x + ".md" + y + ".md";
    if q == p {
      forall i | 0 <= i < |y| + 3
        ensures (y + ".md")[i] == (".md" + y)[i]
      {
        assert (y + ".md")[i] == q[|x| + i];
        assert (".md" + y)[i] == p[|x| + i];
      }
      assert y + ".md" == ".md" + y;
      ShiftedByMarkdown(y, j);
    }
  }

  /** `replace` removes the FIRST ".md", which need not be the extension:
      for `x + ".md" + y + ".md"` (such as "a.md.b.md", with x = "a" and
      y = ".b") it leaves `x + y + ".md"`, so the path read back,
      `x + y + ".md.md"`, is not the file itself. */
  lemma ReplaceHitsEarlierOccurrence(x: string, y: string, j: nat)
    requires forall i :: 0 <= i < |x| ==> x[i] != '/' && x[i] != '.'
    requires forall i :: 0 <= i < |y| ==> y[i] != '/'
    requires j < |y| && y[j] != '.' && y[j] != 'm' && y[j] != 'd'
    ensures var p := x + ".md" + y + ".md";
      Extname(p) == ".md" &&
      ReplaceFirst(p, ".md", "") == x + y + ".md" &&
      ReplaceFirst(p, ".md", "") + ".md" != p
  {
    var p := x + ".md" + y + ".md";
    var rest := y + ".md";
    assert p == x + ".md" + rest;
    ReplaceFirstAfter(x, rest);
    assert x + rest == x + y + ".md";
    assert forall i :: 0 <= i < |p| ==> p[i] != '/' by {
      forall i | 0 <= i < |p|
        ensures p[i] != '/'
      {
        if i < |x| {
          assert p[i] == x[i];
        } else if i < |x| + 3 {
          assert p[i] == ".md"[i - |x|];
        } else {
          assert p[i] == rest[i - |x| - 3];
        }
      }
    }
    assert EndsWith(p, ".md");
    PlainMarkdownPath(p);
    MovedMarkdownDiffers(x, y, j);
  }
}
