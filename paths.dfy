/**
 * POSIX path manipulation as Python's `posixpath` does it: `join` of two parts,
 * `split`, `basename`, `dirname` and `normpath` (purely textual, no file system access).
 */
module Paths {
  import opened Text

  /** `os.path.join(a, b)`. */
  function Join(a: string, b: string): string {
    if |b| > 0 && b[0] == '/' then b
    else if a == "" || a[|a| - 1] == '/' then a + b
    else a + "/" + b
  }

  /** One past the last `/` in `p`, or 0 when there is none. */
  function AfterLastSlash(p: string): (i: nat)
    decreases |p|
    ensures i <= |p|
    ensures i > 0 ==> p[i - 1] == '/'
    ensures forall j :: i <= j < |p| ==> p[j] != '/'
  {
    if |p| == 0 then 0
    else if p[|p| - 1] == '/' then |p|
    else AfterLastSlash(p[..|p| - 1])
  }

  predicate AllSlashes(s: string) {
    forall j :: 0 <= j < |s| ==> s[j] == '/'
  }

  /** `s` without its trailing slashes. */
  function StripTrailingSlashes(s: string): (r: string)
    decreases |s|
    ensures |r| <= |s| && r == s[..|r|]
    ensures r == "" || r[|r| - 1] != '/'
  {
    if |s| > 0 && s[|s| - 1] == '/' then StripTrailingSlashes(s[..|s| - 1]) else s
  }

  /** `os.path.split(p)`: the head without trailing slashes (unless it is all slashes) and the tail. */
  function PathSplit(p: string): (r: (string, string))
    ensures |r.0| <= |p|
    ensures r.1 != "" ==> |r.0| < |p|
    ensures '/' !in r.1
  {
    var i := AfterLastSlash(p);
    var head := p[..i];
    var tail := p[i..];
    assert forall j :: 0 <= j < |tail| ==> tail[j] == p[i + j];
    (if head != "" && !AllSlashes(head) then StripTrailingSlashes(head) else head, tail)
  }

  /** `os.path.basename(p)`. */
  function BaseName(p: string): string {
    PathSplit(p).1
  }

  /** `os.path.dirname(p)`. */
  function DirName(p: string): string {
    PathSplit(p).0
  }

  /** The `/`-separated components of `p`, empty ones included. */
  function Components(p: string): seq<string> {
    Split(p, "/")
  }

  /** The component loop of `posixpath.normpath`. */
  function Collapse(comps: seq<string>, rooted: bool, acc: seq<string>): seq<string>
    decreases |comps|
  {
    if comps == [] then acc
    else
      var c := comps[0];
      if c == "" || c == "." then Collapse(comps[1..], rooted, acc)
      else if c != ".." || (!rooted && acc == []) || (acc != [] && acc[|acc| - 1] == "..") then
        Collapse(comps[1..], rooted, acc + [c])
      else if acc != [] then Collapse(comps[1..], rooted, acc[..|acc| - 1])
      else Collapse(comps[1..], rooted, acc)
  }

  /** `os.path.normpath(p)`: collapses `.`, `..` and repeated separators; keeps exactly two leading `//`. */
  function NormPath(p: string): (r: string)
    ensures r != ""
  {
    if p == "" then "."
    else
      var lead := if StartsWith(p, "//") && !StartsWith(p, "///") then "//"
                  else if StartsWith(p, "/") then "/" else "";
      var r := lead + JoinWith(Collapse(Components(p), lead != "", []), "/");
      if r == "" then "." else r
  }

  /** Cutting `pre + n` after its last slash gives `n` when `pre` is empty or ends with a slash. */
  lemma {:induction false} AfterLastSlashAppend(pre: string, n: string)
    requires pre == "" || pre[|pre| - 1] == '/'
    requires '/' !in n
    ensures AfterLastSlash(pre + n) == |pre|
    decreases |n|
  {
    if |n| == 0 {
      assert pre + n == pre;
    } else {
      assert (pre + n)[..|pre + n| - 1] == pre + n[..|n| - 1];
      AfterLastSlashAppend(pre, n[..|n| - 1]);
    }
  }

  /**
   * `os.path.split` undoes `os.path.join` of a directory and a plain file name:
   * the name comes back as the tail and the directory as the head.
   */
  lemma SplitJoin(d: string, n: string)
    requires '/' !in n
    requires d == "" || d[|d| - 1] != '/'
    ensures PathSplit(Join(d, n)) == (d, n)
  {
    var pre := if d == "" then "" else d + "/";
    assert Join(d, n) == pre + n;
    AfterLastSlashAppend(pre, n);
    assert (pre + n)[..|pre|] == pre;
    assert (pre + n)[|pre|..] == n;
    if d != "" {
      assert !AllSlashes(pre) by {
        assert pre[|d| - 1] == d[|d| - 1];
      }
      assert pre[..|pre| - 1] == d;
      assert StripTrailingSlashes(d) == d;
      assert StripTrailingSlashes(pre) == StripTrailingSlashes(d);
    }
  }

  /**
   * The directory of a joined path is the directory that was joined, without trailing
   * slashes unless it is all slashes: the same directory once normalised.
   */
  lemma DirNameJoin(d: string, n: string)
    requires '/' !in n
    ensures DirName(Join(d, n)) == if d != "" && !AllSlashes(d) then StripTrailingSlashes(d) else d
    ensures NormPath(DirName(Join(d, n))) == NormPath(d)
  {
    if d == "" || d[|d| - 1] != '/' {
      SplitJoin(d, n);
      if d != "" {
        assert !AllSlashes(d);
      }
    } else {
      assert Join(d, n) == d + n;
      AfterLastSlashAppend(d, n);
      assert (d + n)[..|d|] == d;
      if !AllSlashes(d) {
        NormStrip(d);
      }
    }
  }

  /** The base name of a joined path is the file name that was joined (what makes the output name). */
  lemma BaseNameJoin(d: string, n: string)
    requires '/' !in n
    ensures BaseName(Join(d, n)) == n
  {
    var pre := if d == "" || d[|d| - 1] == '/' then d else d + "/";
    assert Join(d, n) == pre + n;
    AfterLastSlashAppend(pre, n);
    assert (pre + n)[|pre|..] == n;
  }

  /** Running the component loop over `a + b` runs it over `a`, then over `b`. */
  lemma {:induction false} CollapseAppend(a: seq<string>, b: seq<string>, rooted: bool, acc: seq<string>)
    ensures Collapse(a + b, rooted, acc) == Collapse(b, rooted, Collapse(a, rooted, acc))
    decreases |a|
  {
    if a == [] {
      assert a + b == b;
    } else {
      var c := a[0];
      assert (a + b)[0] == c && (a + b)[1..] == a[1..] + b;
      var acc' := if c == "" || c == "." then acc
                  else if c != ".." || (!rooted && acc == []) || (acc != [] && acc[|acc| - 1] == "..") then acc + [c]
                  else if acc != [] then acc[..|acc| - 1] else acc;
      CollapseAppend(a[1..], b, rooted, acc');
    }
  }

  /**
   * A prefix of slashes is decided by `x` alone when `x` holds some other character, or when
   * what follows `x` does not start with a slash.
   */
  lemma SlashPrefix(x: string, z: string, s: string)
    requires AllSlashes(s)
    requires !AllSlashes(x) || (|z| > 0 && z[0] != '/')
    ensures StartsWith(x + z, s) == StartsWith(x, s)
  {
    if |s| <= |x| {
      assert (x + z)[..|s|] == x[..|s|];
    } else if |s| <= |x + z| {
      if !AllSlashes(x) {
        var j :| 0 <= j < |x| && x[j] != '/';
        assert (x + z)[..|s|][j] == x[j] != s[j];
      } else {
        assert (x + z)[..|s|][|x|] == z[0] != s[|x|];
      }
    }
  }

  /** Two paths with the same leading slashes whose components collapse alike normalise alike. */
  lemma NormPathSame(p: string, q: string)
    requires p != "" && q != ""
    requires forall s :: s in {"/", "//", "///"} ==> StartsWith(p, s) == StartsWith(q, s)
    requires forall rooted: bool :: Collapse(Components(p), rooted, []) == Collapse(Components(q), rooted, [])
    ensures NormPath(p) == NormPath(q)
  {
    assert StartsWith(p, "/") == StartsWith(q, "/");
    assert StartsWith(p, "//") == StartsWith(q, "//");
    assert StartsWith(p, "///") == StartsWith(q, "///");
  }

  lemma SlashLeads(x: string, z: string)
    requires !AllSlashes(x) || (|z| > 0 && z[0] != '/')
    ensures forall s :: s in {"/", "//", "///"} ==> StartsWith(x + z, s) == StartsWith(x, s)
  {
    assert AllSlashes("/") && AllSlashes("//") && AllSlashes("///");
    SlashPrefix(x, z, "/");
    SlashPrefix(x, z, "//");
    SlashPrefix(x, z, "///");
  }

  /** A trailing slash does not change a path that holds a character other than `/`. */
  lemma NormTrailingSlash(x: string)
    requires !AllSlashes(x)
    ensures NormPath(x + "/") == NormPath(x)
  {
    SlashLeads(x, "/");
    assert x + "/" == x + "/" + "";
    SplitAtSep(x, "/", "");
    assert Split("", "/") == [""];
    forall rooted: bool ensures Collapse(Components(x + "/"), rooted, []) == Collapse(Components(x), rooted, []) {
      CollapseAppend(Split(x, "/"), [""], rooted, []);
    }
    NormPathSame(x + "/", x);
  }

  /** A `.` after a trailing slash does not change the path. */
  lemma NormTrailingDot(y: string)
    requires |y| > 0 && y[|y| - 1] == '/'
    ensures NormPath(y + ".") == NormPath(y)
  {
    SlashLeads(y, ".");
    var y' := y[..|y| - 1];
    assert y == y' + "/" + "" && y + "." == y' + "/" + ".";
    SplitAtSep(y', "/", "");
    SplitAtSep(y', "/", ".");
    assert Split("", "/") == [""];
    assert Split(".", "/") == ["."];
    forall rooted: bool ensures Collapse(Components(y + "."), rooted, []) == Collapse(Components(y), rooted, []) {
      CollapseAppend(Split(y', "/"), [""], rooted, []);
      CollapseAppend(Split(y', "/"), ["."], rooted, []);
    }
    NormPathSame(y + ".", y);
  }

  /** Trailing slashes do not change a path that holds a character other than `/`. */
  lemma {:induction false} NormStrip(s: string)
    requires !AllSlashes(s)
    ensures NormPath(StripTrailingSlashes(s)) == NormPath(s)
    decreases |s|
  {
    if s[|s| - 1] == '/' {
      var s' := s[..|s| - 1];
      assert s == s' + "/";
      assert !AllSlashes(s') by {
        var j :| 0 <= j < |s| && s[j] != '/';
        assert s'[j] == s[j];
      }
      NormTrailingSlash(s');
      NormStrip(s');
    }
  }

  /** A path whose last component is `.` normalises as its head. */
  lemma NormDotTail(p: string)
    requires PathSplit(p).1 == "."
    ensures NormPath(p) == NormPath(PathSplit(p).0)
  {
    var i := AfterLastSlash(p);
    var head := p[..i];
    assert p[i..] == "." && p == head + ".";
    if i == 0 {
      assert p == ".";
      assert Split(".", "/") == ["."];
      assert Collapse(["."], false, []) == [];
    } else {
      NormTrailingDot(head);
      if !AllSlashes(head) {
        NormStrip(head);
      }
    }
  }

  /**
   * When `os.makedirs` stops at a last component `.` (after one trailing separator is
   * dropped), the path normalises as the head it created.
   */
  lemma NormDotStep(name: string)
    ensures var (h0, t0) := PathSplit(name);
            var (h, t) := if t0 == "" then PathSplit(h0) else (h0, t0);
            t == "." ==> NormPath(name) == NormPath(h)
  {
    var (h0, t0) := PathSplit(name);
    if t0 == "." {
      NormDotTail(name);
    } else if t0 == "" && PathSplit(h0).1 == "." {
      var i := AfterLastSlash(name);
      assert i == |name| && name[..i] == name;
      if name != "" && !AllSlashes(name) {
        NormStrip(name);
        NormDotTail(h0);
      }
    }
  }
}
