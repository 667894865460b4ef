/**
 * String searching as the converter's Python string methods do it:
 * `startswith`, `endswith`, `find`, `split` and `replace`.
 */
module Text {
  import opened Wrappers

  predicate StartsWith(s: string, p: string) {
    |p| <= |s| && s[..|p|] == p
  }

  predicate EndsWith(s: string, p: string) {
    |p| <= |s| && s[|s| - |p|..] == p
  }

  /**
   * The character at index `j`. Quantified facts about characters are stated with it so that
   * they are used only where a proof names a position.
   */
  function At(s: string, j: int): char
    requires 0 <= j < |s|
  {
    s[j]
  }

  /** `d` occurs in `s` starting at index `j`. */
  predicate OccursAt(s: string, d: string, j: int) {
    0 <= j && j + |d| <= |s| && SameAt(s, d, j)
  }

  /** The characters of `s` from `j` on are those of `d`, one by one. */
  predicate SameAt(s: string, d: string, j: int)
    requires 0 <= j && j + |d| <= |s|
    decreases |d|
  {
    |d| == 0 || (s[j] == d[0] && SameAt(s, d[1..], j + 1))
  }

  /** Comparing one by one is comparing the slice. */
  lemma {:induction false} SameAtSlice(s: string, d: string, j: int)
    requires 0 <= j && j + |d| <= |s|
    ensures SameAt(s, d, j) <==> s[j..j + |d|] == d
    decreases |d|
  {
    if |d| > 0 {
      SameAtSlice(s, d[1..], j + 1);
      assert s[j..j + |d|] == [s[j]] + s[j + 1..j + 1 + |d[1..]|];
      assert d == [d[0]] + d[1..];
    }
  }

  /** One occurrence is one slice equal to `d`. */
  lemma OccursAtIff(s: string, d: string, j: int)
    requires 0 <= j && j + |d| <= |s|
    ensures OccursAt(s, d, j) <==> s[j..j + |d|] == d
  {
    SameAtSlice(s, d, j);
  }

  predicate Contains(s: string, d: string) {
    exists j :: 0 <= j <= |s| && OccursAt(s, d, j)
  }

  /** `str.find(d, from)`: the first occurrence of `d` at or after `from`. */
  function Find(s: string, d: string, from: nat): (r: Option<nat>)
    decreases |s| - from
    ensures r.Some? ==> from <= r.value && OccursAt(s, d, r.value)
    ensures r.Some? ==> forall j :: from <= j < r.value ==> !OccursAt(s, d, j)
    ensures r.None? ==> forall j :: from <= j ==> !OccursAt(s, d, j)
  {
    if from + |d| > |s| then None
    else if OccursAt(s, d, from) then Some(from)
    else Find(s, d, from + 1)
  }

  /** `sep.join(parts)`. */
  function JoinWith(parts: seq<string>, sep: string): string
    decreases |parts|
  {
    if |parts| == 0 then ""
    else if |parts| == 1 then parts[0]
    else parts[0] + sep + JoinWith(parts[1..], sep)
  }

  /** `s.split(sep)`; Python refuses an empty separator. */
  function Split(s: string, sep: string): (r: seq<string>)
    requires |sep| > 0
    decreases |s|
    ensures |r| >= 1
  {
    match Find(s, sep, 0)
    case None => [s]
    case Some(j) => [s[..j]] + Split(s[j + |sep|..], sep)
  }

  /** No part of a split holds the separator, and joining the parts with it gives the text back. */
  lemma {:induction false} SplitParts(s: string, sep: string)
    requires |sep| > 0
    decreases |s|
    ensures forall i :: 0 <= i < |Split(s, sep)| ==> !Contains(Split(s, sep)[i], sep)
    ensures JoinWith(Split(s, sep), sep) == s
  {
    match Find(s, sep, 0)
    case None =>
    case Some(j) =>
      var rest := Split(s[j + |sep|..], sep);
      SplitParts(s[j + |sep|..], sep);
      assert !Contains(s[..j], sep) by {
        forall i | 0 <= i <= j ensures !OccursAt(s[..j], sep, i) {
          if i + |sep| <= j {
            assert !OccursAt(s, sep, i);
            OccursAtIff(s, sep, i);
            OccursAtIff(s[..j], sep, i);
            assert s[..j][i..i + |sep|] == s[i..i + |sep|];
          }
        }
      }
      OccursAtIff(s, sep, j);
      assert s == s[..j] + sep + s[j + |sep|..];
      var r := [s[..j]] + rest;
      assert Split(s, sep) == r;
      forall i | 0 <= i < |r| ensures !Contains(r[i], sep) {
        if i > 0 {
          assert r[i] == rest[i - 1];
        }
      }
  }

  /** Splitting at a one-character separator that joins `x` and `y` splits `x` and `y` separately. */
  lemma {:induction false} SplitAtSep(x: string, sep: string, y: string)
    requires |sep| == 1
    ensures Split(x + sep + y, sep) == Split(x, sep) + Split(y, sep)
    decreases |x|
  {
    var s := x + sep + y;
    FindAcrossSep(x, sep, y);
    match Find(x, sep, 0)
    case None =>
      assert s[..|x|] == x && s[|x| + 1..] == y;
    case Some(j) =>
      var x' := x[j + 1..];
      assert s[j + 1..] == x' + sep + y;
      SplitAtSep(x', sep, y);
      assert s[..j] == x[..j];
  }

  /** The first one-character separator in `x + sep + y` is the first in `x`, or the one after `x`. */
  lemma FindAcrossSep(x: string, sep: string, y: string)
    requires |sep| == 1
    ensures Find(x + sep + y, sep, 0) == if Find(x, sep, 0).Some? then Find(x, sep, 0) else Some(|x|)
  {
    var s := x + sep + y;
    OccursAtIff(s, sep, |x|);
    assert s[|x|..|x| + 1] == sep;
    forall i | 0 <= i < |x| ensures OccursAt(s, sep, i) == OccursAt(x, sep, i) {
      OccursAtIff(s, sep, i);
      OccursAtIff(x, sep, i);
      assert s[i..i + 1] == x[i..i + 1];
    }
  }

  /** A slice of a slice is a slice of the whole. */
  lemma SliceOfSlice(t: string, i: nat, e: nat, x: nat, y: nat)
    requires i <= e <= |t| && x <= y <= e - i
    ensures t[i..e][x..y] == t[i + x..i + y]
  {
    var w := t[i..e];
    assert |w[x..y]| == |t[i + x..i + y]|;
    forall z | 0 <= z < y - x ensures w[x..y][z] == t[i + x..i + y][z] {
      assert w[x + z] == t[i + x + z];
    }
  }

  /** Regrouping a concatenation of four strings inside two more. */
  lemma Regroup4(a: string, x: string, y: string, z: string, w: string, b: string)
    ensures a + (x + y + z + w) + b == a + x + y + z + w + b
  {
  }

  /** `s[a:-b]` in Python, for `b >= 1`: empty when the bounds cross. */
  function Trim(s: string, a: nat, b: nat): (r: string)
    requires b >= 1
    ensures a + b <= |s| ==> r == s[a..|s| - b]
    ensures a + b > |s| ==> r == ""
  {
    if a + b <= |s| then s[a..|s| - b] else ""
  }

  /** `s.replace(pat, rep)`: every non-overlapping occurrence, scanning left to right. */
  function ReplaceAll(s: string, pat: string, rep: string): string
    requires |pat| > 0
    decreases |s|
  {
    if |s| < |pat| then s
    else if OccursAt(s, pat, 0) then rep + ReplaceAll(s[|pat|..], pat, rep)
    else [s[0]] + ReplaceAll(s[1..], pat, rep)
  }

  /** A character that cannot start the pattern is copied and the replacement goes on after it. */
  lemma ReplaceAllSkip(c: char, s: string, pat: string, rep: string)
    requires |pat| > 0 && pat[0] != c
    ensures ReplaceAll([c] + s, pat, rep) == [c] + ReplaceAll(s, pat, rep)
  {
    var cs := [c] + s;
    assert cs[1..] == s;
  }

  /** Replacing a string that does not occur leaves the text as it was. */
  lemma {:induction false} ReplaceAllAbsent(s: string, pat: string, rep: string)
    requires |pat| > 0
    requires !Contains(s, pat)
    ensures ReplaceAll(s, pat, rep) == s
    decreases |s|
  {
    if |s| >= |pat| {
      assert !OccursAt(s, pat, 0);
      OccursAtIff(s, pat, 0);
      forall j | 0 <= j <= |s[1..]| ensures !OccursAt(s[1..], pat, j) {
        assert !OccursAt(s, pat, j + 1);
        if j + |pat| <= |s[1..]| {
          OccursAtIff(s, pat, j + 1);
          OccursAtIff(s[1..], pat, j);
          assert s[1..][j..j + |pat|] == s[j + 1..j + 1 + |pat|];
        }
      }
      ReplaceAllAbsent(s[1..], pat, rep);
    }
  }

  /** An occurrence at the start is replaced and the replacement goes on after it. */
  lemma ReplaceAllAtStart(pat: string, b: string, rep: string)
    requires |pat| > 0
    ensures ReplaceAll(pat + b, pat, rep) == rep + ReplaceAll(b, pat, rep)
  {
    var s := pat + b;
    OccursAtIff(s, pat, 0);
    assert s[0..|pat|] == pat;
    assert s[|pat|..] == b;
  }

  /**
   * At a character `c` that `pat` does not contain no occurrence can straddle, so replacing
   * in `x + [c] + y` is replacing in `x` and in `y` separately.
   */
  lemma {:induction false} ReplaceAllCut(x: string, c: char, y: string, pat: string, rep: string)
    requires |pat| > 0 && c !in pat
    ensures ReplaceAll(x + [c] + y, pat, rep) == ReplaceAll(x, pat, rep) + [c] + ReplaceAll(y, pat, rep)
    decreases |x|, 2
  {
    var s := x + [c] + y;
    if |x| == 0 {
      assert s == [c] + y;
      assert pat[0] in pat;
      ReplaceAllSkip(c, y, pat, rep);
      assert ReplaceAll(x, pat, rep) == [];
    } else if |s| < |pat| {
      assert ReplaceAll(s, pat, rep) == s;
      assert ReplaceAll(x, pat, rep) == x;
      assert ReplaceAll(y, pat, rep) == y;
    } else if |x| < |pat| {
      ReplaceAllCutShort(x, c, y, pat, rep);
    } else {
      ReplaceAllCutLong(x, c, y, pat, rep);
    }
  }

  /** `ReplaceAllCut` when `x` is shorter than `pat`: no occurrence starts in `x`. */
  lemma {:induction false} ReplaceAllCutShort(x: string, c: char, y: string, pat: string, rep: string)
    requires c !in pat && 0 < |x| < |pat| <= |x| + 1 + |y|
    ensures ReplaceAll(x + [c] + y, pat, rep) == ReplaceAll(x, pat, rep) + [c] + ReplaceAll(y, pat, rep)
    decreases |x|, 0
  {
    var s := x + [c] + y;
    var ry := ReplaceAll(y, pat, rep);
    OccursAtIff(s, pat, 0);
    assert s[|x|] == c && pat[|x|] in pat;
    assert !OccursAt(s, pat, 0);
    assert s[1..] == x[1..] + [c] + y;
    ReplaceAllCut(x[1..], c, y, pat, rep);
    assert ReplaceAll(x[1..], pat, rep) == x[1..];
    assert ReplaceAll(x, pat, rep) == x;
    calc {
      ReplaceAll(s, pat, rep);
      [s[0]] + ReplaceAll(s[1..], pat, rep);
      [x[0]] + (x[1..] + [c] + ry);
      ([x[0]] + x[1..]) + [c] + ry;
      { assert [x[0]] + x[1..] == x; }
      x + [c] + ry;
    }
  }

  /** `ReplaceAllCut` when `x` is at least as long as `pat`: the first step is decided inside `x`. */
  lemma {:induction false} ReplaceAllCutLong(x: string, c: char, y: string, pat: string, rep: string)
    requires c !in pat && 0 < |pat| <= |x|
    ensures ReplaceAll(x + [c] + y, pat, rep) == ReplaceAll(x, pat, rep) + [c] + ReplaceAll(y, pat, rep)
    decreases |x|, 1
  {
    var s := x + [c] + y;
    OccursAtPrefix(x, [c] + y, pat);
    assert s == x + ([c] + y);
    if OccursAt(x, pat, 0) {
      ReplaceAllCutMatch(x, c, y, pat, rep);
    } else {
      ReplaceAllCutStep(x, c, y, pat, rep);
    }
  }

  /** Whether `d` occurs at the start of `x` is decided by `x` alone once `x` is long enough. */
  lemma OccursAtPrefix(x: string, z: string, d: string)
    requires |d| <= |x|
    ensures OccursAt(x + z, d, 0) <==> OccursAt(x, d, 0)
  {
    OccursAtIff(x + z, d, 0);
    OccursAtIff(x, d, 0);
    assert (x + z)[0..|d|] == x[0..|d|];
  }

  /** `ReplaceAllCut` when `pat` occurs at the start of `x`. */
  lemma {:induction false} ReplaceAllCutMatch(x: string, c: char, y: string, pat: string, rep: string)
    requires c !in pat && 0 < |pat| <= |x| && OccursAt(x, pat, 0) && OccursAt(x + [c] + y, pat, 0)
    ensures ReplaceAll(x + [c] + y, pat, rep) == ReplaceAll(x, pat, rep) + [c] + ReplaceAll(y, pat, rep)
    decreases |x|, 0
  {
    var s := x + [c] + y;
    var ry := ReplaceAll(y, pat, rep);
    var x' := x[|pat|..];
    assert s[|pat|..] == x' + [c] + y;
    ReplaceAllCut(x', c, y, pat, rep);
    var rx' := ReplaceAll(x', pat, rep);
    assert ReplaceAll(x, pat, rep) == rep + rx';
    assert ReplaceAll(s, pat, rep) == rep + (rx' + [c] + ry);
    assert rep + (rx' + [c] + ry) == (rep + rx') + [c] + ry;
  }

  /** `ReplaceAllCut` when `pat` does not occur at the start of `x`. */
  lemma {:induction false} ReplaceAllCutStep(x: string, c: char, y: string, pat: string, rep: string)
    requires c !in pat && 0 < |pat| <= |x| && !OccursAt(x, pat, 0) && !OccursAt(x + [c] + y, pat, 0)
    ensures ReplaceAll(x + [c] + y, pat, rep) == ReplaceAll(x, pat, rep) + [c] + ReplaceAll(y, pat, rep)
    decreases |x|, 0
  {
    var s := x + [c] + y;
    var ry := ReplaceAll(y, pat, rep);
    var x' := x[1..];
    assert s[1..] == x' + [c] + y;
    ReplaceAllCut(x', c, y, pat, rep);
    var rx' := ReplaceAll(x', pat, rep);
    assert ReplaceAll(x, pat, rep) == [x[0]] + rx';
    assert ReplaceAll(s, pat, rep) == [s[0]] + (rx' + [c] + ry);
    assert [s[0]] + (rx' + [c] + ry) == ([x[0]] + rx') + [c] + ry;
  }

  /** An occurrence of `d` in `x + "\n" + y` must lie in `x` or in `y` when `d` has no line break. */
  lemma NoOccurrenceAcrossNewline(x: string, y: string, d: string)
    requires '\n' !in d
    requires !Contains(x, d) && !Contains(y, d)
    ensures !Contains(x + "\n" + y, d)
  {
    var s := x + "\n" + y;
    forall j | 0 <= j <= |s| ensures !OccursAt(s, d, j) {
      if j + |d| <= |s| {
        OccursAtIff(s, d, j);
      }
      if j + |d| <= |x| {
        OccursAtIff(x, d, j);
        assert s[j..j + |d|] == x[j..j + |d|];
        assert !OccursAt(x, d, j);
      } else if j > |x| {
        assert !OccursAt(y, d, j - |x| - 1);
        if j + |d| <= |s| {
          OccursAtIff(y, d, j - |x| - 1);
          assert s[j..j + |d|] == y[j - |x| - 1..j - |x| - 1 + |d|];
        }
      } else if j + |d| <= |s| {
        assert s[j..j + |d|][|x| - j] == s[|x|] == '\n';
      }
    }
  }

  /** A prefix none of whose characters can start `d` adds no occurrence of `d`. */
  lemma NoOccurrenceAfterPrefix(p: string, y: string, d: string)
    requires |d| > 0 && d[0] !in p
    requires !Contains(y, d)
    ensures !Contains(p + y, d)
  {
    var s := p + y;
    forall j | 0 <= j <= |s| ensures !OccursAt(s, d, j) {
      if j < |p| {
        assert s[j] == p[j];
      } else {
        assert !OccursAt(y, d, j - |p|);
        if j + |d| <= |s| {
          OccursAtIff(s, d, j);
          OccursAtIff(y, d, j - |p|);
          assert s[j..j + |d|] == y[j - |p|..j - |p| + |d|];
        }
      }
    }
  }

  /**
   * Splitting `x + sep + y` at `sep` first cuts right after `x`, provided `x` holds no `sep`
   * and ends with a line break that `sep` does not contain.
   */
  lemma {:induction false} SplitAfterLine(x: string, sep: string, y: string)
    requires |sep| > 0 && '\n' !in sep
    requires |x| > 0 && x[|x| - 1] == '\n'
    requires !Contains(x, sep)
    ensures Split(x + sep + y, sep) == [x] + Split(y, sep)
  {
    var s := x + sep + y;
    assert OccursAt(s, sep, |x|) by {
      OccursAtIff(s, sep, |x|);
      assert s[|x|..|x| + |sep|] == sep;
    }
    forall j | 0 <= j < |x| ensures !OccursAt(s, sep, j) {
      OccursAtIff(s, sep, j);
      if j + |sep| <= |x| {
        OccursAtIff(x, sep, j);
        assert s[j..j + |sep|] == x[j..j + |sep|];
        assert !OccursAt(x, sep, j);
      } else {
        assert s[j..j + |sep|][|x| - 1 - j] == s[|x| - 1] == '\n';
      }
    }
    var f := Find(s, sep, 0);
    assert f == Some(|x|);
    assert s[..|x|] == x;
    assert s[|x| + |sep|..] == y;
  }

  /** Joining two non-empty lists of parts is joining each and putting one separator between. */
  lemma {:induction false} JoinWithAppend(a: seq<string>, b: seq<string>, sep: string)
    requires |a| > 0 && |b| > 0
    ensures JoinWith(a + b, sep) == JoinWith(a, sep) + sep + JoinWith(b, sep)
    decreases |a|
  {
    if |a| > 1 {
      assert (a + b)[1..] == a[1..] + b;
      JoinWithAppend(a[1..], b, sep);
      assert JoinWith(a + b, sep) == a[0] + sep + (JoinWith(a[1..], sep) + sep + JoinWith(b, sep));
    } else {
      assert (a + b)[1..] == b;
    }
  }

  /** Lines none of which holds `d` joined by line breaks hold no `d` when `d` has no line break. */
  lemma {:induction false} NoOccurrenceInLines(lines: seq<string>, d: string)
    requires |d| > 0 && '\n' !in d
    requires forall i :: 0 <= i < |lines| ==> !Contains(lines[i], d)
    ensures !Contains(JoinWith(lines, "\n"), d)
    decreases |lines|
  {
    if |lines| == 0 {
      assert !OccursAt("", d, 0);
    } else if |lines| > 1 {
      NoOccurrenceInLines(lines[1..], d);
      assert !Contains(lines[0], d);
      NoOccurrenceAcrossNewline(lines[0], JoinWith(lines[1..], "\n"), d);
    } else {
      assert !Contains(lines[0], d);
    }
  }
}
