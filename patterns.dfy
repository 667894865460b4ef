/**
 * Hand-written matchers for the three resource patterns of html_converter.py,
 * with the match Python's `re` module finds:
 *   image       <img[^>]*src="([^"]+)"[^>]*>
 *   stylesheet  <link[^>]*rel="stylesheet"[^>]*href="([^"]+)"[^>]*>
 *   script      <script[^>]*src="([^"]+)"[^>]*></script>
 * Each pattern is an opener, an optional guard literal, an attribute literal that opens
 * the captured URL, and a closer. The greedy `[^>]*` before the attribute makes the
 * backtracking matcher try attribute positions from the tag's first `>` backwards, so
 * the LAST workable attribute occurrence is captured.
 */
module Patterns {
  import opened Wrappers
  import opened Text
  import opened Greedy

  /**
   * A tag pattern: the opener, an optional guard literal, the attribute literal that opens
   * the captured value, and the closer.
   */
  datatype Pattern = Pattern(opener: string, guard: string, attr: string, closer: string)

  /** The three kinds of reference the converter rewrites. */
  datatype Kind = Image | Stylesheet | Script

  /** The compiled patterns of `replace_images`, `replace_css` and `replace_js`. */
  function PatternOf(k: Kind): Pattern {
    match k
    case Image => Pattern("<img", "", "src=\"", ">")
    case Stylesheet => Pattern("<link", "rel=\"stylesheet\"", "href=\"", ">")
    case Script => Pattern("<script", "", "src=\"", "></script>")
  }

  /** A match `t[start..end]` whose captured group 1 is `t[urlStart..urlEnd]`. */
  datatype Match = Match(start: nat, urlStart: nat, urlEnd: nat, end: nat)

  /** The index of the first `c` at or after `i`, or `|t|` when there is none. */
  function Upto(t: string, i: nat, c: char): (r: nat)
    requires i <= |t|
    decreases |t| - i
    ensures i <= r <= |t|
    ensures r < |t| ==> t[r] == c
  {
    if i == |t| || t[i] == c then i else Upto(t, i + 1, c)
  }

  /** `Upto` skips no `c`. */
  lemma {:induction false} UptoSkips(t: string, i: nat, c: char)
    requires i <= |t|
    ensures forall j :: i <= j < Upto(t, i, c) ==> At(t, j) != c
    decreases |t| - i
  {
    if i < |t| && t[i] != c {
      UptoSkips(t, i + 1, c);
    }
  }

  /**
   * `([^"]+)"[^>]*` followed by the closer, with the value starting at `u`:
   * gives the end of the value and the end of the whole match.
   */
  function Capture(pat: Pattern, t: string, u: nat): (r: Option<(nat, nat)>)
    requires u <= |t|
    ensures r.Some? ==> u < r.value.0 < r.value.1 <= |t|
  {
    var q := Upto(t, u, '"');
    if q == u || q == |t| then None
    else
      var e := Upto(t, q + 1, '>');
      if OccursAt(t, pat.closer, e) then Some((q, e + |pat.closer|)) else None
  }

  /**
   * What `Capture` accepts: a value without quotes closed by a quote, then text without
   * `>` up to the closer.
   */
  lemma CaptureFacts(pat: Pattern, t: string, u: nat)
    requires u <= |t| && Capture(pat, t, u).Some?
    ensures var r := Capture(pat, t, u).value;
            t[r.0] == '"' && (forall j :: u <= j < r.0 ==> At(t, j) != '"') &&
            r.0 < r.1 - |pat.closer| && OccursAt(t, pat.closer, r.1 - |pat.closer|) &&
            (forall j :: r.0 < j < r.1 - |pat.closer| ==> At(t, j) != '>')
  {
    var q := Upto(t, u, '"');
    UptoSkips(t, u, '"');
    UptoSkips(t, q + 1, '>');
  }

  /** The attribute literal at `j` opens a value that the rest of the pattern accepts. */
  predicate Hit(pat: Pattern, t: string, j: int) {
    OccursAt(t, pat.attr, j) && Capture(pat, t, j + |pat.attr|).Some?
  }

  /** The positions of `t` where pattern `pat`'s attribute literal opens an accepted value. */
  function HitAt(pat: Pattern, t: string): int -> bool {
    j => Hit(pat, t, j)
  }

  /** The positions of `t` where pattern `pat`'s guard literal occurs. */
  function GuardAt(pat: Pattern, t: string): int -> bool {
    j => OccursAt(t, pat.guard, j)
  }

  /**
   * What every match of pattern `pat` in `t` satisfies: the opener at `start`, the attribute
   * literal before the tag head's first `>`, the value and the rest as `Capture` accepts
   * them, and the guard between the opener and the attribute (an empty guard occurs
   * anywhere).
   */
  predicate WellFormed(pat: Pattern, t: string, m: Match) {
    && m.start + |pat.opener| + |pat.attr| <= m.urlStart
    && OccursAt(t, pat.opener, m.start)
    && OccursAt(t, pat.attr, m.urlStart - |pat.attr|)
    && m.urlStart - |pat.attr| <= Upto(t, m.start + |pat.opener|, '>')
    && Capture(pat, t, m.urlStart) == Some((m.urlEnd, m.end))
    && exists g :: m.start + |pat.opener| <= g && g + |pat.guard| <= m.urlStart - |pat.attr| && OccursAt(t, pat.guard, g)
  }

  /** The positions of a well-formed match are in order and inside the text. */
  lemma WellFormedBounds(pat: Pattern, t: string, m: Match)
    requires WellFormed(pat, t, m)
    ensures m.start + |pat.opener| + |pat.attr| <= m.urlStart < m.urlEnd < m.end <= |t|
    ensures t[m.urlEnd] == '"' && forall j :: m.urlStart <= j < m.urlEnd ==> At(t, j) != '"'
    ensures m.urlEnd < m.end - |pat.closer| && OccursAt(t, pat.closer, m.end - |pat.closer|)
  {
    CaptureFacts(pat, t, m.urlStart);
  }

  /** A text onto which the positions of `m` fit, in order. */
  predicate Spans(t: string, m: Match) {
    m.start <= m.urlStart < m.urlEnd < m.end <= |t|
  }

  /** Cutting `t[x..y]` at `u` and around the quote at `e`. */
  lemma QuoteParts(t: string, x: nat, u: nat, e: nat, y: nat)
    requires x <= u <= e < y <= |t| && t[e] == '"'
    ensures t[x..y] == t[x..u] + t[u..e] + "\"" + t[e + 1..y]
  {
    assert t[e..e + 1] == "\"";
    assert t[x..y] == t[x..u] + t[u..e] + t[e..e + 1] + t[e + 1..y];
  }

  /** The match whose attribute literal is the hit at `j` and whose opener is at `i`. */
  function MatchFor(pat: Pattern, t: string, i: nat, j: nat): (m: Match)
    requires Hit(pat, t, j)
    ensures m.start == i && m.urlStart == j + |pat.attr|
    ensures Capture(pat, t, m.urlStart) == Some((m.urlEnd, m.end))
  {
    var c := Capture(pat, t, j + |pat.attr|).value;
    Match(i, j + |pat.attr|, c.0, c.1)
  }

  /** A hit at `j` after the opener at `i`, before the head's first `>`, is a well-formed match. */
  lemma HitIsMatch(pat: Pattern, t: string, i: nat, j: nat, g: nat)
    requires OccursAt(t, pat.opener, i) && i + |pat.opener| <= j && Hit(pat, t, j)
    requires j <= Upto(t, i + |pat.opener|, '>')
    requires i + |pat.opener| <= g && g + |pat.guard| <= j && OccursAt(t, pat.guard, g)
    ensures WellFormed(pat, t, MatchFor(pat, t, i, j))
  {
    var a := |pat.attr|;
    var m := MatchFor(pat, t, i, j);
    assert m.urlStart - a == j;
    assert m.start + |pat.opener| <= g && g + |pat.guard| <= m.urlStart - a && OccursAt(t, pat.guard, g);
  }

  /**
   * Where the backtracking matcher finds the attribute of a tag whose head runs from `lo`
   * to its first `>` at `p`: (guard position, attribute position). The attribute is the
   * last hit of the head, and the guard the last occurrence that ends before it; an empty
   * guard sits at the attribute itself (`AttrPosIsBacktracking` shows this is the pair the
   * backtracking order accepts first).
   */
  function AttrPos(pat: Pattern, t: string, lo: nat, p: nat): (r: Option<(int, int)>)
    ensures r.Some? ==> lo <= r.value.1 <= p && Hit(pat, t, r.value.1)
    ensures r.Some? ==>
      lo <= r.value.0 && r.value.0 + |pat.guard| <= r.value.1 && OccursAt(t, pat.guard, r.value.0)
  {
    PairBeforeLast(HitAt(pat, t), GuardAt(pat, t), |pat.guard|, lo, p, p)
  }

  /**
   * The opener at `i`, then `AttrPos` in the head up to its first `>`: the guard and
   * attribute positions of the match that starts at `i`, if any.
   */
  function TagAt(pat: Pattern, t: string, i: nat): (r: Option<(int, int)>)
    ensures r.Some? ==> OccursAt(t, pat.opener, i) && i + |pat.opener| <= r.value.1 && Hit(pat, t, r.value.1)
    ensures r.Some? ==> r.value.1 <= Upto(t, i + |pat.opener|, '>')
    ensures r.Some? ==>
      i + |pat.opener| <= r.value.0 && r.value.0 + |pat.guard| <= r.value.1 && OccursAt(t, pat.guard, r.value.0)
  {
    if !OccursAt(t, pat.opener, i) then None
    else
      var lo := i + |pat.opener|;
      AttrPos(pat, t, lo, Upto(t, lo, '>'))
  }

  /** The match of pattern `pat` that starts at `i`, if any. */
  function MatchAt(pat: Pattern, t: string, i: nat): (r: Option<Match>)
    ensures r.Some? ==> r.value.start == i
  {
    match TagAt(pat, t, i)
    case None => None
    case Some(gj) => Some(MatchFor(pat, t, i, gj.1))
  }

  /** What `MatchAt` finds is a well-formed match. */
  lemma MatchAtWellFormed(pat: Pattern, t: string, i: nat)
    requires MatchAt(pat, t, i).Some?
    ensures WellFormed(pat, t, MatchAt(pat, t, i).value)
  {
    var a := TagAt(pat, t, i).value;
    HitIsMatch(pat, t, i, a.1, a.0);
  }

  /**
   * Wherever a well-formed match starts, `MatchAt` finds one, and its value starts no
   * earlier than that match's.
   */
  lemma MatchAtComplete(pat: Pattern, t: string, m: Match)
    requires WellFormed(pat, t, m)
    ensures MatchAt(pat, t, m.start).Some?
    ensures m.urlStart <= MatchAt(pat, t, m.start).value.urlStart
  {
    var lo := m.start + |pat.opener|;
    var p := Upto(t, lo, '>');
    var j := m.urlStart - |pat.attr|;
    var g :| lo <= g && g + |pat.guard| <= j && OccursAt(t, pat.guard, g);
    assert HitAt(pat, t)(j) && GuardAt(pat, t)(g);
    PairBeforeLastComplete(HitAt(pat, t), GuardAt(pat, t), |pat.guard|, lo, p, p, g, j);
    var r := PairBeforeLast(HitAt(pat, t), GuardAt(pat, t), |pat.guard|, lo, p, p);
    MatchAtOfAttrPos(pat, t, m.start, lo, p, r);
  }

  /** After an opener, the match at `i` is the one whose attribute `AttrPos` finds in the tag's head. */
  lemma MatchAtOfAttrPos(pat: Pattern, t: string, i: nat, lo: nat, p: nat, r: Option<(int, int)>)
    requires OccursAt(t, pat.opener, i) && lo == i + |pat.opener| && lo <= |t| && p == Upto(t, lo, '>')
    requires r == PairBeforeLast(HitAt(pat, t), GuardAt(pat, t), |pat.guard|, lo, p, p) && r.Some?
    ensures MatchAt(pat, t, i).Some? && MatchAt(pat, t, i).value.urlStart == r.value.1 + |pat.attr|
  {
    assert TagAt(pat, t, i) == r;
  }

  /** A match starts at `i` exactly when some well-formed match does. */
  lemma MatchAtIff(pat: Pattern, t: string, i: nat)
    ensures MatchAt(pat, t, i).Some? <==> exists m: Match :: m.start == i && WellFormed(pat, t, m)
  {
    if MatchAt(pat, t, i).Some? {
      MatchAtWellFormed(pat, t, i);
    }
    if m: Match :| m.start == i && WellFormed(pat, t, m) {
      MatchAtComplete(pat, t, m);
    }
  }

  /** The positions of `t` where a match of `pat` starts. */
  function MatchStarts(pat: Pattern, t: string): int -> bool {
    i => 0 <= i && MatchAt(pat, t, i).Some?
  }

  /** `pattern.search(t, pos)`: the leftmost match starting at or after `pos`. */
  function Search(pat: Pattern, t: string, pos: nat): (r: Option<Match>)
    ensures r.Some? ==> pos <= r.value.start && MatchAt(pat, t, r.value.start) == r
  {
    match First(MatchStarts(pat, t), pos, |t| - 1)
    case None => None
    case Some(i) => MatchAt(pat, t, i)
  }

  /** What `Search` finds is a well-formed match, at or after `pos`. */
  lemma SearchFound(pat: Pattern, t: string, pos: nat)
    requires Search(pat, t, pos).Some?
    ensures var m := Search(pat, t, pos).value;
            pos <= m.start && WellFormed(pat, t, m) && m.start <= m.urlStart < m.urlEnd < m.end <= |t|
  {
    var m := Search(pat, t, pos).value;
    MatchAtWellFormed(pat, t, m.start);
    WellFormedBounds(pat, t, m);
  }

  /** No match starts past the end of the text. */
  lemma NoMatchPastEnd(pat: Pattern, t: string, i: nat)
    requires |t| <= i
    ensures MatchAt(pat, t, i).None?
  {
  }

  /** The match `Search` finds is the leftmost one; when it finds none, there is none. */
  lemma SearchLeftmost(pat: Pattern, t: string, pos: nat)
    ensures Search(pat, t, pos).Some? ==>
      forall i :: pos <= i < Search(pat, t, pos).value.start ==> MatchAt(pat, t, i).None?
    ensures Search(pat, t, pos).None? ==> forall i :: pos <= i ==> MatchAt(pat, t, i).None?
  {
    FirstLeftmost(MatchStarts(pat, t), pos, |t| - 1);
    var r := Search(pat, t, pos);
    forall i | pos <= i && (r.None? || i < r.value.start) ensures MatchAt(pat, t, i).None? {
      if i < |t| {
        assert !MatchStarts(pat, t)(i);
      } else {
        NoMatchPastEnd(pat, t, i);
      }
    }
  }

  /** `pattern.finditer(t, pos)`: the non-overlapping matches, left to right. */
  function Scan(pat: Pattern, t: string, pos: nat): (r: seq<Match>)
    decreases |t| - pos
  {
    match Search(pat, t, pos)
    case None => []
    case Some(m) =>
      SearchFound(pat, t, pos);
      [m] + Scan(pat, t, m.end)
  }

  /**
   * `ms` are matches of pattern `pat`, left to right, none overlapping the next, the first
   * at or after `pos`.
   */
  predicate Chained(pat: Pattern, t: string, pos: nat, ms: seq<Match>)
    decreases |ms|
  {
    |ms| == 0 ||
    (pos <= ms[0].start && MatchAt(pat, t, ms[0].start) == Some(ms[0]) && Chained(pat, t, ms[0].end, ms[1..]))
  }

  /** A scan is a chain of matches. */
  lemma {:induction false} ScanChained(pat: Pattern, t: string, pos: nat)
    ensures Chained(pat, t, pos, Scan(pat, t, pos))
    decreases |t| - pos
  {
    var r := Search(pat, t, pos);
    if r.Some? {
      var m := r.value;
      SearchFound(pat, t, pos);
      ScanChained(pat, t, m.end);
      assert Scan(pat, t, pos) == [m] + Scan(pat, t, m.end);
      assert Scan(pat, t, pos)[1..] == Scan(pat, t, m.end);
    }
  }

  /** Element `i` of a chain is a match at or after `pos`, and it ends before element `i + 1` starts. */
  lemma {:induction false} ChainedAt(pat: Pattern, t: string, pos: nat, ms: seq<Match>, i: nat)
    requires Chained(pat, t, pos, ms) && i < |ms|
    ensures pos <= ms[i].start && MatchAt(pat, t, ms[i].start) == Some(ms[i])
    ensures i + 1 < |ms| ==> ms[i].end <= ms[i + 1].start
    decreases i
  {
    if i > 0 {
      ChainedAt(pat, t, ms[0].end, ms[1..], i - 1);
      MatchAtWellFormed(pat, t, ms[0].start);
      WellFormedBounds(pat, t, ms[0]);
    }
  }

  /**
   * Every element of a scan is the match `MatchAt` finds at its start, at or after `pos`,
   * and each ends before the next begins.
   */
  lemma ScanMatches(pat: Pattern, t: string, pos: nat, i: nat)
    requires i < |Scan(pat, t, pos)|
    ensures var ms := Scan(pat, t, pos);
            pos <= ms[i].start && MatchAt(pat, t, ms[i].start) == Some(ms[i]) &&
            (i + 1 < |ms| ==> ms[i].end <= ms[i + 1].start)
  {
    ScanChained(pat, t, pos);
    ChainedAt(pat, t, pos, Scan(pat, t, pos), i);
  }

  /** `i` lies between the end of `ms[k]` and the start of `ms[k + 1]`, or after the end of the last. */
  predicate InGap(ms: seq<Match>, k: int, i: int) {
    0 <= k < |ms| && ms[k].end <= i && (k + 1 == |ms| || i < ms[k + 1].start)
  }

  /**
   * A scan skips no match: none starts between `pos` and the first element, between the
   * end of one element and the start of the next, or after the end of the last (after
   * `pos` when the scan is empty).
   */
  lemma {:induction false} ScanComplete(pat: Pattern, t: string, pos: nat)
    ensures var ms := Scan(pat, t, pos);
            forall i :: pos <= i && (|ms| == 0 || i < ms[0].start) ==> MatchAt(pat, t, i).None?
    ensures var ms := Scan(pat, t, pos);
            forall k, i :: InGap(ms, k, i) ==> MatchAt(pat, t, i).None?
    decreases |t| - pos
  {
    SearchLeftmost(pat, t, pos);
    var ms := Scan(pat, t, pos);
    var r := Search(pat, t, pos);
    if r.None? {
      assert ms == [];
    } else {
      var m := r.value;
      SearchFound(pat, t, pos);
      ScanComplete(pat, t, m.end);
      var rest := Scan(pat, t, m.end);
      assert ms == [m] + rest;
      forall k, i | InGap(ms, k, i) ensures MatchAt(pat, t, i).None? {
        if k > 0 {
          assert InGap(rest, k - 1, i);
        }
      }
    }
  }

  /**
   * For the stylesheet pattern, `AttrPos` is the pair the backtracking order accepts first:
   * guard positions from the head's first `>` leftwards, and for each the attribute
   * positions from there leftwards down to the end of the guard.
   */
  lemma AttrPosIsBacktracking(t: string, lo: nat, p: nat)
    ensures var css := PatternOf(Stylesheet);
            AttrPos(css, t, lo, p) == LastPair(HitAt(css, t), GuardAt(css, t), 16, lo, p, p)
  {
    var css := PatternOf(Stylesheet);
    assert css.guard != "" && |css.guard| == 16;
    LastPairIsPairBeforeLast(HitAt(css, t), GuardAt(css, t), 16, lo, p, p);
  }

  /** No hit of the head follows the attribute position `TagAt` gives. */
  lemma TagAtLast(pat: Pattern, t: string, i: nat)
    requires TagAt(pat, t, i).Some?
    ensures forall j :: TagAt(pat, t, i).value.1 < j <= Upto(t, i + |pat.opener|, '>') ==> !Hit(pat, t, j)
  {
    var lo := i + |pat.opener|;
    var p := Upto(t, lo, '>');
    assert TagAt(pat, t, i) == AttrPos(pat, t, lo, p);
    PairBeforeLastSecond(HitAt(pat, t), GuardAt(pat, t), |pat.guard|, lo, p, p);
    LastRightmost(HitAt(pat, t), lo + |pat.guard|, p);
    var j0 := TagAt(pat, t, i).value.1;
    forall j | j0 < j <= p ensures !Hit(pat, t, j) {
      assert !HitAt(pat, t)(j);
    }
  }

  /**
   * The captured value is that of the last attribute literal in the tag's head (the text
   * before its first `>`) whose value the rest of the pattern accepts: `src` for images
   * and scripts, `href` for stylesheets.
   */
  lemma TakesLastAttr(pat: Pattern, t: string, i: nat)
    requires MatchAt(pat, t, i).Some?
    ensures var j0 := MatchAt(pat, t, i).value.urlStart - |pat.attr|;
            var p := Upto(t, i + |pat.opener|, '>');
            j0 <= p && forall j :: j0 < j <= p ==> !Hit(pat, t, j)
  {
    TagAtLast(pat, t, i);
    assert MatchAt(pat, t, i).value.urlStart - |pat.attr| == TagAt(pat, t, i).value.1;
  }
}
