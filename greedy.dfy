/**
 * The positions a backtracking regular-expression matcher tries. For a greedy `[^>]*` it
 * goes from the right end of the range leftwards and keeps the first position that lets
 * the rest of the pattern match (`Last`). For the start of a match it scans left to right
 * (`First`). `f` and `g` say which positions let it match.
 */
module Greedy {
  import opened Wrappers

  /** The largest `j` in `lo..hi` with `f(j)`. */
  function Last(f: int -> bool, lo: int, hi: int): (r: Option<int>)
    decreases hi - lo + 1
    ensures r.Some? ==> lo <= r.value <= hi && f(r.value)
  {
    if hi < lo then None
    else if f(hi) then Some(hi)
    else Last(f, lo, hi - 1)
  }

  /** No `j` in `lo..hi` has `f(j)`. */
  predicate NoneIn(f: int -> bool, lo: int, hi: int)
    decreases hi - lo + 1
  {
    hi < lo || (!f(hi) && NoneIn(f, lo, hi - 1))
  }

  lemma {:induction false} NoneInAt(f: int -> bool, lo: int, hi: int, j: int)
    requires NoneIn(f, lo, hi) && lo <= j <= hi
    ensures !f(j)
    decreases hi - lo + 1
  {
    if j < hi {
      NoneInAt(f, lo, hi - 1, j);
    }
  }

  /** `Last` finds the last position of its range, and none when there is none. */
  lemma {:induction false} LastIsLast(f: int -> bool, lo: int, hi: int)
    decreases hi - lo + 1
    ensures Last(f, lo, hi).Some? ==> NoneIn(f, Last(f, lo, hi).value + 1, hi)
    ensures Last(f, lo, hi).None? ==> NoneIn(f, lo, hi)
  {
    if hi >= lo && !f(hi) {
      LastIsLast(f, lo, hi - 1);
    }
  }

  /** Nothing after what `Last` finds has `f`. */
  lemma LastRightmost(f: int -> bool, lo: int, hi: int)
    requires Last(f, lo, hi).Some?
    ensures forall j :: Last(f, lo, hi).value < j <= hi ==> !f(j)
  {
    LastIsLast(f, lo, hi);
    var v := Last(f, lo, hi).value;
    forall j | v < j <= hi ensures !f(j) {
      NoneInAt(f, v + 1, hi, j);
    }
  }

  /** Shrinking the range from below keeps the last position while it stays inside. */
  lemma {:induction false} LastFrom(f: int -> bool, lo: int, lo': int, hi: int)
    requires Last(f, lo, hi).Some? && lo <= lo' <= Last(f, lo, hi).value
    ensures Last(f, lo', hi) == Last(f, lo, hi)
    decreases hi - lo + 1
  {
    if !f(hi) {
      LastFrom(f, lo, lo', hi - 1);
    }
  }

  /** Shrinking the range past the last position leaves nothing. */
  lemma {:induction false} LastAbove(f: int -> bool, lo: int, lo': int, hi: int)
    requires Last(f, lo, hi).Some? && Last(f, lo, hi).value < lo'
    ensures Last(f, lo', hi).None?
    decreases hi - lo + 1
  {
    if lo' <= hi {
      LastAbove(f, lo, lo', hi - 1);
    }
  }

  /** A range with no position has none in any smaller one. */
  lemma {:induction false} LastNone(f: int -> bool, lo: int, lo': int, hi: int)
    requires Last(f, lo, hi).None? && lo <= lo'
    ensures Last(f, lo', hi).None?
    decreases hi - lo + 1
  {
    if lo' <= hi {
      LastNone(f, lo, lo', hi - 1);
    }
  }

  /** The smallest `j` in `lo..hi` with `f(j)`: a left-to-right scan. */
  function First(f: int -> bool, lo: int, hi: int): (r: Option<int>)
    decreases hi - lo + 1
    ensures r.Some? ==> lo <= r.value <= hi && f(r.value)
  {
    if hi < lo then None
    else if f(lo) then Some(lo)
    else First(f, lo + 1, hi)
  }

  /** A range without `f` positions grows by a position without `f` below it. */
  lemma {:induction false} NoneInBelow(f: int -> bool, lo: int, hi: int)
    requires !f(lo) && NoneIn(f, lo + 1, hi)
    ensures NoneIn(f, lo, hi)
    decreases hi - lo + 1
  {
    if lo < hi {
      NoneInBelow(f, lo, hi - 1);
    }
  }

  /** `First` finds the first position of its range, and none when there is none. */
  lemma {:induction false} FirstIsFirst(f: int -> bool, lo: int, hi: int)
    decreases hi - lo + 1
    ensures First(f, lo, hi).Some? ==> NoneIn(f, lo, First(f, lo, hi).value - 1)
    ensures First(f, lo, hi).None? ==> NoneIn(f, lo, hi)
  {
    if hi >= lo && !f(lo) {
      FirstIsFirst(f, lo + 1, hi);
      var r := First(f, lo + 1, hi);
      NoneInBelow(f, lo, if r.Some? then r.value - 1 else hi);
    }
  }

  /** Nothing before what `First` finds has `f`; when it finds nothing, nothing in the range has. */
  lemma FirstLeftmost(f: int -> bool, lo: int, hi: int)
    ensures First(f, lo, hi).Some? ==> forall i :: lo <= i < First(f, lo, hi).value ==> !f(i)
    ensures First(f, lo, hi).None? ==> forall i :: lo <= i <= hi ==> !f(i)
  {
    FirstIsFirst(f, lo, hi);
    var r := First(f, lo, hi);
    var top := if r.Some? then r.value - 1 else hi;
    forall i | lo <= i <= top ensures !f(i) {
      NoneInAt(f, lo, top, i);
    }
  }

  /**
   * Two greedy stars around a literal of length `n`: positions `g` of the literal from `hi`
   * down to `lo`, and for each the last `f` position between `g + n` and `p`.
   * Gives (literal position, `f` position).
   */
  function LastPair(f: int -> bool, g: int -> bool, n: nat, lo: int, hi: int, p: int): (r: Option<(int, int)>)
    decreases hi - lo + 1
    ensures r.Some? ==> lo <= r.value.0 <= hi && g(r.value.0)
    ensures r.Some? ==> r.value.0 + n <= r.value.1 <= p && f(r.value.1)
  {
    if hi < lo then None
    else if g(hi) && Last(f, hi + n, p).Some? then Some((hi, Last(f, hi + n, p).value))
    else LastPair(f, g, n, lo, hi - 1, p)
  }

  /** The last `f` position `j` of `lo + n..p`, and the last `g` position at or below `hi` that is at most `j - n`. */
  function PairBeforeLast(f: int -> bool, g: int -> bool, n: nat, lo: int, hi: int, p: int): (r: Option<(int, int)>)
    ensures r.Some? ==> lo <= r.value.0 <= hi && g(r.value.0)
    ensures r.Some? ==> r.value.0 + n <= r.value.1 <= p && f(r.value.1)
  {
    match Last(f, lo + n, p)
    case None => None
    case Some(j) =>
      match Last(g, lo, if hi < j - n then hi else j - n)
      case None => None
      case Some(x) => Some((x, j))
  }

  /** The second position `PairBeforeLast` gives is the last `f` position of `lo + n..p`. */
  lemma PairBeforeLastSecond(f: int -> bool, g: int -> bool, n: nat, lo: int, hi: int, p: int)
    requires PairBeforeLast(f, g, n, lo, hi, p).Some?
    ensures Last(f, lo + n, p) == Some(PairBeforeLast(f, g, n, lo, hi, p).value.1)
  {
  }

  /**
   * `PairBeforeLast` finds a pair whenever one exists: a `g` position `x` of `lo..hi` with
   * an `f` position `j` of `x + n..p`. The pair it finds ends at or after `j`.
   */
  lemma PairBeforeLastComplete(f: int -> bool, g: int -> bool, n: nat, lo: int, hi: int, p: int, x: int, j: int)
    requires lo <= x <= hi && g(x) && x + n <= j <= p && f(j)
    ensures PairBeforeLast(f, g, n, lo, hi, p).Some?
    ensures j <= PairBeforeLast(f, g, n, lo, hi, p).value.1
  {
    LastIsLast(f, lo + n, p);
    if Last(f, lo + n, p).None? {
      NoneInAt(f, lo + n, p, j);
    }
    var h := Last(f, lo + n, p).value;
    if h < j {
      LastRightmost(f, lo + n, p);
    }
    var top := if hi < h - n then hi else h - n;
    LastIsLast(g, lo, top);
    if Last(g, lo, top).None? {
      NoneInAt(g, lo, top, x);
    }
  }

  /** The backtracking order finds the last literal position that has an `f` position after it. */
  lemma {:induction false} LastPairIsPairBeforeLast(f: int -> bool, g: int -> bool, n: nat, lo: int, hi: int, p: int)
    ensures LastPair(f, g, n, lo, hi, p) == PairBeforeLast(f, g, n, lo, hi, p)
    decreases hi - lo + 1
  {
    if lo <= hi {
      LastPairIsPairBeforeLast(f, g, n, lo, hi - 1, p);
      var h := Last(f, lo + n, p);
      if h.None? {
        LastNone(f, lo + n, hi + n, p);
        assert LastPair(f, g, n, lo, hi, p) == LastPair(f, g, n, lo, hi - 1, p);
      } else if hi + n <= h.value {
        LastFrom(f, lo + n, hi + n, p);
        if g(hi) {
          assert Last(g, lo, hi) == Some(hi);
        } else {
          assert Last(g, lo, hi) == Last(g, lo, hi - 1);
          assert LastPair(f, g, n, lo, hi, p) == LastPair(f, g, n, lo, hi - 1, p);
        }
      } else {
        LastAbove(f, lo + n, hi + n, p);
        assert LastPair(f, g, n, lo, hi, p) == LastPair(f, g, n, lo, hi - 1, p);
      }
    }
  }
}
