/** Facts about sequences that the solver is given explicitly. */
module Seqs {

  lemma Assoc<T>(a: seq<T>, b: seq<T>, c: seq<T>)
    ensures (a + b) + c == a + (b + c)
  {
  }

  /** A slice of a slice. */
  lemma SliceSlice<T>(s: seq<T>, lo: nat, hi: nat, a: nat, b: nat)
    requires lo <= hi <= |s| && a <= b <= hi - lo
    ensures s[lo..hi][a..b] == s[lo + a..lo + b]
  {
    var x, y := s[lo..hi][a..b], s[lo + a..lo + b];
    assert forall i | 0 <= i < |x| :: x[i] == y[i];
  }

  /** A slice of a part of a sequence. */
  lemma Inside<T>(s: seq<T>, base: nat, f: seq<T>, a: nat, b: nat, part: seq<T>)
    requires base + |f| <= |s| && s[base..base + |f|] == f && a <= b <= |f| && f[a..b] == part
    ensures s[base + a..base + b] == part
  {
    SliceSlice(s, base, base + |f|, a, b);
  }

  /** A tail cut in two. */
  lemma TailCut<T>(s: seq<T>, m: nat, n: nat)
    requires m <= n <= |s|
    ensures |s[m..]| == |s| - m && s[m..][..n - m] == s[m..n] && s[m..][n - m..] == s[n..]
  {
  }

  /** The middle one of three parts. */
  lemma Middle<T>(a: seq<T>, b: seq<T>, c: seq<T>)
    ensures ((a + b) + c)[|a|..|a + b|] == b
  {
  }

  /** A prefix and the element behind it. */
  lemma PrefixSnoc<T>(s: seq<T>, k: nat)
    requires k < |s|
    ensures s[..k] + [s[k]] == s[..k + 1]
  {
  }

  /** A sequence cut in two. */
  lemma Cut<T>(s: seq<T>, m: nat)
    requires m <= |s|
    ensures s == s[..m] + s[m..]
  {
  }

  /** The elements of a sequence are its first one and the others. */
  lemma FrontCounts<T>(s: seq<T>)
    requires s != []
    ensures multiset(s) == multiset{s[0]} + multiset(s[1..])
  {
    assert s == [s[0]] + s[1..];
  }

  /** A sequence cut in three. */
  lemma Thirds<T>(s: seq<T>, m: nat, n: nat)
    requires m <= n <= |s|
    ensures s == (s[..m] + s[m..n]) + s[n..]
  {
  }

  /** Two neighbouring slices. */
  lemma SliceConcat<T>(s: seq<T>, lo: nat, mid: nat, hi: nat)
    requires lo <= mid <= hi <= |s|
    ensures s[lo..hi] == s[lo..mid] + s[mid..hi]
  {
  }

  /** A prefix followed by a slice is a longer prefix. */
  lemma PrefixConcat<T>(s: seq<T>, x: seq<T>, y: seq<T>)
    requires |x| + |y| <= |s| && s[..|x|] == x && s[|x|..|x| + |y|] == y
    ensures s[..|x| + |y|] == x + y
  {
  }

  /** Slices inside a common prefix agree. */
  lemma PrefixSlice<T>(s: seq<T>, t: seq<T>, n: nat, lo: nat, hi: nat)
    requires lo <= hi <= n <= |s| && n <= |t| && s[..n] == t[..n]
    ensures s[lo..hi] == t[lo..hi]
  {
    SliceSlice(s, 0, n, lo, hi);
    SliceSlice(t, 0, n, lo, hi);
  }
}
