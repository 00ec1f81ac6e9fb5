/** The bottom-up merge sort of utlist.h and uthash.h on doubly linked elements (DL_SORT, HASH_SRT). */
module ListSort {
  import opened Bytes
  import opened Links
  import Seqs

  /** `le(a, b)` stands for cmp(a, b) <= 0. */
  type Order<!V> = (V, V) -> bool

  ghost predicate TotalPreorder<V(!new)>(le: Order<V>) {
    && (forall a, b :: le(a, b) || le(b, a))
    && (forall a, b, c :: le(a, b) && le(b, c) ==> le(a, c))
  }

  ghost predicate Sorted<V(!new)>(s: seq<Handle<V>>, le: Order<V>) {
    forall i, j | 0 <= i < j < |s| :: le(s[i].key, s[j].key)
  }

  // ----- The sort as a function on sequences -----

  /** Merge two runs, taking from the left one unless the right one is strictly smaller. */
  ghost function Merge<V(!new)>(a: seq<Handle<V>>, b: seq<Handle<V>>, le: Order<V>): (r: seq<Handle<V>>)
    ensures |r| == |a| + |b|
    decreases |a| + |b|
  {
    if a == [] then b
    else if b == [] then a
    else if le(a[0].key, b[0].key) then [a[0]] + Merge(a[1..], b, le)
    else [b[0]] + Merge(a, b[1..], le)
  }

  /** One pass: merge neighbouring runs of length `k` pairwise. */
  ghost function Pass<V(!new)>(s: seq<Handle<V>>, k: nat, le: Order<V>): (r: seq<Handle<V>>)
    requires k > 0
    ensures |r| == |s|
    decreases |s|
  {
    if s == [] then []
    else
      var m, n := Min(k, |s|), Min(2 * k, |s|);
      Merge(s[..m], s[m..n], le) + Pass(s[n..], k, le)
  }

  /** Passes with doubling run length until one merge covers the whole list. */
  ghost function SortFrom<V(!new)>(s: seq<Handle<V>>, k: nat, le: Order<V>): (r: seq<Handle<V>>)
    requires k > 0
    ensures |r| == |s|
    decreases if |s| > k then |s| - k else 0
  {
    var r := Pass(s, k, le);
    if |s| <= 2 * k then r else SortFrom(r, 2 * k, le)
  }

  // ----- Permutation -----

  lemma {:induction false} MergePermutes<V(!new)>(a: seq<Handle<V>>, b: seq<Handle<V>>, le: Order<V>)
    ensures multiset(Merge(a, b, le)) == multiset(a) + multiset(b)
    decreases |a| + |b|
  {
    if a != [] && b != [] {
      if le(a[0].key, b[0].key) {
        MergePermutes(a[1..], b, le);
        Seqs.FrontCounts(a);
      } else {
        MergePermutes(a, b[1..], le);
        Seqs.FrontCounts(b);
      }
    }
  }

  lemma {:induction false} PassPermutes<V(!new)>(s: seq<Handle<V>>, k: nat, le: Order<V>)
    requires k > 0
    ensures multiset(Pass(s, k, le)) == multiset(s)
    decreases |s|
  {
    if s != [] {
      var m, n := Min(k, |s|), Min(2 * k, |s|);
      MergePermutes(s[..m], s[m..n], le);
      PassPermutes(s[n..], k, le);
      Seqs.Thirds(s, m, n);
    }
  }

  lemma {:induction false} SortPermutes<V(!new)>(s: seq<Handle<V>>, k: nat, le: Order<V>)
    requires k > 0
    ensures multiset(SortFrom(s, k, le)) == multiset(s)
    decreases if |s| > k then |s| - k else 0
  {
    PassPermutes(s, k, le);
    if |s| > 2 * k {
      SortPermutes(Pass(s, k, le), 2 * k, le);
    }
  }

  // ----- Sortedness -----

  /** Every aligned stretch of `k` elements is sorted. */
  ghost predicate RunsSorted<V(!new)>(s: seq<Handle<V>>, k: nat, le: Order<V>)
    requires k > 0
    decreases |s|
  {
    s == [] || (Sorted(s[..Min(k, |s|)], le) && RunsSorted(s[Min(k, |s|)..], k, le))
  }

  lemma {:induction false} SinglesSorted<V(!new)>(s: seq<Handle<V>>, le: Order<V>)
    ensures RunsSorted(s, 1, le)
  {
    if s != [] {
      SinglesSorted(s[1..], le);
    }
  }

  lemma {:induction false} MergeSorts<V(!new)>(a: seq<Handle<V>>, b: seq<Handle<V>>, le: Order<V>)
    requires TotalPreorder(le) && Sorted(a, le) && Sorted(b, le)
    ensures Sorted(Merge(a, b, le), le)
    decreases |a| + |b|
  {
    if a != [] && b != [] {
      if le(a[0].key, b[0].key) {
        MergeSorts(a[1..], b, le);
        HeadFirst(a[0], a[1..], b, le);
      } else {
        MergeSorts(a, b[1..], le);
        HeadFirst(b[0], a, b[1..], le);
      }
    }
  }

  /** An element below all of both runs stays below all of their merge. */
  lemma HeadFirst<V(!new)>(x: Handle<V>, a: seq<Handle<V>>, b: seq<Handle<V>>, le: Order<V>)
    requires TotalPreorder(le) && Sorted(Merge(a, b, le), le)
    requires forall i | 0 <= i < |a| :: le(x.key, a[i].key)
    requires forall i | 0 <= i < |b| :: le(x.key, b[i].key)
    ensures Sorted([x] + Merge(a, b, le), le)
  {
    var r := Merge(a, b, le);
    MergePermutes(a, b, le);
    forall i | 0 <= i < |r|
      ensures le(x.key, r[i].key)
    {
      assert r[i] in multiset(r);
      assert r[i] in multiset(a) || r[i] in multiset(b);
    }
  }

  /** The first two runs and the rest, as a pass takes them apart. */
  lemma TwoRuns<V(!new)>(s: seq<Handle<V>>, k: nat, le: Order<V>)
    requires k > 0 && s != [] && RunsSorted(s, k, le)
    ensures var m, n := Min(k, |s|), Min(2 * k, |s|);
      Sorted(s[..m], le) && Sorted(s[m..n], le) && RunsSorted(s[n..], k, le)
  {
    CutTwice(s, k);
    FirstRun(s, k, Min(k, |s|), le);
    FirstRun(s[Min(k, |s|)..], k, Min(2 * k, |s|) - Min(k, |s|), le);
  }

  lemma FirstRun<V(!new)>(s: seq<Handle<V>>, k: nat, m: nat, le: Order<V>)
    requires k > 0 && m == Min(k, |s|) && RunsSorted(s, k, le)
    ensures Sorted(s[..m], le) && RunsSorted(s[m..], k, le)
  {
  }

  lemma {:induction false} PassSorts<V(!new)>(s: seq<Handle<V>>, k: nat, le: Order<V>)
    requires k > 0 && TotalPreorder(le) && RunsSorted(s, k, le)
    ensures RunsSorted(Pass(s, k, le), 2 * k, le)
    decreases |s|
  {
    if s != [] {
      var m, n := Min(k, |s|), Min(2 * k, |s|);
      TwoRuns(s, k, le);
      MergeSorts(s[..m], s[m..n], le);
      PassSorts(s[n..], k, le);
      var x, y := Merge(s[..m], s[m..n], le), Pass(s[n..], k, le);
      assert Min(2 * k, |x + y|) == |x|;
      assert (x + y)[..|x|] == x && (x + y)[|x|..] == y;
    }
  }

  lemma {:induction false} SortSorts<V(!new)>(s: seq<Handle<V>>, k: nat, le: Order<V>)
    requires k > 0 && TotalPreorder(le) && RunsSorted(s, k, le)
    ensures Sorted(SortFrom(s, k, le), le)
    decreases if |s| > k then |s| - k else 0
  {
    PassSorts(s, k, le);
    var r := Pass(s, k, le);
    if |s| > 2 * k {
      SortSorts(r, 2 * k, le);
    } else if r != [] {
      assert r[..|r|] == r;
    }
  }

  // ----- Stability -----

  predicate Same<V(!new)>(a: V, b: V, le: Order<V>) { le(a, b) && le(b, a) }

  ghost function One<V(!new)>(n: Handle<V>, x: V, le: Order<V>): seq<Handle<V>> {
    if Same(n.key, x, le) then [n] else []
  }

  /** The elements equivalent to `x`, in order. */
  ghost function Class<V(!new)>(s: seq<Handle<V>>, x: V, le: Order<V>): seq<Handle<V>> {
    if s == [] then [] else One(s[0], x, le) + Class(s[1..], x, le)
  }

  lemma ClassCons<V(!new)>(n: Handle<V>, s: seq<Handle<V>>, x: V, le: Order<V>)
    ensures Class([n] + s, x, le) == One(n, x, le) + Class(s, x, le)
  {
    assert ([n] + s)[1..] == s;
  }

  lemma {:induction false} ClassConcat<V(!new)>(a: seq<Handle<V>>, b: seq<Handle<V>>, x: V, le: Order<V>)
    ensures Class(a + b, x, le) == Class(a, x, le) + Class(b, x, le)
  {
    if a == [] {
      assert a + b == b;
    } else {
      ClassConcat(a[1..], b, x, le);
      assert a + b == [a[0]] + (a[1..] + b);
      ClassCons(a[0], a[1..] + b, x, le);
      Seqs.Assoc(One(a[0], x, le), Class(a[1..], x, le), Class(b, x, le));
    }
  }

  lemma {:induction false} NoneInClass<V(!new)>(a: seq<Handle<V>>, x: V, le: Order<V>)
    requires forall i | 0 <= i < |a| :: !Same(a[i].key, x, le)
    ensures Class(a, x, le) == []
  {
    if a != [] {
      NoneInClass(a[1..], x, le);
    }
  }

  /** What overtakes a sorted run in a merge is not equivalent to any element of the run. */
  lemma NoneOvertaken<V(!new)>(a: seq<Handle<V>>, n: Handle<V>, x: V, le: Order<V>)
    requires TotalPreorder(le) && Sorted(a, le) && a != [] && !le(a[0].key, n.key)
    ensures Class(a, x, le) + One(n, x, le) == One(n, x, le) + Class(a, x, le)
  {
    if Same(n.key, x, le) {
      forall i | 0 <= i < |a|
        ensures !Same(a[i].key, x, le)
      {
        assert i == 0 || le(a[0].key, a[i].key);
      }
      NoneInClass(a, x, le);
    }
  }

  /** Equivalent elements come out of a merge left run first, each run in its own order. */
  lemma {:induction false} MergeStable<V(!new)>(a: seq<Handle<V>>, b: seq<Handle<V>>, x: V, le: Order<V>)
    requires TotalPreorder(le) && Sorted(a, le) && Sorted(b, le)
    ensures Class(Merge(a, b, le), x, le) == Class(a, x, le) + Class(b, x, le)
    decreases |a| + |b|
  {
    if a != [] && b != [] {
      if le(a[0].key, b[0].key) {
        MergeStable(a[1..], b, x, le);
        ClassCons(a[0], Merge(a[1..], b, le), x, le);
        Seqs.Assoc(One(a[0], x, le), Class(a[1..], x, le), Class(b, x, le));
      } else {
        MergeStable(a, b[1..], x, le);
        ClassCons(b[0], Merge(a, b[1..], le), x, le);
        NoneOvertaken(a, b[0], x, le);
        Seqs.Assoc(One(b[0], x, le), Class(a, x, le), Class(b[1..], x, le));
        Seqs.Assoc(Class(a, x, le), One(b[0], x, le), Class(b[1..], x, le));
      }
    }
  }

  lemma ClassSplit<V(!new)>(s: seq<Handle<V>>, m: nat, n: nat, x: V, le: Order<V>)
    requires m <= n <= |s|
    ensures Class(s, x, le) == (Class(s[..m], x, le) + Class(s[m..n], x, le)) + Class(s[n..], x, le)
  {
    Seqs.Thirds(s, m, n);
    ClassParts(s, s[..m], s[m..n], s[n..], x, le);
  }

  lemma ClassParts<V(!new)>(s: seq<Handle<V>>, a: seq<Handle<V>>, b: seq<Handle<V>>, c: seq<Handle<V>>, x: V,
      le: Order<V>)
    requires s == (a + b) + c
    ensures Class(s, x, le) == (Class(a, x, le) + Class(b, x, le)) + Class(c, x, le)
  {
    ClassConcat(a, b, x, le);
    ClassConcat(a + b, c, x, le);
  }

  lemma {:induction false} PassStable<V(!new)>(s: seq<Handle<V>>, k: nat, x: V, le: Order<V>)
    requires k > 0 && TotalPreorder(le) && RunsSorted(s, k, le)
    ensures Class(Pass(s, k, le), x, le) == Class(s, x, le)
    decreases |s|
  {
    if s != [] {
      var m, n := Min(k, |s|), Min(2 * k, |s|);
      TwoRuns(s, k, le);
      MergeStable(s[..m], s[m..n], x, le);
      PassStable(s[n..], k, x, le);
      ClassConcat(Merge(s[..m], s[m..n], le), Pass(s[n..], k, le), x, le);
      ClassSplit(s, m, n, x, le);
    }
  }

  lemma {:induction false} SortStable<V(!new)>(s: seq<Handle<V>>, k: nat, x: V, le: Order<V>)
    requires k > 0 && TotalPreorder(le) && RunsSorted(s, k, le)
    ensures Class(SortFrom(s, k, le), x, le) == Class(s, x, le)
    decreases if |s| > k then |s| - k else 0
  {
    PassStable(s, k, x, le);
    PassSorts(s, k, le);
    if |s| > 2 * k {
      SortStable(Pass(s, k, le), 2 * k, x, le);
    }
  }

  // ----- The sort on linked nodes -----

  ghost function First<V(!new)>(s: seq<Handle<V>>): Handle?<V> { if s == [] then null else s[0] }

  ghost function Last<V(!new)>(s: seq<Handle<V>>): Handle?<V> { if s == [] then null else s[|s| - 1] }

  /** The next pointers run through `s`; where the last one points is left open. */
  ghost predicate Chain<V(!new)>(s: seq<Handle<V>>)
    reads s`next
  {
    forall i | 0 <= i < |s| - 1 :: s[i].next == s[i + 1]
  }

  /** The prev pointers run through `s` backwards, down to its second node. */
  ghost predicate Back<V(!new)>(s: seq<Handle<V>>)
    reads s`prev
  {
    forall i | 1 <= i < |s| :: s[i].prev == s[i - 1]
  }

  /** A chain that ends with a null pointer. */
  ghost predicate Closed<V(!new)>(s: seq<Handle<V>>)
    reads s`next
  {
    Chain(s) && (s != [] ==> s[|s| - 1].next == null)
  }

  ghost predicate Apart<V(!new)>(s: seq<Handle<V>>, t: seq<Handle<V>>) {
    forall n | n in s :: n !in t
  }

  /** The nodes of a pass: already linked into the result, left run, and everything behind it. */
  ghost predicate Separate<V(!new)>(o: seq<Handle<V>>, p: seq<Handle<V>>, r: seq<Handle<V>>) {
    NoDup(o) && NoDup(p) && NoDup(r) && Apart(o, p) && Apart(o, r) && Apart(p, r)
  }

  /** `list` and `tail` hold the result so far; nothing precedes its first node. */
  ghost predicate Out<V(!new)>(list: Handle?<V>, tail: Handle?<V>, o: seq<Handle<V>>)
    reads o`next, o`prev
  {
    list == First(o) && tail == Last(o) && Chain(o) && Back(o) && (o != [] ==> o[0].prev == null)
  }

  /** Append node `e` to the result; what is left of both runs is not disturbed. */
  method Append<V(!new)>(list: Handle?<V>, tail: Handle?<V>, e: Handle<V>,
      ghost o: seq<Handle<V>>, ghost ps: seq<Handle<V>>, ghost r: seq<Handle<V>>)
    returns (list': Handle<V>, tail': Handle<V>)
    requires Out(list, tail, o) && NoDup(o + [e]) && Apart(o, ps) && Apart(o, r)
    requires Chain(ps) && Closed(r)
    modifies (if tail == null then {} else {tail})`next, e`prev
    ensures Out(list', tail', o + [e])
    ensures Chain(ps) && Closed(r)
  {
    assert tail != null ==> tail in o;
    assert e == (o + [e])[|o|] && forall i | 0 <= i < |o| :: o[i] == (o + [e])[i];
    if tail != null {
      tail.next := e;
      list' := list;
    } else {
      list' := e;
    }
    e.prev := tail;
    tail' := e;
    ghost var all := o + [e];
    forall i | 0 <= i < |all| - 1
      ensures all[i].next == all[i + 1]
    {
      assert all[i] == o[i];
      assert i < |o| - 1 ==> all[i] != all[|o| - 1];
    }
  }

  /** Moving the first node of the left run, or of the rest, to the result. */
  lemma MoveLeft<V(!new)>(o: seq<Handle<V>>, p: seq<Handle<V>>, r: seq<Handle<V>>)
    requires Separate(o, p, r) && p != []
    ensures Separate(o + [p[0]], p[1..], r) && p[0] !in o && p[0] !in p[1..] && p[0] !in r
  {
    HeadApart(p);
    SnocNoDup(o, p[0]);
  }

  lemma MoveRight<V(!new)>(o: seq<Handle<V>>, p: seq<Handle<V>>, r: seq<Handle<V>>)
    requires Separate(o, p, r) && r != []
    ensures Separate(o + [r[0]], p, r[1..]) && r[0] !in o && r[0] !in p && r[0] !in r[1..]
  {
    HeadApart(r);
    SnocNoDup(o, r[0]);
  }

  lemma HeadApart<V(!new)>(s: seq<Handle<V>>)
    requires NoDup(s) && s != []
    ensures s[0] in s && NoDup(s[1..]) && s[0] !in s[1..] && forall n | n in s[1..] :: n in s
  {
    forall n | n in s[1..]
      ensures n in s && n != s[0]
    {
      var i :| 0 <= i < |s[1..]| && s[1..][i] == n;
      assert s[i + 1] == n;
    }
  }

  lemma SnocNoDup<V(!new)>(o: seq<Handle<V>>, e: Handle<V>)
    requires NoDup(o) && e !in o
    ensures NoDup(o + [e])
  {
  }

  /** The result that the inner loop is heading for, given its present state. */
  ghost function Goal<V(!new)>(o: seq<Handle<V>>, ps: seq<Handle<V>>, r: seq<Handle<V>>, qsize: nat, le: Order<V>)
    : seq<Handle<V>>
  {
    o + Merge(ps, r[..Min(qsize, |r|)], le)
  }

  lemma GoalLeft<V(!new)>(o: seq<Handle<V>>, ps: seq<Handle<V>>, r: seq<Handle<V>>, qsize: nat, le: Order<V>)
    requires ps != [] && (qsize == 0 || r == [] || le(ps[0].key, r[0].key))
    ensures Goal(o + [ps[0]], ps[1..], r, qsize, le) == Goal(o, ps, r, qsize, le)
  {
    var b := r[..Min(qsize, |r|)];
    Seqs.Assoc(o, [ps[0]], Merge(ps[1..], b, le));
    assert b == [] ==> ps == [ps[0]] + ps[1..];
  }

  lemma GoalRight<V(!new)>(o: seq<Handle<V>>, ps: seq<Handle<V>>, r: seq<Handle<V>>, qsize: nat, le: Order<V>)
    requires qsize > 0 && r != [] && (ps == [] || !le(ps[0].key, r[0].key))
    ensures Goal(o + [r[0]], ps, r[1..], qsize - 1, le) == Goal(o, ps, r, qsize, le)
    ensures r[1..][Min(qsize - 1, |r| - 1)..] == r[Min(qsize, |r|)..]
  {
    var b := r[..Min(qsize, |r|)];
    RunTail(r, Min(qsize, |r|));
    Seqs.Assoc(o, [r[0]], Merge(ps, b[1..], le));
    assert ps == [] ==> b == [r[0]] + b[1..];
  }

  /** Taking the first element off a run and the list it begins. */
  lemma RunTail<V(!new)>(r: seq<Handle<V>>, n: nat)
    requires 0 < n <= |r|
    ensures r[..n] != [] && r[..n][0] == r[0] && r[..n][1..] == r[1..][..n - 1] && r[1..][n - 1..] == r[n..]
  {
  }

  /** What the inner loop ends with: its result and what it leaves of the list. */
  ghost function End<V(!new)>(o: seq<Handle<V>>, ps: seq<Handle<V>>, r: seq<Handle<V>>, qsize: nat, le: Order<V>)
    : (seq<Handle<V>>, seq<Handle<V>>)
  {
    (Goal(o, ps, r, qsize, le), r[Min(qsize, |r|)..])
  }

  lemma EndReached<V(!new)>(o: seq<Handle<V>>, ps: seq<Handle<V>>, r: seq<Handle<V>>, qsize: nat, le: Order<V>)
    requires ps == [] && (qsize == 0 || r == [])
    ensures End(o, ps, r, qsize, le) == (o, r)
  {
    assert o + [] == o;
  }

  lemma EndLeft<V(!new)>(o: seq<Handle<V>>, ps: seq<Handle<V>>, r: seq<Handle<V>>, qsize: nat, le: Order<V>)
    requires ps != [] && (qsize == 0 || r == [] || le(ps[0].key, r[0].key))
    ensures End(o + [ps[0]], ps[1..], r, qsize, le) == End(o, ps, r, qsize, le)
  {
    GoalLeft(o, ps, r, qsize, le);
  }

  lemma EndRight<V(!new)>(o: seq<Handle<V>>, ps: seq<Handle<V>>, r: seq<Handle<V>>, qsize: nat, le: Order<V>)
    requires qsize > 0 && r != [] && (ps == [] || !le(ps[0].key, r[0].key))
    ensures End(o + [r[0]], ps, r[1..], qsize - 1, le) == End(o, ps, r, qsize, le)
  {
    GoalRight(o, ps, r, qsize, le);
  }

  ghost predicate Within<V(!new)>(s: seq<Handle<V>>, all: set<Handle<V>>) { forall n | n in s :: n in all }

  /** The state of the inner loop: result `o`, what is left of the left run, everything from `q` on. */
  ghost predicate Merging<V(!new)>(list: Handle?<V>, tail: Handle?<V>, q: Handle?<V>, all: set<Handle<V>>,
      o: seq<Handle<V>>, ps: seq<Handle<V>>, r: seq<Handle<V>>)
    reads o`next, o`prev, ps`next, r`next
  {
    && Separate(o, ps, r) && Within(o, all) && Within(ps, all) && Within(r, all)
    && Out(list, tail, o) && Chain(ps) && q == First(r) && Closed(r)
  }

  /** e = p; p = p->next, and append e. */
  method TakeLeft<V(!new)>(list: Handle?<V>, tail: Handle?<V>, p: Handle<V>, ghost q: Handle?<V>,
      ghost all: set<Handle<V>>,
      ghost o: seq<Handle<V>>, ghost ps: seq<Handle<V>>, ghost r: seq<Handle<V>>, ghost qsize: nat, ghost le: Order<V>)
    returns (list': Handle<V>, tail': Handle<V>, p': Handle?<V>)
    requires Merging(list, tail, q, all, o, ps, r) && p == First(ps)
    requires qsize == 0 || q == null || le(p.key, q.key)
    modifies all`next, all`prev
    ensures ps != [] && Merging(list', tail', q, all, o + [ps[0]], ps[1..], r)
    ensures |ps| > 1 ==> p' == ps[1]
    ensures End(o + [ps[0]], ps[1..], r, qsize, le) == End(o, ps, r, qsize, le)
  {
    EndLeft(o, ps, r, qsize, le);
    MoveLeft(o, ps, r);
    assert p in ps && (tail != null ==> tail in o);
    p' := p.next;
    list', tail' := Append(list, tail, p, o, ps[1..], r);
  }

  /** e = q; q = q->next, and append e. */
  method TakeRight<V(!new)>(list: Handle?<V>, tail: Handle?<V>, q: Handle<V>, ghost all: set<Handle<V>>,
      ghost o: seq<Handle<V>>, ghost ps: seq<Handle<V>>, ghost r: seq<Handle<V>>, ghost qsize: nat, ghost le: Order<V>)
    returns (list': Handle<V>, tail': Handle<V>, q': Handle?<V>)
    requires Merging(list, tail, q, all, o, ps, r)
    requires qsize > 0 && (ps == [] || !le(ps[0].key, q.key))
    modifies all`next, all`prev
    ensures r != [] && Merging(list', tail', q', all, o + [r[0]], ps, r[1..])
    ensures End(o + [r[0]], ps, r[1..], qsize - 1, le) == End(o, ps, r, qsize, le)
  {
    EndRight(o, ps, r, qsize, le);
    MoveRight(o, ps, r);
    assert q in r && (tail != null ==> tail in o);
    q' := q.next;
    list', tail' := Append(list, tail, q, o, ps, r[1..]);
  }

  /** The inner loop: merge the run of `psize` nodes at `p0` with up to `qsize` nodes at `q0`. */
  method MergeRuns<V(!new)>(le: Order<V>, list0: Handle?<V>, tail0: Handle?<V>, p0: Handle<V>, q0: Handle?<V>,
      psize0: nat, qsize0: nat, ghost all: set<Handle<V>>,
      ghost o0: seq<Handle<V>>, ghost ps0: seq<Handle<V>>, ghost r0: seq<Handle<V>>)
    returns (list: Handle?<V>, tail: Handle?<V>, q: Handle?<V>, ghost o: seq<Handle<V>>, ghost r: seq<Handle<V>>)
    requires Merging(list0, tail0, q0, all, o0, ps0, r0) && p0 == First(ps0) && |ps0| == psize0
    modifies all`next, all`prev
    ensures o == Goal(o0, ps0, r0, qsize0, le) && r == r0[Min(qsize0, |r0|)..]
    ensures Merging(list, tail, q, all, o, [], r)
  {
    var p: Handle?<V> := p0;
    var psize, qsize := psize0, qsize0;
    ghost var ps := ps0;
    list, tail, q, o, r := list0, tail0, q0, o0, r0;
    while psize > 0 || (qsize > 0 && q != null)
      invariant Merging(list, tail, q, all, o, ps, r)
      invariant |ps| == psize && (psize > 0 ==> p == ps[0])
      invariant End(o, ps, r, qsize, le) == End(o0, ps0, r0, qsize0, le)
      decreases psize + qsize
    {
      list, tail, p, q, psize, qsize, o, ps, r := MergeStep(le, list, tail, p, q, psize, qsize, all, o, ps, r);
    }
    EndReached(o, ps, r, qsize, le);
  }

  /** One round of the inner loop: the smaller of the two front nodes is appended, of equivalent ones the left. */
  method MergeStep<V(!new)>(le: Order<V>, list: Handle?<V>, tail: Handle?<V>, p: Handle?<V>, q: Handle?<V>,
      psize: nat, qsize: nat, ghost all: set<Handle<V>>,
      ghost o: seq<Handle<V>>, ghost ps: seq<Handle<V>>, ghost r: seq<Handle<V>>)
    returns (list': Handle<V>, tail': Handle<V>, p': Handle?<V>, q': Handle?<V>, psize': nat, qsize': nat,
      ghost o': seq<Handle<V>>, ghost ps': seq<Handle<V>>, ghost r': seq<Handle<V>>)
    requires psize > 0 || (qsize > 0 && q != null)
    requires Merging(list, tail, q, all, o, ps, r) && |ps| == psize && (psize > 0 ==> p == ps[0])
    modifies all`next, all`prev
    ensures Merging(list', tail', q', all, o', ps', r') && |ps'| == psize' && (psize' > 0 ==> p' == ps'[0])
    ensures End(o', ps', r', qsize', le) == End(o, ps, r, qsize, le) && psize' + qsize' < psize + qsize
  {
    p', q', psize', qsize', ps', r' := p, q, psize, qsize, ps, r;
    if psize == 0 || (qsize > 0 && q != null && !le(p.key, q.key)) {
      list', tail', q' := TakeRight(list, tail, q, all, o, ps, r, qsize, le);
      o', r', qsize' := o + [r[0]], r[1..], qsize - 1;
    } else {
      list', tail', p' := TakeLeft(list, tail, p, q, all, o, ps, r, qsize, le);
      o', ps', psize' := o + [ps[0]], ps[1..], psize - 1;
    }
  }

  /** Step over up to `insize` nodes. */
  method SkipRun<V(!new)>(p: Handle<V>, insize: nat, ghost r: seq<Handle<V>>) returns (q: Handle?<V>, psize: nat)
    requires insize > 0 && p == First(r) && Closed(r)
    ensures psize == Min(insize, |r|) && q == First(r[psize..])
  {
    q, psize := p, 0;
    var i := 0;
    while i < insize
      invariant 0 <= i == psize <= insize && psize < |r| && q == r[psize]
    {
      psize := psize + 1;
      assert psize < |r| ==> r[psize - 1].next == r[psize];
      q := q.next;
      if q == null {
        return;
      }
      assert psize < |r|;
      i := i + 1;
    }
  }

  /** How far a pass has come: `o` is done, `r` is still to do. */
  ghost predicate Passing<V(!new)>(s: seq<Handle<V>>, k: nat, le: Order<V>, o: seq<Handle<V>>, r: seq<Handle<V>>,
      nmerges: nat)
    requires k > 0
  {
    && |o| + |r| == |s|
    && o + Pass(r, k, le) == Pass(s, k, le)
    && (nmerges == 0 ==> o == [])
    && (nmerges == 1 ==> |o| == Min(2 * k, |s|))
    && (nmerges >= 2 ==> |s| > 2 * k)
  }

  /** Cutting `r` behind its first run, then the remainder behind its first run. */
  lemma CutTwice<V(!new)>(r: seq<Handle<V>>, k: nat)
    requires k > 0
    ensures var m, n := Min(k, |r|), Min(2 * k, |r|);
      && Min(k, |r[m..]|) == n - m
      && r[m..][..n - m] == r[m..n] && r[m..][n - m..] == r[n..]
  {
    Seqs.TailCut(r, Min(k, |r|), Min(2 * k, |r|));
  }

  lemma PassStep<V(!new)>(s: seq<Handle<V>>, k: nat, le: Order<V>, o: seq<Handle<V>>, r: seq<Handle<V>>, nmerges: nat)
    requires k > 0 && r != [] && Passing(s, k, le, o, r, nmerges)
    ensures var m := Min(k, |r|);
      && r[m..][Min(k, |r[m..]|)..] == r[Min(2 * k, |r|)..]
      && Passing(s, k, le, Goal(o, r[..m], r[m..], k, le), r[Min(2 * k, |r|)..], nmerges + 1)
  {
    var m, n := Min(k, |r|), Min(2 * k, |r|);
    CutTwice(r, k);
    PassHead(o, r, k, m, n, le);
  }

  /** The first pair of runs goes behind `o`, the others follow. */
  lemma PassHead<V(!new)>(o: seq<Handle<V>>, r: seq<Handle<V>>, k: nat, m: nat, n: nat, le: Order<V>)
    requires k > 0 && r != [] && m == Min(k, |r|) && n == Min(2 * k, |r|)
    requires Min(k, |r[m..]|) == n - m && r[m..][..n - m] == r[m..n]
    ensures Goal(o, r[..m], r[m..], k, le) + Pass(r[n..], k, le) == o + Pass(r, k, le)
    ensures |Goal(o, r[..m], r[m..], k, le)| == |o| + n
  {
    Seqs.Assoc(o, Merge(r[..m], r[m..n], le), Pass(r[n..], k, le));
  }

  /** One round of a pass: find the second run and merge it with the first. */
  method MergePair<V(!new)>(le: Order<V>, l: Handle?<V>, t: Handle?<V>, p: Handle<V>, insize: nat,
      ghost all: set<Handle<V>>,
      ghost o: seq<Handle<V>>, ghost r: seq<Handle<V>>)
    returns (l': Handle?<V>, t': Handle?<V>, p': Handle?<V>, ghost o': seq<Handle<V>>, ghost r': seq<Handle<V>>)
    requires insize > 0 && Merging(l, t, p, all, o, [], r)
    modifies all`next, all`prev
    ensures var m := Min(insize, |r|);
      o' == Goal(o, r[..m], r[m..], insize, le) && r' == r[m..][Min(insize, |r[m..]|)..]
    ensures Merging(l', t', p', all, o', [], r')
  {
    var q, psize := SkipRun(p, insize, r);
    SplitRest(l, t, p, all, o, r, psize);
    l', t', p', o', r' := MergeRuns(le, l, t, p, q, psize, insize, all, o, r[..psize], r[psize..]);
  }

  /** One pass over the list `s` that starts at `head`. */
  method OnePass<V(!new)>(le: Order<V>, head: Handle<V>, insize: nat, ghost all: set<Handle<V>>,
      ghost s: seq<Handle<V>>)
    returns (list: Handle<V>, tail: Handle<V>, nmerges: nat)
    requires insize > 0 && head == First(s) && Closed(s) && NoDup(s) && Within(s, all)
    modifies all`next, all`prev
    ensures Out(list, tail, Pass(s, insize, le))
    ensures nmerges <= 1 <==> |s| <= 2 * insize
    ensures NoDup(Pass(s, insize, le)) && Within(Pass(s, insize, le), all)
  {
    var l: Handle?<V>, t: Handle?<V>, p: Handle?<V> := null, null, head;
    nmerges := 0;
    ghost var o: seq<Handle<V>>, r := [], s;
    while p != null
      invariant Merging(l, t, p, all, o, [], r)
      invariant Passing(s, insize, le, o, r, nmerges)
      decreases |r|
    {
      PassStep(s, insize, le, o, r, nmerges);
      nmerges := nmerges + 1;
      l, t, p, o, r := MergePair(le, l, t, p, insize, all, o, r);
    }
    PassEnds(s, insize, le, l, t, all, o, r, nmerges);
    list, tail := l, t;
  }

  /** Nothing is left to do. */
  lemma PassEnds<V(!new)>(s: seq<Handle<V>>, k: nat, le: Order<V>, l: Handle?<V>, t: Handle?<V>, all: set<Handle<V>>,
      o: seq<Handle<V>>, r: seq<Handle<V>>, nmerges: nat)
    requires k > 0 && s != [] && Merging(l, t, null, all, o, [], r) && Passing(s, k, le, o, r, nmerges)
    ensures o == Pass(s, k, le) && o != [] && Out(l, t, o) && NoDup(o) && Within(o, all)
    ensures nmerges <= 1 <==> |s| <= 2 * k
  {
    assert r == [];
    assert Pass(r, k, le) == [];
  }

  /** Cutting the rest of a pass into a left run and what follows. */
  lemma SplitRest<V(!new)>(l: Handle?<V>, t: Handle?<V>, p: Handle?<V>, all: set<Handle<V>>,
      o: seq<Handle<V>>, r: seq<Handle<V>>, m: nat)
    requires Merging(l, t, p, all, o, [], r) && m <= |r|
    ensures Merging(l, t, First(r[m..]), all, o, r[..m], r[m..])
  {
  }

  /** A doubly linked list; the head's prev points to the tail in the form of utlist.h, to nothing in uthash.h. */
  ghost predicate Linked<V(!new)>(head: Handle?<V>, tail: Handle?<V>, s: seq<Handle<V>>, circular: bool)
    reads s`next, s`prev
  {
    && head == First(s) && tail == Last(s) && NoDup(s) && Closed(s) && Back(s)
    && (s != [] ==> s[0].prev == if circular then s[|s| - 1] else null)
  }

  /** The end of a pass: close the list at its end, and in the circular form at its beginning. */
  method CloseList<V(!new)>(list: Handle<V>, tail: Handle<V>, circular: bool, ghost s: seq<Handle<V>>)
    requires Out(list, tail, s) && NoDup(s) && s != []
    modifies list`prev, tail`next
    ensures Linked(list, tail, s, circular)
  {
    if circular {
      list.prev := tail;
    }
    tail.next := null;
  }

  /** The passes of DL_SORT and HASH_SRT, from runs of length one on. */
  method SortLinks<V(!new)>(le: Order<V>, head: Handle<V>, circular: bool, ghost s: seq<Handle<V>>,
      ghost all: set<Handle<V>>) returns (list: Handle<V>, tail: Handle<V>)
    requires head == First(s) && NoDup(s) && Closed(s) && Within(s, all)
    modifies all`next, all`prev
    ensures Linked(list, tail, SortFrom(s, 1, le), circular)
  {
    list, tail := head, head;
    var insize, looping := 1, true;
    ghost var r := s;
    while looping
      invariant insize > 0 && r != []
      invariant list == First(r) && NoDup(r) && Closed(r) && Within(r, all)
      invariant looping ==> SortFrom(r, insize, le) == SortFrom(s, 1, le)
      invariant !looping ==> r == SortFrom(s, 1, le) && Linked(list, tail, r, circular)
      decreases looping, if |r| > insize then |r| - insize else 0
    {
      var nmerges;
      list, tail, nmerges := OnePass(le, list, insize, all, r);
      r := Pass(r, insize, le);
      assert list in r && tail in r;
      CloseList(list, tail, circular, r);
      if nmerges <= 1 {
        looping := false;
      }
      insize := insize * 2;
    }
  }

  /** `r` is `s` sorted: in order, with the same elements, equivalent ones in their old order. */
  ghost predicate SortOf<V(!new)>(r: seq<Handle<V>>, s: seq<Handle<V>>, le: Order<V>) {
    Sorted(r, le) && multiset(r) == multiset(s) && forall x :: Class(r, x, le) == Class(s, x, le)
  }

  /**
   * DL_SORT. The resulting list is sorted, is a permutation of the given one, keeps
   * equivalent elements in their order, and is properly linked in both directions.
   */
  method DlSort<V(!new)>(le: Order<V>, head: Handle?<V>, ghost s: seq<Handle<V>>)
    returns (list: Handle?<V>, ghost r: seq<Handle<V>>)
    requires TotalPreorder(le) && head == First(s) && NoDup(s) && Closed(s)
    modifies s`next, s`prev
    ensures Linked(list, Last(r), r, true) && SortOf(r, s, le)
  {
    list, r := head, s;
    if head != null {
      var tail;
      list, tail := SortLinks(le, head, true, s, set n | n in s);
      r := SortFrom(s, 1, le);
      FullySorted(s, le);
    }
  }

  /** What the passes from runs of length one on produce. */
  lemma FullySorted<V(!new)>(s: seq<Handle<V>>, le: Order<V>)
    requires TotalPreorder(le)
    ensures SortOf(SortFrom(s, 1, le), s, le)
  {
    SinglesSorted(s, le);
    SortSorts(s, 1, le);
    SortPermutes(s, 1, le);
    forall x
      ensures Class(SortFrom(s, 1, le), x, le) == Class(s, x, le)
    {
      SortStable(s, 1, x, le);
    }
  }
}
