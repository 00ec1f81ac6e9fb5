/** The intrusive hash table of uthash.h: bucket chains and application order on linked handles. */
module UtHash {
  import opened Bytes
  import opened HashCount
  import opened Links
  import ListSort

  ghost function At<K(!new)>(s: seq<Handle<K>>, i: int): Handle?<K> { if 0 <= i < |s| then s[i] else null }

  /** The hh pointers run through `s` in both directions. */
  ghost predicate HhLinked<K(!new)>(s: seq<Handle<K>>)
    reads s`hhNext, s`hhPrev
  {
    forall i | 0 <= i < |s| :: s[i].hhNext == At(s, i + 1) && s[i].hhPrev == At(s, i - 1)
  }

  /** Bucket number of a key: the hash masked to the table size, a power of two. */
  function Slot<K>(hash: K -> nat, key: K, n: nat): (b: nat)
    requires n > 0
    ensures b < n
  {
    hash(key) % n
  }

  /** One bucket: its head pointer and its count describe the chain. */
  ghost predicate BucketOk<K(!new)>(head: Handle?<K>, count: nat, chain: seq<Handle<K>>)
    reads chain`hhNext, chain`hhPrev
  {
    head == At(chain, 0) && count == |chain| && NoDup(chain) && HhLinked(chain)
  }

  ghost predicate BucketsOk<K(!new)>(all: set<Handle<K>>, heads: seq<Handle?<K>>, cs: seq<Counter>,
      chains: seq<seq<Handle<K>>>)
    reads all`hhNext, all`hhPrev
  {
    && |heads| == |cs| == |chains|
    && (forall b, h | 0 <= b < |chains| && h in chains[b] :: h in all)
    && forall b | 0 <= b < |chains| :: BucketOk(heads[b], cs[b].count, chains[b])
  }

  /** Every handle is in the chain of its bucket. */
  ghost predicate Sited<K(!new)>(hash: K -> nat, chains: seq<seq<Handle<K>>>) {
    forall b, h | 0 <= b < |chains| && h in chains[b] :: Slot(hash, h.key, |chains|) == b
  }

  /** Put `h` in front of a chain. */
  method PushChain<K(!new)>(head: Handle?<K>, h: Handle<K>, ghost c: seq<Handle<K>>)
    requires BucketOk(head, |c|, c) && h !in c
    modifies h`hhNext, h`hhPrev, (if head == null then {} else {head})`hhPrev
    ensures BucketOk(h, |c| + 1, [h] + c)
  {
    h.hhNext := head;
    h.hhPrev := null;
    if head != null {
      head.hhPrev := h;
    }
    ghost var d := [h] + c;
    forall i | 0 <= i < |d|
      ensures d[i].hhNext == At(d, i + 1) && d[i].hhPrev == At(d, i - 1)
    {
      if i > 0 {
        assert d[i] == c[i - 1] && c[i - 1] in c;
        assert i > 1 ==> c[i - 1] != c[0];
      }
    }
  }

  /** HASH_ADD_TO_BKT without the expansion: put `h` in front of its chain. */
  method PushFront<K(!new)>(hash: K -> nat, heads: seq<Handle?<K>>, cs: seq<Counter>, b: nat, h: Handle<K>,
      ghost all: set<Handle<K>>, ghost chains: seq<seq<Handle<K>>>)
    returns (heads': seq<Handle?<K>>, ghost chains': seq<seq<Handle<K>>>)
    requires BucketsOk(all, heads, cs, chains) && Sited(hash, chains) && h in all
    requires b < |chains| && b == Slot(hash, h.key, |chains|) && h !in chains[b]
    modifies all`hhNext, all`hhPrev
    ensures chains' == chains[b := [h] + chains[b]]
    ensures BucketsOk(all, heads', Raised(cs, b), chains') && Sited(hash, chains')
    ensures forall x | x in all && x != h && x !in chains[b] :: x.hhNext == old(x.hhNext)
  {
    ghost var c := chains[b];
    assert c != [] ==> heads[b] == c[0] && c[0] in c;
    PushChain(heads[b], h, c);
    heads' := heads[b := h];
    chains' := chains[b := [h] + c];
    forall i | 0 <= i < |chains| && i != b
      ensures BucketOk(heads[i], cs[i].count, chains[i])
    {
      forall x | x in chains[i]
        ensures x.hhNext == old(x.hhNext) && x.hhPrev == old(x.hhPrev)
      {
        Elsewhere(hash, chains, i, b, x);
      }
      StillLinked(chains[i]);
    }
  }

  twostate lemma StillLinked<K(!new)>(c: seq<Handle<K>>)
    requires old(HhLinked(c))
    requires forall x | x in c :: x.hhNext == old(x.hhNext) && x.hhPrev == old(x.hhPrev)
    ensures HhLinked(c)
  {
  }

  /** A handle of one bucket is not in another. */
  lemma Elsewhere<K(!new)>(hash: K -> nat, chains: seq<seq<Handle<K>>>, i: nat, b: nat, x: Handle<K>)
    requires Sited(hash, chains) && i < |chains| && b < |chains| && i != b && x in chains[i]
    ensures Slot(hash, x.key, |chains|) == i && x !in chains[b]
  {
  }

  // ----- HASH_EXPAND_BUCKETS -----

  /** The handle is in the table. */
  ghost predicate Has<K(!new)>(hash: K -> nat, chains: seq<seq<Handle<K>>>, x: Handle<K>)
    requires |chains| > 0
  {
    x in chains[Slot(hash, x.key, |chains|)]
  }

  /** The handles of `c` from position `j` on are linked by hhNext. */
  ghost predicate NextFrom<K(!new)>(c: seq<Handle<K>>, j: nat)
    reads c
  {
    forall k | j <= k < |c| :: c[k].hhNext == At(c, k + 1)
  }

  /** The new buckets of an expansion, filled so far. */
  ghost predicate Filling<K(!new)>(hash: K -> nat, all: set<Handle<K>>, heads: seq<Handle?<K>>, cs: seq<Counter>,
      ideal: nat, chains: seq<seq<Handle<K>>>)
    reads all
  {
    && ideal > 0 && |chains| > 0
    && BucketsOk(all, heads, cs, chains) && Sited(hash, chains) && Redistributed(cs, ideal)
    && (forall x | x in all :: x.hashv == hash(x.key))
  }

  /** One round of the redistribution: move handle `h` to its new bucket. */
  method MoveHandle<K(!new)>(hash: K -> nat, heads: seq<Handle?<K>>, cs: seq<Counter>, ideal: nat, nonideal: nat,
      h: Handle<K>, ghost all: set<Handle<K>>, ghost chains: seq<seq<Handle<K>>>)
    returns (heads': seq<Handle?<K>>, cs': seq<Counter>, nonideal': nat, ghost chains': seq<seq<Handle<K>>>)
    requires Filling(hash, all, heads, cs, ideal, chains) && h in all && !Has(hash, chains, h)
    requires nonideal == Excess(cs, ideal)
    modifies all`hhNext, all`hhPrev
    ensures Filling(hash, all, heads', cs', ideal, chains') && |chains'| == |chains|
    ensures Items(cs') == Items(cs) + 1 && nonideal' == Excess(cs', ideal)
    ensures forall x | x in all :: Has(hash, chains', x) <==> x == h || Has(hash, chains, x)
    ensures forall x | x in all && x != h && !Has(hash, chains, x) :: x.hhNext == old(x.hhNext)
  {
    var b := h.hashv % |cs|;
    heads', chains' := PushFront(hash, heads, cs, b, h, all, chains);
    var count := cs[b].count + 1;
    nonideal' := if count > ideal then nonideal + 1 else nonideal;
    var c := Counter(count, if count > ideal then Quotient(count, ideal) else cs[b].mult);
    Update(cs, b, c);
    ExcessUpdate(cs, b, c, ideal);
    cs' := cs[b := c];
  }

  function Quotient(a: nat, b: nat): nat
    requires b > 0
  {
    a / b
  }

  /** A handle occurs only once in its chain. */
  lemma NotBefore<K(!new)>(c: seq<Handle<K>>, k: nat)
    requires NoDup(c) && k < |c|
    ensures forall j | 0 <= j <= k :: c[k] !in c[..j]
    ensures c[..k + 1] == c[..k] + [c[k]]
  {
  }

  /** Position `j` of chain `c` is reached: those before it are in the new buckets, the others are not. */
  ghost predicate Reached<K(!new)>(hash: K -> nat, all: set<Handle<K>>, c: seq<Handle<K>>, j: nat,
      chains0: seq<seq<Handle<K>>>, chains: seq<seq<Handle<K>>>)
    reads c
  {
    && |chains| == |chains0| > 0 && j <= |c| && NextFrom(c, j)
    && forall x | x in all :: Has(hash, chains, x) <==> x in c[..j] || Has(hash, chains0, x)
  }

  /** The handles from position `j` on have not been moved. */
  lemma Ahead<K(!new)>(hash: K -> nat, all: set<Handle<K>>, c: seq<Handle<K>>, j: nat,
      chains0: seq<seq<Handle<K>>>, chains: seq<seq<Handle<K>>>)
    requires Reached(hash, all, c, j, chains0, chains) && j < |c| && NoDup(c)
    requires forall x | x in c :: x in all && !Has(hash, chains0, x)
    ensures forall k | j <= k < |c| :: c[k] in all && !Has(hash, chains, c[k]) && (k > j ==> c[k] != c[j])
    ensures c[..j + 1] == c[..j] + [c[j]]
  {
    forall k | j <= k < |c|
      ensures c[k] in all && !Has(hash, chains, c[k])
    {
      NotBefore(c, k);
      assert c[k] in c && c[k] !in c[..j];
    }
  }

  /** Move the handle at position `j` of chain `c`. */
  method MoveNext<K(!new)>(hash: K -> nat, heads: seq<Handle?<K>>, cs: seq<Counter>, ideal: nat, nonideal: nat,
      thh: Handle<K>, ghost c: seq<Handle<K>>, ghost j: nat, ghost all: set<Handle<K>>,
      ghost chains0: seq<seq<Handle<K>>>, ghost chains: seq<seq<Handle<K>>>)
    returns (nxt: Handle?<K>, heads': seq<Handle?<K>>, cs': seq<Counter>, nonideal': nat,
      ghost chains': seq<seq<Handle<K>>>)
    requires Filling(hash, all, heads, cs, ideal, chains) && Reached(hash, all, c, j, chains0, chains)
    requires thh == At(c, j) && NoDup(c) && forall x | x in c :: x in all && !Has(hash, chains0, x)
    requires nonideal == Excess(cs, ideal)
    modifies all`hhNext, all`hhPrev
    ensures Filling(hash, all, heads', cs', ideal, chains') && Reached(hash, all, c, j + 1, chains0, chains')
    ensures nxt == At(c, j + 1) && Items(cs') == Items(cs) + 1 && nonideal' == Excess(cs', ideal)
    ensures forall x | x in all && x !in c && !Has(hash, chains0, x) :: x.hhNext == old(x.hhNext)
  {
    nxt := thh.hhNext;
    Ahead(hash, all, c, j, chains0, chains);
    Outside(hash, all, c, j, chains0, chains);
    heads', cs', nonideal', chains' := MoveHandle(hash, heads, cs, ideal, nonideal, thh, all, chains);
    assert forall k | j < k < |c| :: c[k].hhNext == old(c[k].hhNext);
    OneMoved(hash, all, c, j, chains0, chains, chains');
  }

  /** Handles of other chains that were not moved before have not been moved since. */
  lemma Outside<K(!new)>(hash: K -> nat, all: set<Handle<K>>, c: seq<Handle<K>>, j: nat,
      chains0: seq<seq<Handle<K>>>, chains: seq<seq<Handle<K>>>)
    requires Reached(hash, all, c, j, chains0, chains) && j < |c|
    ensures forall x | x in all && x !in c && !Has(hash, chains0, x) :: x != c[j] && !Has(hash, chains, x)
  {
  }

  /** One more handle of the chain is in the new buckets. */
  lemma OneMoved<K(!new)>(hash: K -> nat, all: set<Handle<K>>, c: seq<Handle<K>>, j: nat,
      chains0: seq<seq<Handle<K>>>, chains: seq<seq<Handle<K>>>, chains': seq<seq<Handle<K>>>)
    requires |chains'| == |chains| == |chains0| > 0 && j < |c| && c[..j + 1] == c[..j] + [c[j]]
    requires forall x | x in all :: Has(hash, chains, x) <==> x in c[..j] || Has(hash, chains0, x)
    requires forall x | x in all :: Has(hash, chains', x) <==> x == c[j] || Has(hash, chains, x)
    ensures forall x | x in all :: Has(hash, chains', x) <==> x in c[..j + 1] || Has(hash, chains0, x)
  {
  }

  /** Move a whole chain of old handles to the new buckets. */
  method MoveChain<K(!new)>(hash: K -> nat, heads0: seq<Handle?<K>>, cs0: seq<Counter>, ideal: nat, nonideal0: nat,
      head: Handle?<K>, ghost c: seq<Handle<K>>, ghost all: set<Handle<K>>, ghost chains0: seq<seq<Handle<K>>>)
    returns (heads: seq<Handle?<K>>, cs: seq<Counter>, nonideal: nat, ghost chains: seq<seq<Handle<K>>>)
    requires Filling(hash, all, heads0, cs0, ideal, chains0)
    requires head == At(c, 0) && NoDup(c) && NextFrom(c, 0) && nonideal0 == Excess(cs0, ideal)
    requires forall x | x in c :: x in all && !Has(hash, chains0, x)
    modifies all`hhNext, all`hhPrev
    ensures Filling(hash, all, heads, cs, ideal, chains) && |chains| == |chains0|
    ensures Items(cs) == Items(cs0) + |c| && nonideal == Excess(cs, ideal)
    ensures forall x | x in all :: Has(hash, chains, x) <==> x in c || Has(hash, chains0, x)
    ensures forall x | x in all && x !in c && !Has(hash, chains0, x) :: x.hhNext == old(x.hhNext)
  {
    heads, cs, nonideal, chains := heads0, cs0, nonideal0, chains0;
    var thh := head;
    ghost var j := 0;
    while thh != null
      invariant Filling(hash, all, heads, cs, ideal, chains) && Reached(hash, all, c, j, chains0, chains)
      invariant thh == At(c, j) && Items(cs) == Items(cs0) + j && nonideal == Excess(cs, ideal)
      invariant forall x | x in all && x !in c && !Has(hash, chains0, x) :: x.hhNext == old(x.hhNext)
      decreases |c| - j
    {
      thh, heads, cs, nonideal, chains := MoveNext(hash, heads, cs, ideal, nonideal, thh, c, j, all, chains0, chains);
      j := j + 1;
    }
    assert c[..j] == c;
  }

  /** Buckets up to `bi` have been moved; the chains from `bi` on are as they were. */
  ghost predicate Emptied<K(!new)>(hash: K -> nat, all: set<Handle<K>>, old_: seq<seq<Handle<K>>>, bi: nat,
      chains: seq<seq<Handle<K>>>)
    requires |old_| > 0 && |chains| > 0
    reads all
  {
    && (forall i, x | 0 <= i < |old_| && x in old_[i] :: x in all)
    && (forall i | bi <= i < |old_| :: NextFrom(old_[i], 0))
    && (forall x | x in all :: Has(hash, chains, x) <==> Has(hash, old_, x) && Slot(hash, x.key, |old_|) < bi)
  }

  /** What the old table says about its chains, whatever happens to their links. */
  ghost predicate Heads<K(!new)>(heads: seq<Handle?<K>>, cs: seq<Counter>, chains: seq<seq<Handle<K>>>) {
    && |heads| == |cs| == |chains|
    && forall b | 0 <= b < |chains| :: heads[b] == At(chains[b], 0) && cs[b].count == |chains[b]| && NoDup(chains[b])
  }

  /** The inner loop for old bucket `bi`. */
  method EmptyBucket<K(!new)>(hash: K -> nat, heads: seq<Handle?<K>>, cs: seq<Counter>, ideal: nat, nonideal: nat,
      head: Handle?<K>, ghost bi: nat, ghost old_: seq<seq<Handle<K>>>, ghost all: set<Handle<K>>,
      ghost chains: seq<seq<Handle<K>>>)
    returns (heads': seq<Handle?<K>>, cs': seq<Counter>, nonideal': nat, ghost chains': seq<seq<Handle<K>>>)
    requires Filling(hash, all, heads, cs, ideal, chains)
    requires bi < |old_| && Sited(hash, old_) && Emptied(hash, all, old_, bi, chains)
    requires head == At(old_[bi], 0) && NoDup(old_[bi]) && nonideal == Excess(cs, ideal)
    modifies all`hhNext, all`hhPrev
    ensures Filling(hash, all, heads', cs', ideal, chains') && |chains'| == |chains|
    ensures Emptied(hash, all, old_, bi + 1, chains')
    ensures Items(cs') == Items(cs) + |old_[bi]| && nonideal' == Excess(cs', ideal)
  {
    ghost var c := old_[bi];
    heads', cs', nonideal', chains' := MoveChain(hash, heads, cs, ideal, nonideal, head, c, all, chains);
    forall i | bi < i < |old_|
      ensures NextFrom(old_[i], 0)
    {
      forall x | x in old_[i]
        ensures x.hhNext == old(x.hhNext)
      {
        Elsewhere(hash, old_, i, bi, x);
      }
    }
  }

  /** The two loops of HASH_EXPAND_BUCKETS. */
  method Redistribute<K(!new)>(hash: K -> nat, heads0: seq<Handle?<K>>, ideal: nat,
      ghost cs0: seq<Counter>, ghost all: set<Handle<K>>, ghost chains0: seq<seq<Handle<K>>>)
    returns (heads: seq<Handle?<K>>, cs: seq<Counter>, nonideal: nat, ghost chains: seq<seq<Handle<K>>>)
    requires |chains0| > 0 && ideal > 0
    requires BucketsOk(all, heads0, cs0, chains0) && Sited(hash, chains0)
    requires forall x | x in all :: x.hashv == hash(x.key)
    modifies all`hhNext, all`hhPrev
    ensures Filling(hash, all, heads, cs, ideal, chains) && |chains| == 2 * |chains0|
    ensures forall x | x in all :: Has(hash, chains, x) <==> Has(hash, chains0, x)
    ensures Items(cs) == Items(cs0) && nonideal == Excess(cs, ideal)
  {
    var n := 2 * |heads0|;
    heads, cs, nonideal := seq(n, i => null), seq(n, i => Counter(0, 0)), 0;
    chains := seq(n, i => []);
    EmptyCounters(cs);
    NoExcess(cs, ideal);
    assert Heads(heads0, cs0, chains0);
    for bi := 0 to |heads0|
      invariant Filling(hash, all, heads, cs, ideal, chains) && |chains| == n
      invariant Emptied(hash, all, chains0, bi, chains)
      invariant Items(cs) == Items(cs0[..bi]) && nonideal == Excess(cs, ideal)
    {
      heads, cs, nonideal, chains :=
        EmptyBucket(hash, heads, cs, ideal, nonideal, heads0[bi], bi, chains0, all, chains);
      ItemsStep(cs0, bi);
    }
    assert cs0[..|heads0|] == cs0;
  }

  // ----- The table -----

  /** The application order pointers run through `s` in both directions. */
  ghost predicate OrderLinked<K(!new)>(s: seq<Handle<K>>)
    reads s`next, s`prev
  {
    forall i | 0 <= i < |s| :: s[i].next == At(s, i + 1) && s[i].prev == At(s, i - 1)
  }

  ghost predicate KeysDistinct<K(!new)>(s: seq<Handle<K>>) {
    forall i, j | 0 <= i < j < |s| :: s[i].key != s[j].key
  }

  /** The handles of the table in application order. */
  ghost predicate OrderOk<K(!new)>(head: Handle?<K>, tail: Handle?<K>, s: seq<Handle<K>>)
    reads s`next, s`prev
  {
    Ordered(head, tail, s) && NoDup(s) && KeysDistinct(s)
  }

  /** The links of the application order, with its ends. */
  ghost predicate Ordered<K(!new)>(head: Handle?<K>, tail: Handle?<K>, s: seq<Handle<K>>)
    reads s`next, s`prev
  {
    head == At(s, 0) && tail == At(s, |s| - 1) && OrderLinked(s)
  }

  ghost function Set<K(!new)>(s: seq<Handle<K>>): set<Handle<K>> { set h | h in s }

  /** The handles `all` are in the table, under their hash. */
  ghost predicate Holds<K(!new)>(hash: K -> nat, all: set<Handle<K>>, chains: seq<seq<Handle<K>>>)
    requires |chains| > 0
    reads all`hashv
  {
    forall h | h in all :: Has(hash, chains, h) && h.hashv == hash(h.key)
  }

  /** The new bucket array of HASH_EXPAND_BUCKETS. */
  method Grow<K(!new)>(hash: K -> nat, heads0: seq<Handle?<K>>, items: nat, ghost cs0: seq<Counter>,
      ghost all: set<Handle<K>>, ghost chains0: seq<seq<Handle<K>>>)
    returns (heads: seq<Handle?<K>>, cs: seq<Counter>, ideal: nat, nonideal: nat, ghost chains: seq<seq<Handle<K>>>)
    requires |chains0| > 0 && items > 0 && Items(cs0) == items
    requires BucketsOk(all, heads0, cs0, chains0) && Sited(hash, chains0) && Holds(hash, all, chains0)
    modifies all`hhNext, all`hhPrev
    ensures |chains| == 2 * |chains0| && Items(cs) == items
    ensures BucketsOk(all, heads, cs, chains) && Sited(hash, chains) && Holds(hash, all, chains)
    ensures ideal == Ideal(items, 2 * |chains0|) > 0 && Redistributed(cs, ideal) && nonideal == Excess(cs, ideal)
    ensures ideal <= 10 ==> Balanced(cs)
  {
    var n := 2 * |heads0|;
    assert Ideal(items, n) >= 1 by { IdealIsCeiling(items, n); }
    ideal := Ideal(items, n);
    heads, cs, nonideal, chains := Redistribute(hash, heads0, ideal, cs0, all, chains0);
    if ideal <= 10 {
      ExpandBalances(cs, items);
    }
  }

  /** HASH_FIND_IN_BKT. */
  method FindInBucket<K(==, !new)>(head: Handle?<K>, key: K, ghost c: seq<Handle<K>>) returns (out: Handle?<K>)
    requires BucketOk(head, |c|, c)
    ensures out != null ==> out in c && out.key == key
    ensures out == null ==> forall h | h in c :: h.key != key
  {
    out := head;
    ghost var j := 0;
    while out != null
      invariant j <= |c| && out == At(c, j)
      invariant forall i | 0 <= i < j :: c[i].key != key
      decreases |c| - j
    {
      if out.key == key {
        return;
      }
      out, j := out.hhNext, j + 1;
    }
  }

  /** Follow the next pointers. */
  method Walk<K(!new)>(head: Handle?<K>, ghost s: seq<Handle<K>>) returns (visited: seq<Handle<K>>)
    requires head == At(s, 0) && OrderLinked(s)
    ensures visited == s
  {
    visited := [];
    var el := head;
    while el != null
      invariant |visited| <= |s| && visited == s[..|visited|] && el == At(s, |visited|)
      decreases |s| - |visited|
    {
      visited, el := visited + [el], el.next;
    }
  }

  /** UT_hash_table. */
  datatype Tbl<K(!new)> = Tbl(
    heads: seq<Handle?<K>>, counters: seq<Counter>, log2: nat, numItems: nat, tail: Handle?<K>,
    ideal: nat, nonideal: nat, ineff: nat, noexpand: bool)

  /** The buckets hold exactly the handles `all`, each in the bucket of its key. */
  ghost predicate BucketsValid<K(!new)>(hash: K -> nat, t: Tbl<K>, all: set<Handle<K>>, chains: seq<seq<Handle<K>>>)
    reads all`hhNext, all`hhPrev, all`hashv
  {
    && |chains| == Pow2(t.log2)
    && BucketsOk(all, t.heads, t.counters, chains) && Sited(hash, chains)
    && Holds(hash, all, chains)
    && Items(t.counters) == t.numItems
  }

  /**
   * The checks of HASH_FSCK, and the balance that bounds the chains. `head` is the user's
   * pointer, `order` the application order, `chains` the bucket chains. Without elements
   * there is no table.
   */
  ghost predicate Valid<K(!new)>(hash: K -> nat, head: Handle?<K>, t: Tbl<K>, order: seq<Handle<K>>,
      chains: seq<seq<Handle<K>>>)
    reads order
  {
    if head == null then order == []
    else
      && OrderOk(head, t.tail, order)
      && BucketsValid(hash, t, Set(order), chains)
      && t.numItems == |order|
      && (!t.noexpand ==> Balanced(t.counters))
  }

  /** HASH_FIND: the hash of the key selects the bucket, its chain is searched. */
  method Find<K(==, !new)>(hash: K -> nat, head: Handle?<K>, t: Tbl<K>, key: K,
      ghost order: seq<Handle<K>>, ghost chains: seq<seq<Handle<K>>>) returns (out: Handle?<K>)
    requires Valid(hash, head, t, order, chains)
    ensures out != null ==> out in order && out.key == key
    ensures out == null ==> forall h | h in order :: h.key != key
  {
    out := null;
    if head == null {
      return;
    }
    var b := Slot(hash, key, |t.heads|);
    out := FindInBucket(t.heads[b], key, chains[b]);
    if out == null {
      forall h | h in order
        ensures h.key != key
      {
        assert h in Set(order) && Has(hash, chains, h);
      }
    } else {
      assert out in Set(order);
    }
  }

  /** HASH_ITER: the elements in application order. */
  method Iterate<K(!new)>(hash: K -> nat, head: Handle?<K>, t: Tbl<K>,
      ghost order: seq<Handle<K>>, ghost chains: seq<seq<Handle<K>>>) returns (visited: seq<Handle<K>>)
    requires Valid(hash, head, t, order, chains)
    ensures visited == order
  {
    visited := Walk(head, order);
  }

  /**
   * What an expansion makes of the numbers in the table: multipliers for chains beyond the
   * ideal length, the count of the items beyond it, and how often in a row it was more than
   * half of them.
   */
  ghost predicate Doubled<K(!new)>(t: Tbl<K>, t': Tbl<K>) {
    && |t'.counters| == 2 * |t.counters| > 0
    && t'.ideal == Ideal(t'.numItems, |t'.counters|) > 0
    && Redistributed(t'.counters, t'.ideal)
    && t'.nonideal == Excess(t'.counters, t'.ideal)
    && t'.ineff == (if t'.nonideal > t'.numItems / 2 then t.ineff + 1 else 0)
    && t'.noexpand == (t.noexpand || t'.ineff > 1)
  }

  /**
   * What an addition makes of them: one more item in bucket `b`, and an expansion exactly when
   * that chain has reached its limit and expansion is not inhibited.
   */
  ghost predicate Entered<K(!new)>(t: Tbl<K>, b: nat, t': Tbl<K>) {
    && b < |t.counters|
    && var cs := Raised(t.counters, b);
      if cs[b].count >= cs[b].Limit() && !t.noexpand then Doubled(t, t')
      else t'.counters == cs && t'.ineff == t.ineff && t'.noexpand == t.noexpand
  }

  /** What a deletion makes of them. */
  ghost predicate Lessened<K(!new)>(t: Tbl<K>, b: nat, t': Tbl<K>) {
    && b < |t.counters| && t.counters[b].count > 0
    && t'.counters == Lowered(t.counters, b) && t'.ineff == t.ineff && t'.noexpand == t.noexpand
  }

  /** A table without elements, as HASH_MAKE_TABLE leaves it. */
  ghost predicate Blank<K(!new)>(t: Tbl<K>) { t.counters == NewCounters() && t.ineff == 0 && !t.noexpand }

  /**
   * HASH_EXPAND_BUCKETS: same elements, twice the buckets. An expansion that leaves every
   * chain within the ideal length starts the count anew; only one that leaves more than half
   * of the items beyond it, behind another such, inhibits further ones.
   */
  method ExpandBuckets<K(!new)>(hash: K -> nat, t: Tbl<K>, ghost all: set<Handle<K>>, ghost chains: seq<seq<Handle<K>>>)
    returns (t': Tbl<K>, ghost chains': seq<seq<Handle<K>>>)
    requires BucketsValid(hash, t, all, chains) && t.numItems > 0
    modifies all`hhNext, all`hhPrev
    ensures BucketsValid(hash, t', all, chains')
    ensures t'.numItems == t.numItems && t'.tail == t.tail && |chains'| == 2 * |chains|
    ensures Ideal(t.numItems, 2 * |chains|) <= 10 ==> Balanced(t'.counters)
    ensures Doubled(t, t')
    ensures (forall b | 0 <= b < |chains'| :: |chains'[b]| <= t'.ideal) ==> t'.ineff == 0 && t'.noexpand == t.noexpand
    ensures t'.noexpand && !t.noexpand ==> t.ineff >= 1 && t'.nonideal > t.numItems / 2
  {
    var heads, counters, ideal, nonideal;
    heads, counters, ideal, nonideal, chains' := Grow(hash, t.heads, t.numItems, t.counters, all, chains);
    var ineff := if nonideal > t.numItems / 2 then t.ineff + 1 else 0;
    t' := Tbl(heads, counters, t.log2 + 1, t.numItems, t.tail, ideal, nonideal, ineff, t.noexpand || ineff > 1);
    assert |chains'| == Pow2(t'.log2);
    EvenChains(hash, t', all, chains');
  }

  /** Chains within the ideal length. */
  lemma EvenChains<K(!new)>(hash: K -> nat, t: Tbl<K>, all: set<Handle<K>>, chains: seq<seq<Handle<K>>>)
    requires BucketsValid(hash, t, all, chains)
    ensures |chains| == |t.counters|
    ensures (forall b | 0 <= b < |chains| :: |chains[b]| <= t.ideal) <==> Excess(t.counters, t.ideal) == 0
  {
    NoExcess(t.counters, t.ideal);
    assert forall b | 0 <= b < |chains| :: BucketOk(t.heads[b], t.counters[b].count, chains[b]);
  }

  /** Append `h` to the application order. */
  method LinkLast<K(!new)>(tail: Handle?<K>, h: Handle<K>, ghost head: Handle?<K>, ghost s: seq<Handle<K>>)
    requires OrderOk(head, tail, s) && h !in s && forall x | x in s :: x.key != h.key
    modifies h`next, h`prev, (if tail == null then {} else {tail})`next
    ensures OrderOk(At(s + [h], 0), h, s + [h])
  {
    h.next := null;
    if tail != null {
      tail.next := h;
    }
    h.prev := tail;
    ghost var t := s + [h];
    forall i | 0 <= i < |t|
      ensures t[i].next == At(t, i + 1) && t[i].prev == At(t, i - 1)
    {
      if i < |s| {
        assert t[i] == s[i] && s[i] in s;
        assert i < |s| - 1 ==> s[i] != s[|s| - 1];
      }
    }
  }

  /** All handles but the new one `h` are in the buckets. */
  ghost predicate HoldsBut<K(!new)>(hash: K -> nat, all: set<Handle<K>>, h: Handle<K>, chains: seq<seq<Handle<K>>>)
    requires |chains| > 0
    reads all`hashv
  {
    && h in all && !Has(hash, chains, h)
    && forall x | x in all :: (x != h ==> Has(hash, chains, x)) && x.hashv == hash(x.key)
  }

  /** The chain part of HASH_ADD_TO_BKT. */
  method Enlist<K(!new)>(hash: K -> nat, t: Tbl<K>, h: Handle<K>, b: nat, ghost all: set<Handle<K>>,
      ghost chains: seq<seq<Handle<K>>>)
    returns (t': Tbl<K>, ghost chains': seq<seq<Handle<K>>>)
    requires |chains| == Pow2(t.log2) && BucketsOk(all, t.heads, t.counters, chains) && Sited(hash, chains)
    requires HoldsBut(hash, all, h, chains) && t.numItems == Items(t.counters) + 1
    requires b == Slot(hash, h.key, |chains|)
    modifies all`hhNext, all`hhPrev
    ensures BucketsValid(hash, t', all, chains') && |chains'| == |chains|
    ensures b < |t.counters| && t' == t.(heads := t'.heads, counters := Raised(t.counters, b))
  {
    var heads;
    heads, chains' := PushFront(hash, t.heads, t.counters, b, h, all, chains);
    t' := t.(heads := heads, counters := Raised(t.counters, b));
    assert Items(t'.counters) == t.numItems by { RaisedItems(t.counters, b); }
  }

  /** HASH_ADD_TO_BKT: add to the chain, and expand when its limit is reached. */
  method AddToBucket<K(!new)>(hash: K -> nat, t: Tbl<K>, h: Handle<K>, ghost all: set<Handle<K>>,
      ghost chains: seq<seq<Handle<K>>>)
    returns (t': Tbl<K>, ghost chains': seq<seq<Handle<K>>>)
    requires |chains| == Pow2(t.log2) && BucketsOk(all, t.heads, t.counters, chains) && Sited(hash, chains)
    requires HoldsBut(hash, all, h, chains)
    requires t.numItems == Items(t.counters) + 1 && (!t.noexpand ==> Balanced(t.counters))
    modifies all`hhNext, all`hhPrev
    ensures BucketsValid(hash, t', all, chains') && t'.numItems == t.numItems && t'.tail == t.tail
    ensures (!t'.noexpand ==> Balanced(t'.counters)) && Entered(t, Slot(hash, h.key, |chains|), t')
  {
    var b := Slot(hash, h.key, |t.heads|);
    CountUp(t.counters, b, t.noexpand, t.numItems);
    t', chains' := Enlist(hash, t, h, b, all, chains);
    t', chains' := Relieve(hash, t', b, all, chains');
  }

  /** The end of HASH_ADD_TO_BKT: expand if the chain has reached its limit. */
  method Relieve<K(!new)>(hash: K -> nat, t: Tbl<K>, b: nat, ghost all: set<Handle<K>>,
      ghost chains: seq<seq<Handle<K>>>)
    returns (t': Tbl<K>, ghost chains': seq<seq<Handle<K>>>)
    requires BucketsValid(hash, t, all, chains) && b < |t.counters| && t.numItems > 0
    requires !t.noexpand ==>
      if t.counters[b].count >= t.counters[b].Limit() then Ideal(t.numItems, 2 * |chains|) <= 10
      else Balanced(t.counters)
    modifies all`hhNext, all`hhPrev
    ensures BucketsValid(hash, t', all, chains') && t'.numItems == t.numItems && t'.tail == t.tail
    ensures !t'.noexpand ==> Balanced(t'.counters)
    ensures if t.counters[b].count >= t.counters[b].Limit() && !t.noexpand then Doubled(t, t') else t' == t
  {
    t', chains' := t, chains;
    if t.counters[b].count >= t.counters[b].Limit() && !t.noexpand {
      t', chains' := ExpandBuckets(hash, t, all, chains);
    }
  }

  /** The counters after an addition: balanced, or about to be expanded to at most ten per bucket. */
  lemma CountUp(cs: seq<Counter>, b: nat, noexpand: bool, items: nat)
    requires b < |cs| && items == Items(cs) + 1 && (!noexpand ==> Balanced(cs))
    ensures var c := Raised(cs, b)[b];
      !noexpand ==> if c.count >= c.Limit() then Ideal(items, 2 * |cs|) <= 10 else Balanced(Raised(cs, b))
  {
    if !noexpand {
      IdealAtMostTen(cs, items);
      if cs[b].count + 1 < cs[b].Limit() {
        AddBalances(cs, b);
      }
    }
  }

  /** HASH_MAKE_TABLE. */
  method MakeTable<K(!new)>(hash: K -> nat, h: Handle<K>, ghost none: seq<Handle<K>>)
    returns (t: Tbl<K>, ghost chains: seq<seq<Handle<K>>>)
    requires none == []
    ensures BucketsValid(hash, t, Set(none), chains)
    ensures t.numItems == 0 == Items(t.counters) && t.tail == h && Balanced(t.counters)
    ensures Blank(t)
  {
    var counters := NewCounters();
    EmptyCounters(counters);
    assert Pow2(5) == 32;
    t := Tbl(seq(32, i => null), counters, 5, 0, h, 0, 0, 0, false);
    chains := seq(32, i => []);
  }

  /** The bucket part of an addition does not touch the application order. */
  method EnterBucket<K(!new)>(hash: K -> nat, t: Tbl<K>, h: Handle<K>, ghost head: Handle?<K>,
      ghost s: seq<Handle<K>>, ghost chains: seq<seq<Handle<K>>>)
    returns (t': Tbl<K>, ghost chains': seq<seq<Handle<K>>>)
    requires OrderOk(head, t.tail, s)
    requires |chains| == Pow2(t.log2) && BucketsOk(Set(s), t.heads, t.counters, chains) && Sited(hash, chains)
    requires HoldsBut(hash, Set(s), h, chains)
    requires t.numItems == Items(t.counters) + 1 && (!t.noexpand ==> Balanced(t.counters))
    modifies Set(s)`hhNext, Set(s)`hhPrev
    ensures OrderOk(head, t'.tail, s)
    ensures BucketsValid(hash, t', Set(s), chains') && t'.numItems == t.numItems
    ensures (!t'.noexpand ==> Balanced(t'.counters)) && Entered(t, Slot(hash, h.key, |chains|), t')
  {
    t', chains' := AddToBucket(hash, t, h, Set(s), chains);
  }

  /** Adding a handle that no chain holds. */
  lemma NotYet<K(!new)>(hash: K -> nat, all: set<Handle<K>>, h: Handle<K>, heads: seq<Handle?<K>>, cs: seq<Counter>,
      chains: seq<seq<Handle<K>>>)
    requires |chains| > 0 && BucketsOk(all, heads, cs, chains) && Holds(hash, all, chains)
    requires h !in all && h.hashv == hash(h.key)
    ensures BucketsOk(all + {h}, heads, cs, chains) && HoldsBut(hash, all + {h}, h, chains)
  {
  }

  /** The order part of an addition does not touch the buckets. */
  method EnterOrder<K(!new)>(hash: K -> nat, head: Handle<K>, t: Tbl<K>, h: Handle<K>,
      ghost order: seq<Handle<K>>, ghost chains: seq<seq<Handle<K>>>)
    requires OrderOk(head, t.tail, order) && BucketsValid(hash, t, Set(order), chains)
    requires h !in order && forall x | x in order :: x.key != h.key
    modifies h`next, h`prev, Set(order)`next
    ensures OrderOk(head, h, order + [h]) && BucketsValid(hash, t, Set(order), chains)
  {
    assert t.tail in order;
    LinkLast(t.tail, h, head, order);
  }

  /** The hash is computed and the handle entered in its bucket. */
  method EnterHash<K(!new)>(hash: K -> nat, t: Tbl<K>, h: Handle<K>, ghost head: Handle?<K>,
      ghost order: seq<Handle<K>>, ghost chains: seq<seq<Handle<K>>>)
    returns (t': Tbl<K>, ghost chains': seq<seq<Handle<K>>>)
    requires h !in order && OrderOk(head, h, order + [h])
    requires BucketsValid(hash, t, Set(order), chains) && (!t.noexpand ==> Balanced(t.counters))
    modifies h`hashv, Set(order + [h])`hhNext, Set(order + [h])`hhPrev
    ensures OrderOk(head, t'.tail, order + [h])
    ensures BucketsValid(hash, t', Set(order + [h]), chains') && t'.numItems == t.numItems + 1
    ensures (!t'.noexpand ==> Balanced(t'.counters)) && Entered(t, Slot(hash, h.key, |chains|), t')
  {
    h.hashv := hash(h.key);
    assert Set(order + [h]) == Set(order) + {h};
    NotYet(hash, Set(order), h, t.heads, t.counters, chains);
    t', chains' := EnterBucket(hash, t.(tail := h, numItems := t.numItems + 1), h, head, order + [h], chains);
  }

  /** The pointers an addition may write: those of the new handle and of the handles in the table. */
  method AddMore<K(!new)>(hash: K -> nat, head: Handle<K>, t: Tbl<K>, h: Handle<K>,
      ghost order: seq<Handle<K>>, ghost chains: seq<seq<Handle<K>>>)
    returns (t': Tbl<K>, ghost chains': seq<seq<Handle<K>>>)
    requires Valid(hash, head, t, order, chains)
    requires h !in order && forall x | x in order :: x.key != h.key
    modifies h, Set(order)
    ensures Valid(hash, head, t', order + [h], chains') && |t.counters| > 0
    ensures Entered(t, Slot(hash, h.key, |t.counters|), t')
  {
    EnterOrder(hash, head, t, h, order, chains);
    t', chains' := EnterHash(hash, t, h, head, order, chains);
  }

  /** The first handle is alone in the application order. */
  method LinkFirst<K(!new)>(h: Handle<K>, ghost none: seq<Handle<K>>)
    requires none == []
    modifies h`next, h`prev
    ensures OrderOk(h, h, none + [h]) && |none + [h]| == 1
  {
    h.next := null;
    h.prev := null;
  }

  method AddFirst<K(!new)>(hash: K -> nat, h: Handle<K>, ghost none: seq<Handle<K>>)
    returns (t: Tbl<K>, ghost chains: seq<seq<Handle<K>>>, ghost t0: Tbl<K>)
    requires none == []
    modifies h
    ensures Valid(hash, h, t, none + [h], chains)
    ensures Blank(t0) && Entered(t0, Slot(hash, h.key, 32), t)
  {
    LinkFirst(h, none);
    t, chains := MakeTable(hash, h, none);
    t0 := t;
    t, chains := EnterHash(hash, t, h, h, none, chains);
  }

  /** HASH_ADD_KEYPTR of a fresh key: the new element comes last. */
  method Add<K(!new)>(hash: K -> nat, head: Handle?<K>, t: Tbl<K>, h: Handle<K>,
      ghost order: seq<Handle<K>>, ghost chains: seq<seq<Handle<K>>>)
    returns (head': Handle<K>, t': Tbl<K>, ghost chains': seq<seq<Handle<K>>>, ghost t0: Tbl<K>)
    requires Valid(hash, head, t, order, chains)
    requires h !in order && forall x | x in order :: x.key != h.key
    modifies h, Set(order)
    ensures Valid(hash, head', t', order + [h], chains')
    ensures (if head == null then Blank(t0) else t0 == t) && |t0.counters| > 0
    ensures Entered(t0, Slot(hash, h.key, |t0.counters|), t')
  {
    if head == null {
      head' := h;
      t', chains', t0 := AddFirst(hash, h, order);
    } else {
      head', t0 := head, t;
      t', chains' := AddMore(hash, head, t, h, order, chains);
    }
  }

  // ----- HASH_DELETE -----

  ghost function Without<K(!new)>(s: seq<Handle<K>>, k: nat): seq<Handle<K>>
    requires k < |s|
  {
    s[..k] + s[k + 1..]
  }

  /** Cutting position `k` keeps everything else, once and in order. */
  lemma WithoutKeeps<K(!new)>(s: seq<Handle<K>>, k: nat)
    requires k < |s| && NoDup(s)
    ensures NoDup(Without(s, k)) && (KeysDistinct(s) ==> KeysDistinct(Without(s, k)))
    ensures forall x :: x in Without(s, k) <==> x in s && x != s[k]
  {
    var w := Without(s, k);
    forall x
      ensures x in w <==> x in s && x != s[k]
    {
      if x in s && x != s[k] {
        var i :| 0 <= i < |s| && s[i] == x;
        assert x == w[if i < k then i else i - 1];
      }
    }
  }

  /** Where the element behind and before position `i` of the rest came from. */
  lemma Neighbours<K(!new)>(s: seq<Handle<K>>, k: nat, i: nat)
    requires k < |s| && i + 1 < |s|
    ensures var d, j := Without(s, k), if i < k then i else i + 1;
      && d[i] == s[j]
      && At(d, i + 1) == (if j == k - 1 then At(s, k + 1) else At(s, j + 1))
      && At(d, i - 1) == (if j == k + 1 then At(s, k - 1) else At(s, j - 1))
  {
  }

  /** The hh pointers once position `k` of `c` is bypassed. */
  ghost predicate HhBypassed<K(!new)>(c: seq<Handle<K>>, k: nat)
    reads c`hhNext, c`hhPrev
  {
    forall i | 0 <= i < |c| && i != k ::
      && c[i].hhNext == (if i == k - 1 then At(c, k + 1) else At(c, i + 1))
      && c[i].hhPrev == (if i == k + 1 then At(c, k - 1) else At(c, i - 1))
  }

  lemma HhBypassLinks<K(!new)>(c: seq<Handle<K>>, k: nat)
    requires k < |c| && HhBypassed(c, k)
    ensures HhLinked(Without(c, k))
  {
    var d := Without(c, k);
    forall i | 0 <= i < |d|
      ensures d[i].hhNext == At(d, i + 1) && d[i].hhPrev == At(d, i - 1)
    {
      Neighbours(c, k, i);
    }
  }

  /** HASH_DEL_IN_BKT on the pointers of the chain of `h`. */
  method BypassChain<K(!new)>(head: Handle?<K>, h: Handle<K>, ghost c: seq<Handle<K>>, ghost k: nat)
    returns (head': Handle?<K>)
    requires NoDup(c) && HhLinked(c) && k < |c| && c[k] == h && head == At(c, 0)
    modifies c`hhNext, c`hhPrev
    ensures HhBypassed(c, k) && head' == if k == 0 then At(c, 1) else head
  {
    head' := head;
    if head == h {
      head' := h.hhNext;
    }
    if h.hhPrev != null {
      assert h.hhPrev == c[k - 1];
      h.hhPrev.hhNext := h.hhNext;
    }
    if h.hhNext != null {
      assert h.hhNext == c[k + 1];
      h.hhNext.hhPrev := h.hhPrev;
    }
  }

  method UnlinkChain<K(!new)>(head: Handle?<K>, h: Handle<K>, ghost c: seq<Handle<K>>, ghost k: nat)
    returns (head': Handle?<K>)
    requires BucketOk(head, |c|, c) && k < |c| && c[k] == h
    modifies c`hhNext, c`hhPrev
    ensures BucketOk(head', |c| - 1, Without(c, k))
  {
    head' := BypassChain(head, h, c, k);
    HhBypassLinks(c, k);
    WithoutKeeps(c, k);
  }

  /** The application order pointers once position `k` of `s` is bypassed. */
  ghost predicate OrderBypassed<K(!new)>(s: seq<Handle<K>>, k: nat)
    reads s`next, s`prev
  {
    forall i | 0 <= i < |s| && i != k ::
      && s[i].next == (if i == k - 1 then At(s, k + 1) else At(s, i + 1))
      && s[i].prev == (if i == k + 1 then At(s, k - 1) else At(s, i - 1))
  }

  lemma OrderBypassLinks<K(!new)>(s: seq<Handle<K>>, k: nat)
    requires k < |s| && OrderBypassed(s, k)
    ensures OrderLinked(Without(s, k))
  {
    var d := Without(s, k);
    forall i | 0 <= i < |d|
      ensures d[i].next == At(d, i + 1) && d[i].prev == At(d, i - 1)
    {
      Neighbours(s, k, i);
    }
  }

  method BypassOrder<K(!new)>(head: Handle?<K>, h: Handle<K>, ghost s: seq<Handle<K>>, ghost k: nat)
    returns (head': Handle?<K>)
    requires NoDup(s) && OrderLinked(s) && k < |s| && s[k] == h && head == At(s, 0)
    modifies s`next, s`prev
    ensures OrderBypassed(s, k) && head' == if k == 0 then At(s, 1) else head
  {
    head' := head;
    if h.prev != null {
      assert h.prev == s[k - 1];
      h.prev.next := h.next;
    } else {
      head' := h.next;
    }
    if h.next != null {
      assert h.next == s[k + 1];
      h.next.prev := h.prev;
    }
  }

  /** The same unlinking in the application order; head and tail are fixed up. */
  method UnlinkOrder<K(!new)>(head: Handle?<K>, tail: Handle?<K>, h: Handle<K>, ghost s: seq<Handle<K>>, ghost k: nat,
      ghost all: set<Handle<K>>) returns (head': Handle?<K>, tail': Handle?<K>)
    requires OrderOk(head, tail, s) && k < |s| && s[k] == h && forall x | x in s :: x in all
    modifies all`next, all`prev
    ensures OrderOk(head', tail', Without(s, k))
  {
    assert h.prev == At(s, k - 1);
    tail' := if h == tail then h.prev else tail;
    head' := BypassOrder(head, h, s, k);
    OrderBypassLinks(s, k);
    WithoutKeeps(s, k);
    EndsFixed(head, tail, head', tail', s, k);
  }

  lemma EndsFixed<K(!new)>(head: Handle?<K>, tail: Handle?<K>, head': Handle?<K>, tail': Handle?<K>,
      s: seq<Handle<K>>, k: nat)
    requires NoDup(s) && k < |s| && head == At(s, 0) && tail == At(s, |s| - 1)
    requires head' == (if k == 0 then At(s, 1) else head) && tail' == (if s[k] == tail then At(s, k - 1) else tail)
    ensures head' == At(Without(s, k), 0) && tail' == At(Without(s, k), |Without(s, k)| - 1)
  {
    WithoutEnds(s, k);
  }

  lemma WithoutEnds<K(!new)>(s: seq<Handle<K>>, k: nat)
    requires k < |s|
    ensures At(Without(s, k), 0) == At(s, if k == 0 then 1 else 0)
    ensures At(Without(s, k), |s| - 2) == At(s, if k == |s| - 1 then |s| - 2 else |s| - 1)
  {
  }

  /** The chains once position `k` of chain `b` is cut. */
  ghost function Cut<K(!new)>(chains: seq<seq<Handle<K>>>, b: nat, k: nat): seq<seq<Handle<K>>>
    requires b < |chains| && k < |chains[b]|
  {
    chains[b := Without(chains[b], k)]
  }

  /** What a cut means for the table as a set. */
  lemma CutKeeps<K(!new)>(hash: K -> nat, all: set<Handle<K>>, chains: seq<seq<Handle<K>>>, b: nat, k: nat)
    requires Sited(hash, chains) && b < |chains| && k < |chains[b]| && NoDup(chains[b])
    requires forall i, x | 0 <= i < |chains| && x in chains[i] :: x in all
    ensures Sited(hash, Cut(chains, b, k))
    ensures forall i, x | 0 <= i < |chains| && x in Cut(chains, b, k)[i] :: x in all - {chains[b][k]}
    ensures forall x | x != chains[b][k] && Has(hash, chains, x) :: Has(hash, Cut(chains, b, k), x)
  {
    WithoutKeeps(chains[b], k);
    var h, d := chains[b][k], Cut(chains, b, k);
    forall i, x | 0 <= i < |chains| && x in d[i]
      ensures x in all - {h} && Slot(hash, x.key, |chains|) == i
    {
      assert x in chains[i];
      if i != b {
        Elsewhere(hash, chains, b, i, h);
      }
    }
  }

  /** Unlink `h` from its chain; the other chains are not touched. */
  method PullOut<K(!new)>(hash: K -> nat, heads: seq<Handle?<K>>, cs: seq<Counter>, b: nat, h: Handle<K>,
      ghost all: set<Handle<K>>, ghost chains: seq<seq<Handle<K>>>, ghost k: nat)
    returns (head: Handle?<K>)
    requires BucketsOk(all, heads, cs, chains) && Sited(hash, chains)
    requires b < |chains| && k < |chains[b]| && chains[b][k] == h
    modifies all`hhNext, all`hhPrev
    ensures BucketOk(head, cs[b].count - 1, Without(chains[b], k))
    ensures forall i | 0 <= i < |chains| && i != b :: BucketOk(heads[i], cs[i].count, chains[i])
  {
    assert forall x | x in chains[b] :: x in all;
    head := UnlinkChain(heads[b], h, chains[b], k);
    forall i | 0 <= i < |chains| && i != b
      ensures BucketOk(heads[i], cs[i].count, chains[i])
    {
      forall x | x in chains[i]
        ensures x.hhNext == old(x.hhNext) && x.hhPrev == old(x.hhPrev)
      {
        Elsewhere(hash, chains, i, b, x);
      }
      assert old(BucketOk(heads[i], cs[i].count, chains[i]));
    }
  }

  /** The buckets after the cut. */
  lemma CutBuckets<K(!new)>(all: set<Handle<K>>, heads: seq<Handle?<K>>, head: Handle?<K>, cs: seq<Counter>,
      chains: seq<seq<Handle<K>>>, b: nat, k: nat)
    requires |heads| == |cs| == |chains| && b < |chains| && k < |chains[b]| && cs[b].count > 0
    requires forall i, x | 0 <= i < |chains| && x in Cut(chains, b, k)[i] :: x in all
    requires BucketOk(head, cs[b].count - 1, Without(chains[b], k))
    requires forall i | 0 <= i < |chains| && i != b :: BucketOk(heads[i], cs[i].count, chains[i])
    ensures BucketsOk(all, heads[b := head], Lowered(cs, b), Cut(chains, b, k))
  {
    var heads', chains' := heads[b := head], Cut(chains, b, k);
    forall i | 0 <= i < |chains|
      ensures BucketOk(heads'[i], Lowered(cs, b)[i].count, chains'[i])
    {
      assert i != b ==> heads'[i] == heads[i] && chains'[i] == chains[i];
    }
  }

  /** HASH_DEL_IN_BKT in the table. */
  method LeaveChain<K(!new)>(hash: K -> nat, heads: seq<Handle?<K>>, cs: seq<Counter>, b: nat, h: Handle<K>,
      ghost all: set<Handle<K>>, ghost chains: seq<seq<Handle<K>>>, ghost k: nat)
    returns (heads': seq<Handle?<K>>)
    requires b < |chains| && k < |chains[b]| && chains[b][k] == h
    requires BucketsOk(all, heads, cs, chains) && Sited(hash, chains)
    modifies all`hhNext, all`hhPrev
    ensures cs[b].count > 0
    ensures BucketsOk(all - {h}, heads', Lowered(cs, b), Cut(chains, b, k))
  {
    CutKeeps(hash, all, chains, b, k);
    var head := PullOut(hash, heads, cs, b, h, all, chains, k);
    heads' := heads[b := head];
    CutBuckets(all - {h}, heads, head, cs, chains, b, k);
  }

  /** The bucket part of a deletion. */
  method LeaveBucket<K(!new)>(hash: K -> nat, t: Tbl<K>, h: Handle<K>, ghost all: set<Handle<K>>,
      ghost chains: seq<seq<Handle<K>>>)
    returns (t': Tbl<K>, ghost chains': seq<seq<Handle<K>>>)
    requires BucketsValid(hash, t, all, chains) && h in all && (!t.noexpand ==> Balanced(t.counters))
    modifies all`hhNext, all`hhPrev
    ensures BucketsValid(hash, t', all - {h}, chains') && t'.tail == t.tail && t'.numItems == t.numItems - 1
    ensures (!t'.noexpand ==> Balanced(t'.counters)) && Lessened(t, Slot(hash, h.key, |chains|), t')
  {
    ghost var k := Located(hash, t, all, chains, h);
    var b := h.hashv % |t.heads|;
    t', chains' := LeaveSlot(hash, t, b, h, all, chains, k);
    if !t.noexpand { DeleteBalances(t.counters, b); }
  }

  /** The same, once the bucket is known. */
  method LeaveSlot<K(!new)>(hash: K -> nat, t: Tbl<K>, b: nat, h: Handle<K>, ghost all: set<Handle<K>>,
      ghost chains: seq<seq<Handle<K>>>, ghost k: nat)
    returns (t': Tbl<K>, ghost chains': seq<seq<Handle<K>>>)
    requires BucketsValid(hash, t, all, chains)
    requires b < |chains| && k < |chains[b]| && chains[b][k] == h && NoDup(chains[b])
    requires b < |t.counters| && t.counters[b].count == |chains[b]|
    modifies all`hhNext, all`hhPrev
    ensures BucketsValid(hash, t', all - {h}, chains') && t'.tail == t.tail && t'.numItems == t.numItems - 1
    ensures Lessened(t, b, t')
  {
    LoweredItems(t.counters, b);
    CutHolds(hash, all, chains, b, k);
    var heads := LeaveChain(hash, t.heads, t.counters, b, h, all, chains, k);
    chains' := Cut(chains, b, k);
    t' := t.(heads := heads, counters := Lowered(t.counters, b), numItems := t.numItems - 1);
    assert |chains'| == Pow2(t'.log2);
  }

  /** What the buckets hold once one handle is cut out. */
  lemma CutHolds<K(!new)>(hash: K -> nat, all: set<Handle<K>>, chains: seq<seq<Handle<K>>>, b: nat, k: nat)
    requires |chains| > 0 && Sited(hash, chains) && Holds(hash, all, chains)
    requires b < |chains| && k < |chains[b]| && NoDup(chains[b])
    requires forall i, x | 0 <= i < |chains| && x in chains[i] :: x in all
    ensures |Cut(chains, b, k)| == |chains|
    ensures Sited(hash, Cut(chains, b, k)) && Holds(hash, all - {chains[b][k]}, Cut(chains, b, k))
  {
    CutKeeps(hash, all, chains, b, k);
  }

  /** The stored hash leads to the chain of the handle. */
  lemma Located<K(!new)>(hash: K -> nat, t: Tbl<K>, all: set<Handle<K>>, chains: seq<seq<Handle<K>>>, h: Handle<K>)
    returns (k: nat)
    requires BucketsValid(hash, t, all, chains) && h in all
    ensures |t.heads| == |t.counters| == |chains| > 0
    ensures var b := h.hashv % |t.heads|;
      k < |chains[b]| && chains[b][k] == h && NoDup(chains[b]) && t.counters[b].count == |chains[b]|
  {
    var b := h.hashv % |t.heads|;
    assert b == Slot(hash, h.key, |chains|) && Has(hash, chains, h);
    assert BucketOk(t.heads[b], t.counters[b].count, chains[b]);
    k :| 0 <= k < |chains[b]| && chains[b][k] == h;
  }

  lemma LoweredItems(cs: seq<Counter>, b: nat)
    requires b < |cs| && cs[b].count > 0
    ensures Items(Lowered(cs, b)) == Items(cs) - 1
  {
    Update(cs, b, cs[b].(count := cs[b].count - 1));
  }

  lemma WithoutSet<K(!new)>(s: seq<Handle<K>>, k: nat)
    requires k < |s| && NoDup(s)
    ensures Set(Without(s, k)) == Set(s) - {s[k]}
  {
    WithoutKeeps(s, k);
  }

  /** The order part of a deletion does not touch the buckets. */
  method LeaveOrder<K(!new)>(hash: K -> nat, head: Handle<K>, t: Tbl<K>, h: Handle<K>,
      ghost order: seq<Handle<K>>, ghost chains: seq<seq<Handle<K>>>, ghost k: nat, ghost all: set<Handle<K>>)
    returns (head': Handle?<K>, tail': Handle?<K>)
    requires k < |order| && order[k] == h && OrderOk(head, t.tail, order) && forall x | x in order :: x in all
    modifies all`next, all`prev
    ensures BucketsValid(hash, t, all, chains) == old(BucketsValid(hash, t, all, chains))
    ensures Ordered(head', tail', Without(order, k))
  {
    head', tail' := UnlinkOrder(head, t.tail, h, order, k, all);
  }

  /** The bucket part does not touch the order. */
  method LeaveHash<K(!new)>(hash: K -> nat, t: Tbl<K>, h: Handle<K>, ghost all: set<Handle<K>>,
      ghost head: Handle?<K>, ghost order: seq<Handle<K>>, ghost chains: seq<seq<Handle<K>>>)
    returns (t': Tbl<K>, ghost chains': seq<seq<Handle<K>>>)
    requires BucketsValid(hash, t, all, chains) && h in all && (!t.noexpand ==> Balanced(t.counters))
    requires OrderOk(head, t.tail, order) && Set(order) == all - {h}
    modifies all`hhNext, all`hhPrev
    ensures BucketsValid(hash, t', Set(order), chains') && t'.numItems == t.numItems - 1
    ensures OrderOk(head, t'.tail, order) && (!t'.noexpand ==> Balanced(t'.counters))
    ensures Lessened(t, Slot(hash, h.key, |chains|), t')
  {
    t', chains' := LeaveBucket(hash, t, h, all, chains);
  }

  /** The deletion of an element that is not alone. */
  method DeleteOne<K(!new)>(hash: K -> nat, head: Handle<K>, t: Tbl<K>, h: Handle<K>,
      ghost order: seq<Handle<K>>, ghost chains: seq<seq<Handle<K>>>, ghost k: nat)
    returns (head': Handle?<K>, t': Tbl<K>, ghost chains': seq<seq<Handle<K>>>)
    requires Valid(hash, head, t, order, chains) && k < |order| && order[k] == h && |order| > 1
    modifies Set(order)
    ensures head' != null && Valid(hash, head', t', Without(order, k), chains') && |t.counters| > 0
    ensures Lessened(t, Slot(hash, h.key, |t.counters|), t')
  {
    WithoutSet(order, k);
    WithoutKeeps(order, k);
    var tail;
    head', tail := LeaveOrder(hash, head, t, h, order, chains, k, Set(order));
    t', chains' := LeaveHash(hash, t.(tail := tail), h, Set(order), head', Without(order, k), chains);
  }

  /** HASH_DELETE: the survivors keep their order; the last element takes the table with it. */
  method Delete<K(!new)>(hash: K -> nat, head: Handle<K>, t: Tbl<K>, h: Handle<K>,
      ghost order: seq<Handle<K>>, ghost chains: seq<seq<Handle<K>>>, ghost k: nat)
    returns (head': Handle?<K>, t': Tbl<K>, ghost chains': seq<seq<Handle<K>>>)
    requires Valid(hash, head, t, order, chains) && k < |order| && order[k] == h
    modifies Set(order)
    ensures Valid(hash, head', t', Without(order, k), chains')
    ensures head' != null ==> |t.counters| > 0 && Lessened(t, Slot(hash, h.key, |t.counters|), t')
  {
    if h.prev == null && h.next == null {
      head', t', chains' := null, t, chains;
    } else {
      head', t', chains' := DeleteOne(hash, head, t, h, order, chains, k);
    }
  }

  // ----- The table as a map, over whole runs -----

  /** The map from keys to handles that the table stands for. */
  ghost function Dict<K(!new)>(order: seq<Handle<K>>): map<K, Handle<K>>
    requires KeysDistinct(order)
  {
    map h | h in order :: h.key := h
  }

  lemma AddExtends<K(!new)>(order: seq<Handle<K>>, h: Handle<K>)
    requires KeysDistinct(order) && forall x | x in order :: x.key != h.key
    ensures KeysDistinct(order + [h]) && Dict(order + [h]) == Dict(order)[h.key := h]
  {
    var w := order + [h];
    assert forall x | x in order :: x in w;
    assert h == w[|order|];
  }

  lemma DeleteRemoves<K(!new)>(order: seq<Handle<K>>, k: nat)
    requires KeysDistinct(order) && NoDup(order) && k < |order|
    ensures KeysDistinct(Without(order, k)) && Dict(Without(order, k)) == Dict(order) - {order[k].key}
  {
    WithoutKeeps(order, k);
    var h, w := order[k], Without(order, k);
    forall x | x in order
      ensures x in w <==> x.key != h.key
    {
      var i :| 0 <= i < |order| && order[i] == x;
    }
    assert Dict(w).Keys == Dict(order).Keys - {h.key};
  }

  /** While expansion is not inhibited, every chain is within its limit, and the chains hold the elements once. */
  lemma ChainBound<K(!new)>(hash: K -> nat, head: Handle<K>, t: Tbl<K>, order: seq<Handle<K>>,
      chains: seq<seq<Handle<K>>>, b: nat)
    requires Valid(hash, head, t, order, chains) && b < |chains|
    ensures !t.noexpand ==> |chains[b]| <= 10 * (t.counters[b].mult + 1)
    ensures Items(t.counters) == |order|
    ensures forall h | h in order :: h in chains[b] <==> hash(h.key) % |chains| == b
  {
    assert BucketOk(t.heads[b], t.counters[b].count, chains[b]);
    forall h | h in order
      ensures Has(hash, chains, h)
    {
      assert h in Set(order);
    }
  }

  /** What a client does: add an element whose key is new, delete the element with a key. */
  datatype Op<K(!new)> = Put(h: Handle<K>) | Drop(key: K)

  ghost predicate Present<K(!new)>(order: seq<Handle<K>>, key: K) {
    exists k :: 0 <= k < |order| && order[k].key == key
  }

  /** Application order after one operation. */
  ghost function After<K(!new)>(order: seq<Handle<K>>, op: Op<K>): seq<Handle<K>> {
    match op
    case Put(h) => if Present(order, h.key) then order else order + [h]
    case Drop(key) =>
      if Present(order, key) then
        var k :| 0 <= k < |order| && order[k].key == key;
        Without(order, k)
      else order
  }

  ghost function Final<K(!new)>(ops: seq<Op<K>>): seq<Handle<K>> {
    if ops == [] then [] else After(Final(ops[..|ops| - 1]), ops[|ops| - 1])
  }

  // ----- What hash and operations make of the counters -----

  /** The counters of a table, and which of its expansions left more than half of the items beyond the ideal length. */
  datatype Shape = Shape(cs: seq<Counter>, log: seq<bool>)

  function Start(): Shape { Shape(NewCounters(), []) }

  /** How many elements of `s` belong in bucket `b` of `n`. */
  ghost function Residents<K(!new)>(hash: K -> nat, s: seq<Handle<K>>, n: nat, b: int): nat
    requires n > 0
  {
    if s == [] then 0
    else Residents(hash, s[..|s| - 1], n, b) + if Slot(hash, s[|s| - 1].key, n) == b then 1 else 0
  }

  /** The counters when the elements of `s` are spread over `n` buckets. */
  ghost function Spread<K(!new)>(hash: K -> nat, s: seq<Handle<K>>, n: nat, ideal: nat): seq<Counter>
    requires n > 0 && ideal > 0
  {
    seq(n, b => var count := Residents(hash, s, n, b); Counter(count, MultFor(count, ideal)))
  }

  /** The shape once an element with key `key` is added, which makes `s` of the application order. */
  ghost function Grown<K(!new)>(hash: K -> nat, s: seq<Handle<K>>, sh: Shape, key: K): (r: Shape)
    requires |sh.cs| > 0 && |s| > 0
    ensures |r.cs| > 0
  {
    var b := Slot(hash, key, |sh.cs|);
    var cs := Raised(sh.cs, b);
    if cs[b].count >= cs[b].Limit() && !TwoInRow(sh.log) then
      var n := 2 * |cs|;
      var ideal := Ideal(|s|, n);
      IdealIsCeiling(|s|, n);
      var spread := Spread(hash, s, n, ideal);
      Shape(spread, sh.log + [Excess(spread, ideal) > |s| / 2])
    else Shape(cs, sh.log)
  }

  /** The shape once an element with key `key` is deleted. */
  ghost function Shrunk<K(!new)>(hash: K -> nat, sh: Shape, key: K): (r: Shape)
    requires |sh.cs| > 0
    ensures |r.cs| > 0
  {
    var b := Slot(hash, key, |sh.cs|);
    if sh.cs[b].count > 0 then Shape(Lowered(sh.cs, b), sh.log) else sh
  }

  /** The shape after one operation on a table with application order `s`. */
  ghost function Reshaped<K(!new)>(hash: K -> nat, s: seq<Handle<K>>, sh: Shape, op: Op<K>): (r: Shape)
    requires |sh.cs| > 0
    ensures |r.cs| > 0
  {
    match op
    case Put(h) =>
      if Present(s, h.key) then sh else Grown(hash, s + [h], if s == [] then Start() else sh, h.key)
    case Drop(key) => if Present(s, key) then Shrunk(hash, sh, key) else sh
  }

  /** The shape after a run: hash and operations determine it. */
  ghost function ShapeAfter<K(!new)>(hash: K -> nat, ops: seq<Op<K>>): (r: Shape)
    ensures |r.cs| > 0
  {
    if ops == [] then Start()
    else
      var before := ops[..|ops| - 1];
      Reshaped(hash, Final(before), ShapeAfter(hash, before), ops[|ops| - 1])
  }

  /** The table has the shape. */
  ghost predicate Shaped<K(!new)>(t: Tbl<K>, sh: Shape) {
    t.counters == sh.cs && t.ineff == Trailing(sh.log) && (t.noexpand <==> TwoInRow(sh.log))
  }

  lemma NonEmpty<K(!new)>(c: seq<Handle<K>>, s: seq<Handle<K>>)
    requires forall x :: x in c ==> x in s
    ensures |c| > 0 ==> |s| > 0
  {
    if |c| > 0 {
      assert c[0] in s;
    }
  }

  /** A chain that holds the elements of its bucket is as long as there are such elements. */
  lemma {:induction false} ChainResidents<K(!new)>(hash: K -> nat, s: seq<Handle<K>>, n: nat, b: nat, c: seq<Handle<K>>)
    requires n > 0 && NoDup(s) && NoDup(c)
    requires forall x :: x in c <==> x in s && Slot(hash, x.key, n) == b
    ensures |c| == Residents(hash, s, n, b)
  {
    NonEmpty(c, s);
    if s != [] {
      var front, x := s[..|s| - 1], s[|s| - 1];
      assert x !in front && forall y :: y in s <==> y in front || y == x;
      if x in c {
        var k :| 0 <= k < |c| && c[k] == x;
        WithoutKeeps(c, k);
        ChainResidents(hash, front, n, b, Without(c, k));
      } else {
        ChainResidents(hash, front, n, b, c);
      }
    }
  }

  /** After an expansion the counters are those of the elements spread over the buckets. */
  lemma SpreadOut<K(!new)>(hash: K -> nat, head: Handle<K>, t: Tbl<K>, s: seq<Handle<K>>,
      chains: seq<seq<Handle<K>>>, ideal: nat)
    requires Valid(hash, head, t, s, chains) && ideal > 0 && Redistributed(t.counters, ideal)
    ensures |t.counters| > 0 && t.counters == Spread(hash, s, |t.counters|, ideal)
  {
    var n := |t.counters|;
    forall b | 0 <= b < n
      ensures t.counters[b].count == Residents(hash, s, n, b)
    {
      assert BucketOk(t.heads[b], t.counters[b].count, chains[b]);
      forall x
        ensures x in chains[b] <==> x in s && Slot(hash, x.key, n) == b
      {
        ChainHolds(hash, t, Set(s), chains, b, x);
      }
      ChainResidents(hash, s, n, b, chains[b]);
    }
  }

  lemma ChainHolds<K(!new)>(hash: K -> nat, t: Tbl<K>, all: set<Handle<K>>, chains: seq<seq<Handle<K>>>, b: nat,
      x: Handle<K>)
    requires BucketsValid(hash, t, all, chains) && b < |chains|
    ensures x in chains[b] <==> x in all && Slot(hash, x.key, |chains|) == b
  {
    assert x in all ==> Has(hash, chains, x);
  }

  /** An addition to the table is one to its shape. */
  lemma ShapeGrows<K(!new)>(hash: K -> nat, head: Handle<K>, t: Tbl<K>, t': Tbl<K>, s: seq<Handle<K>>,
      chains: seq<seq<Handle<K>>>, sh: Shape, key: K)
    requires Valid(hash, head, t', s, chains) && Shaped(t, sh) && |sh.cs| > 0
    requires Entered(t, Slot(hash, key, |sh.cs|), t')
    ensures |s| > 0 && Shaped(t', Grown(hash, s, sh, key))
  {
    var b := Slot(hash, key, |sh.cs|);
    var cs := Raised(sh.cs, b);
    if cs[b].count >= cs[b].Limit() && !TwoInRow(sh.log) {
      var ideal := Ideal(|s|, 2 * |cs|);
      SpreadOut(hash, head, t', s, chains, ideal);
      LogStep(sh.log, Excess(t'.counters, ideal) > |s| / 2);
    }
  }

  ghost function Handles<K(!new)>(ops: seq<Op<K>>): set<Handle<K>> {
    set op | op in ops && op.Put? :: op.h
  }

  /** Add an element whose key is not there yet. */
  method ApplyPut<K(==, !new)>(hash: K -> nat, head: Handle?<K>, t: Tbl<K>, h: Handle<K>,
      ghost order: seq<Handle<K>>, ghost chains: seq<seq<Handle<K>>>, ghost sh: Shape)
    returns (head': Handle?<K>, t': Tbl<K>, ghost chains': seq<seq<Handle<K>>>)
    requires Valid(hash, head, t, order, chains) && |sh.cs| > 0 && (head != null ==> Shaped(t, sh))
    modifies Set(order), h
    ensures Valid(hash, head', t', After(order, Put(h)), chains')
    ensures head' != null ==> Shaped(t', Reshaped(hash, order, sh, Put(h)))
  {
    var out := Find(hash, head, t, h.key, order, chains);
    if out == null {
      assert !Present(order, h.key);
      ghost var t0;
      head', t', chains', t0 := Add(hash, head, t, h, order, chains);
      ShapeGrows(hash, head', t0, t', order + [h], chains', if order == [] then Start() else sh, h.key);
    } else {
      assert Present(order, h.key);
      head', t', chains' := head, t, chains;
    }
  }

  lemma DropAt<K(!new)>(order: seq<Handle<K>>, out: Handle<K>) returns (k: nat)
    requires KeysDistinct(order) && out in order
    ensures k < |order| && order[k] == out && After(order, Drop(out.key)) == Without(order, k)
  {
    k :| 0 <= k < |order| && order[k] == out;
    assert Present(order, out.key);
    forall j | 0 <= j < |order| && order[j].key == out.key
      ensures j == k
    {
    }
  }

  /** Delete the element with a key, if there is one. */
  method ApplyDrop<K(==, !new)>(hash: K -> nat, head: Handle?<K>, t: Tbl<K>, key: K,
      ghost order: seq<Handle<K>>, ghost chains: seq<seq<Handle<K>>>, ghost sh: Shape)
    returns (head': Handle?<K>, t': Tbl<K>, ghost chains': seq<seq<Handle<K>>>)
    requires Valid(hash, head, t, order, chains) && |sh.cs| > 0 && (head != null ==> Shaped(t, sh))
    modifies Set(order)
    ensures Valid(hash, head', t', After(order, Drop(key)), chains')
    ensures head' != null ==> Shaped(t', Reshaped(hash, order, sh, Drop(key)))
  {
    var out := Find(hash, head, t, key, order, chains);
    if out != null {
      ghost var k := DropAt(order, out);
      head', t', chains' := Delete(hash, head, t, out, order, chains, k);
    } else {
      assert !Present(order, key);
      head', t', chains' := head, t, chains;
    }
  }

  method Apply<K(==, !new)>(hash: K -> nat, head: Handle?<K>, t: Tbl<K>, op: Op<K>,
      ghost order: seq<Handle<K>>, ghost chains: seq<seq<Handle<K>>>, ghost sh: Shape)
    returns (head': Handle?<K>, t': Tbl<K>, ghost chains': seq<seq<Handle<K>>>)
    requires Valid(hash, head, t, order, chains) && |sh.cs| > 0 && (head != null ==> Shaped(t, sh))
    modifies Set(order), if op.Put? then {op.h} else {}
    ensures Valid(hash, head', t', After(order, op), chains')
    ensures head' != null ==> Shaped(t', Reshaped(hash, order, sh, op))
  {
    match op
    case Put(h) => head', t', chains' := ApplyPut(hash, head, t, h, order, chains, sh);
    case Drop(key) => head', t', chains' := ApplyDrop(hash, head, t, key, order, chains, sh);
  }

  /** The effect of one operation on the map from keys to elements. */
  ghost function Mapped<K(!new)>(m: map<K, Handle<K>>, op: Op<K>): map<K, Handle<K>> {
    match op
    case Put(h) => if h.key in m then m else m[h.key := h]
    case Drop(key) => m - {key}
  }

  /** The map after a run: the fold of its operations. */
  ghost function FinalMap<K(!new)>(ops: seq<Op<K>>): map<K, Handle<K>> {
    if ops == [] then map[] else Mapped(FinalMap(ops[..|ops| - 1]), ops[|ops| - 1])
  }

  lemma DictHas<K(!new)>(order: seq<Handle<K>>, key: K)
    requires KeysDistinct(order)
    ensures Present(order, key) <==> key in Dict(order)
  {
  }

  lemma AfterMapped<K(!new)>(order: seq<Handle<K>>, op: Op<K>)
    requires KeysDistinct(order) && NoDup(order)
    ensures KeysDistinct(After(order, op)) && NoDup(After(order, op))
    ensures Dict(After(order, op)) == Mapped(Dict(order), op)
  {
    match op
    case Put(h) =>
      DictHas(order, h.key);
      if !Present(order, h.key) {
        AddExtends(order, h);
      }
    case Drop(key) =>
      DictHas(order, key);
      if Present(order, key) {
        var k :| 0 <= k < |order| && order[k].key == key && After(order, op) == Without(order, k);
        DeleteRemoves(order, k);
        WithoutKeeps(order, k);
      } else {
        assert Dict(order) - {key} == Dict(order);
      }
  }

  /** The survivors of a run, as a map, are what the operations make of the empty map. */
  lemma {:induction false} FinalIsMap<K(!new)>(ops: seq<Op<K>>)
    ensures KeysDistinct(Final(ops)) && NoDup(Final(ops)) && Dict(Final(ops)) == FinalMap(ops)
  {
    if ops != [] {
      FinalIsMap(ops[..|ops| - 1]);
      AfterMapped(Final(ops[..|ops| - 1]), ops[|ops| - 1]);
    }
  }

  lemma FinalStep<K(!new)>(hash: K -> nat, ops: seq<Op<K>>, i: nat)
    requires i < |ops|
    ensures Final(ops[..i + 1]) == After(Final(ops[..i]), ops[i])
    ensures ShapeAfter(hash, ops[..i + 1]) == Reshaped(hash, Final(ops[..i]), ShapeAfter(hash, ops[..i]), ops[i])
    ensures ops[i].Put? ==> ops[i].h in Handles(ops)
  {
    assert ops[..i + 1][..i] == ops[..i];
  }

  lemma AfterWithin<K(!new)>(order: seq<Handle<K>>, op: Op<K>, all: set<Handle<K>>)
    requires Set(order) <= all && (op.Put? ==> op.h in all)
    ensures Set(After(order, op)) <= all
  {
    forall h | h in After(order, op)
      ensures h in all
    {
      assert h in order ==> h in Set(order);
    }
  }

  /**
   * Any run of operations from the empty table ends in a valid table that holds the
   * survivors in insertion order. As a map they are the fold of the operations. Counters and
   * inhibition are those that hash and operations determine, and unless two expansions that
   * followed each other left more than half of their items beyond the ideal length, every
   * chain is within its limit.
   */
  method Play<K(==, !new)>(hash: K -> nat, ops: seq<Op<K>>)
    returns (head: Handle?<K>, t: Tbl<K>, ghost chains: seq<seq<Handle<K>>>)
    modifies Handles(ops)
    ensures Valid(hash, head, t, Final(ops), chains)
    ensures KeysDistinct(Final(ops)) && Dict(Final(ops)) == FinalMap(ops)
    ensures head != null ==> Shaped(t, ShapeAfter(hash, ops))
    ensures head != null && !TwoInRow(ShapeAfter(hash, ops).log) ==>
      |t.counters| == |chains| && forall b | 0 <= b < |chains| :: |chains[b]| <= 10 * (t.counters[b].mult + 1)
  {
    head, t, chains := null, Tbl([], [], 0, 0, null, 0, 0, 0, false), [];
    ghost var order, sh, all := Final(ops[..0]), ShapeAfter(hash, ops[..0]), Handles(ops);
    for i := 0 to |ops|
      invariant Valid(hash, head, t, order, chains) && |sh.cs| > 0 && (head != null ==> Shaped(t, sh))
      invariant order == Final(ops[..i]) && sh == ShapeAfter(hash, ops[..i]) && Set(order) <= all
    {
      FinalStep(hash, ops, i);
      AfterWithin(order, ops[i], all);
      head, t, chains := Apply(hash, head, t, ops[i], order, chains, sh);
      order, sh := After(order, ops[i]), Reshaped(hash, order, sh, ops[i]);
    }
    assert ops[..|ops|] == ops;
    FinalIsMap(ops);
    if head != null {
      forall b | 0 <= b < |chains|
        ensures !t.noexpand ==> |chains[b]| <= 10 * (t.counters[b].mult + 1)
      {
        ChainBound(hash, head, t, Final(ops), chains, b);
      }
    }
  }

  // ----- HASH_SRT -----

  /** The application order in the form in which the sort finds and leaves it. */
  lemma OrderIsLinked<K(!new)>(head: Handle?<K>, tail: Handle?<K>, s: seq<Handle<K>>)
    requires OrderOk(head, tail, s)
    ensures ListSort.Linked(head, tail, s, false)
  {
  }

  lemma LinkedIsOrder<K(!new)>(head: Handle?<K>, tail: Handle?<K>, s: seq<Handle<K>>)
    requires ListSort.Linked(head, tail, s, false) && KeysDistinct(s)
    ensures OrderOk(head, tail, s)
  {
    forall i | 0 <= i < |s|
      ensures s[i].next == At(s, i + 1) && s[i].prev == At(s, i - 1)
    {
    }
  }

  /** A permutation has the same elements, and distinct keys if the other has. */
  lemma SameElements<K(!new)>(r: seq<Handle<K>>, s: seq<Handle<K>>)
    requires multiset(r) == multiset(s) && NoDup(r) && KeysDistinct(s)
    ensures Set(r) == Set(s) && |r| == |s| && KeysDistinct(r)
  {
    assert |r| == |multiset(r)| == |multiset(s)| == |s|;
    forall h
      ensures h in r <==> h in s
    {
      assert h in r <==> h in multiset(r);
      assert h in s <==> h in multiset(s);
    }
    forall i, j | 0 <= i < j < |r|
      ensures r[i].key != r[j].key
    {
      assert r[i] in s && r[j] in s;
    }
  }

  /** The sort relinks the application order and does not touch the buckets. */
  method Relink<K(!new)>(hash: K -> nat, le: ListSort.Order<K>, head: Handle<K>, t: Tbl<K>,
      ghost order: seq<Handle<K>>, ghost chains: seq<seq<Handle<K>>>, ghost all: set<Handle<K>>)
    returns (list: Handle<K>, tail: Handle<K>)
    requires all == Set(order) && OrderOk(head, t.tail, order)
    modifies all`next, all`prev
    ensures BucketsValid(hash, t, all, chains) == old(BucketsValid(hash, t, all, chains))
    ensures ListSort.Linked(list, tail, ListSort.SortFrom(order, 1, le), false)
  {
    OrderIsLinked(head, t.tail, order);
    list, tail := ListSort.SortLinks(le, head, false, order, all);
  }

  /**
   * HASH_SRT: the application order is sorted, keeping equivalent elements in their order;
   * the buckets with all their chains stay as they are, and head and tail are those of the
   * new order.
   */
  method HashSort<K(!new)>(hash: K -> nat, le: ListSort.Order<K>, head: Handle?<K>, t: Tbl<K>,
      ghost order: seq<Handle<K>>, ghost chains: seq<seq<Handle<K>>>)
    returns (head': Handle?<K>, t': Tbl<K>, ghost order': seq<Handle<K>>)
    requires ListSort.TotalPreorder(le) && Valid(hash, head, t, order, chains)
    modifies Set(order)`next, Set(order)`prev
    ensures Valid(hash, head', t', order', chains) && t' == t.(tail := t'.tail)
    ensures ListSort.SortOf(order', order, le)
  {
    head', t', order' := head, t, order;
    if head != null {
      var tail;
      head', tail := Relink(hash, le, head, t, order, chains, Set(order));
      t', order' := t.(tail := tail), ListSort.SortFrom(order, 1, le);
      ListSort.FullySorted(order, le);
      SameElements(order', order);
      LinkedIsOrder(head', tail, order');
    }
  }
}
