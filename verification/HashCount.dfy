/** The counting argument behind the chain length bound of uthash.h. */
module HashCount {
  const CAPACITY_THRESH := 10

  /** The counters of a bucket: chain length and expansion multiplier. */
  datatype Counter = Counter(count: nat, mult: nat) {
    /** The chain length at which an addition asks for an expansion. */
    function Limit(): nat { (mult + 1) * CAPACITY_THRESH }
    predicate Full() { count == Limit() }
    function Load(): nat { mult + if Full() then 1 else 0 }
  }

  function Items(cs: seq<Counter>): nat {
    if cs == [] then 0 else Items(cs[..|cs| - 1]) + cs[|cs| - 1].count
  }

  function Loads(cs: seq<Counter>): nat {
    if cs == [] then 0 else Loads(cs[..|cs| - 1]) + cs[|cs| - 1].Load()
  }

  /**
   * What adds and deletes keep while expansion is not inhibited: every chain is within
   * its limit, and multipliers plus exactly full buckets are no more than the buckets.
   */
  ghost predicate Balanced(cs: seq<Counter>) {
    && (forall i | 0 <= i < |cs| :: cs[i].count <= cs[i].Limit())
    && Loads(cs) <= |cs|
  }

  lemma {:induction false} Update(cs: seq<Counter>, b: nat, c: Counter)
    requires b < |cs|
    ensures Items(cs[b := c]) == Items(cs) - cs[b].count + c.count
    ensures Loads(cs[b := c]) == Loads(cs) - cs[b].Load() + c.Load()
    decreases |cs|
  {
    var n := |cs| - 1;
    if b == n {
      assert cs[b := c][..n] == cs[..n];
    } else {
      Update(cs[..n], b, c);
      assert cs[b := c][..n] == cs[..n][b := c];
    }
  }

  /** A balanced table holds at most nineteen items per bucket. */
  lemma {:induction false} ItemsBound(cs: seq<Counter>)
    requires forall i | 0 <= i < |cs| :: cs[i].count <= cs[i].Limit()
    ensures Items(cs) <= 9 * |cs| + 10 * Loads(cs)
  {
    if cs != [] {
      ItemsBound(cs[..|cs| - 1]);
    }
  }

  /** The ideal chain length: items divided by buckets, rounded up, by shift and mask. */
  function Ideal(items: nat, buckets: nat): nat
    requires buckets > 0
  {
    items / buckets + if items % buckets != 0 then 1 else 0
  }

  lemma IdealIsCeiling(items: nat, buckets: nat)
    requires buckets > 0
    ensures Ideal(items, buckets) * buckets >= items
    ensures items > 0 ==> Ideal(items, buckets) >= 1 && (Ideal(items, buckets) - 1) * buckets < items
  {
    assert items == items / buckets * buckets + items % buckets;
    var q := items / buckets;
    assert (q + 1) * buckets == q * buckets + buckets;
    if items % buckets == 0 {
      assert (q - 1) * buckets == q * buckets - buckets;
      assert items > 0 ==> q >= 1 by {
        if q == 0 { assert items == 0 * buckets; }
      }
    }
  }

  lemma MulMono(a: nat, b: nat, c: nat)
    requires a <= b
    ensures a * c <= b * c
  {
  }

  /** If (i - 1) * n < x <= k * n then i is at most k. */
  lemma CeilingAtMost(i: nat, n: nat, x: nat, k: nat)
    requires i >= 1 && (i - 1) * n < x <= k * n
    ensures i <= k
  {
    if i > k {
      MulMono(k, i - 1, n);
    }
  }

  /** If x * k <= y <= k * n then x is at most n. */
  lemma QuotientAtMost(x: nat, k: nat, y: nat, n: nat)
    requires k >= 1 && x * k <= y <= k * n
    ensures x <= n
  {
    assert (n + 1) * k == n * k + k;
    if x > n {
      MulMono(n + 1, x, k);
    }
  }

  /** At every doubling of a balanced table the ideal chain length is at most ten. */
  lemma IdealAtMostTen(cs: seq<Counter>, items: nat)
    requires Balanced(cs) && |cs| > 0 && items == Items(cs) + 1
    ensures 1 <= Ideal(items, 2 * |cs|) <= 10
  {
    ItemsBound(cs);
    var n := 2 * |cs|;
    assert items <= 10 * n;
    IdealIsCeiling(items, n);
    CeilingAtMost(Ideal(items, n), n, items, 10);
  }

  /** The multiplier that the redistribution loop leaves in a bucket of `count` items. */
  function MultFor(count: nat, ideal: nat): nat
    requires ideal > 0
  {
    if count > ideal then count / ideal else 0
  }

  ghost predicate Redistributed(cs: seq<Counter>, ideal: nat)
    requires ideal > 0
  {
    forall i | 0 <= i < |cs| :: cs[i].mult == MultFor(cs[i].count, ideal)
  }

  // ----- How even a redistribution is -----

  /** What a chain has beyond the ideal length. */
  function Over(count: nat, ideal: nat): nat { if count > ideal then count - ideal else 0 }

  /** The items beyond the ideal length in all chains. */
  function Excess(cs: seq<Counter>, ideal: nat): nat {
    if cs == [] then 0 else Excess(cs[..|cs| - 1], ideal) + Over(cs[|cs| - 1].count, ideal)
  }

  lemma {:induction false} ExcessUpdate(cs: seq<Counter>, b: nat, c: Counter, ideal: nat)
    requires b < |cs|
    ensures Excess(cs[b := c], ideal) == Excess(cs, ideal) - Over(cs[b].count, ideal) + Over(c.count, ideal)
    decreases |cs|
  {
    var n := |cs| - 1;
    if b == n {
      assert cs[b := c][..n] == cs[..n];
    } else {
      ExcessUpdate(cs[..n], b, c, ideal);
      assert cs[b := c][..n] == cs[..n][b := c];
    }
  }

  /** Nothing is beyond the ideal length if and only if every chain is within it. */
  lemma {:induction false} NoExcess(cs: seq<Counter>, ideal: nat)
    ensures Excess(cs, ideal) == 0 <==> forall i | 0 <= i < |cs| :: cs[i].count <= ideal
  {
    if cs != [] {
      var n := |cs| - 1;
      NoExcess(cs[..n], ideal);
      if forall i | 0 <= i < n :: cs[..n][i].count <= ideal {
        assert forall i | 0 <= i < n :: cs[..n][i] == cs[i];
      }
    }
  }

  /** Items beyond the ideal length are items. */
  lemma {:induction false} ExcessBound(cs: seq<Counter>, ideal: nat)
    ensures Excess(cs, ideal) <= Items(cs) <= Excess(cs, ideal) + |cs| * ideal
  {
    if cs != [] {
      ExcessBound(cs[..|cs| - 1], ideal);
      assert |cs| * ideal == (|cs| - 1) * ideal + ideal;
    }
  }

  /** The ineffective expansions at the end of a table's history. */
  function Trailing(log: seq<bool>): nat {
    if log == [] || !log[|log| - 1] then 0 else 1 + Trailing(log[..|log| - 1])
  }

  /** Two ineffective expansions have followed each other. */
  ghost predicate TwoInRow(log: seq<bool>) { exists i :: 0 <= i < |log| - 1 && log[i] && log[i + 1] }

  /** One more expansion: the count of ineffective ones goes on or begins anew, and the second in a row is noticed. */
  lemma LogStep(log: seq<bool>, bad: bool)
    ensures Trailing(log + [bad]) == if bad then Trailing(log) + 1 else 0
    ensures TwoInRow(log + [bad]) <==> TwoInRow(log) || (bad && Trailing(log) >= 1)
  {
    var more := log + [bad];
    assert more[..|log|] == log;
    if TwoInRow(log) {
      var i :| 0 <= i < |log| - 1 && log[i] && log[i + 1];
      assert more[i] && more[i + 1];
    }
    if bad && Trailing(log) >= 1 {
      assert more[|log| - 1] && more[|log| - 1 + 1];
    }
    if TwoInRow(more) {
      var i :| 0 <= i < |more| - 1 && more[i] && more[i + 1];
      assert i < |log| - 1 ==> log[i] && log[i + 1];
    }
  }

  lemma ItemsStep(cs: seq<Counter>, i: nat)
    requires i < |cs|
    ensures Items(cs[..i + 1]) == Items(cs[..i]) + cs[i].count
  {
    assert cs[..i + 1][..i] == cs[..i];
  }

  lemma LoadBound(c: Counter, ideal: nat)
    requires 1 <= ideal <= 10 && c.mult == MultFor(c.count, ideal)
    ensures c.count <= c.Limit()
    ensures c.Load() * ideal <= c.count
  {
    if c.count > ideal {
      QuotientBound(c.count, ideal, c.mult);
    }
  }

  lemma QuotientBound(count: nat, ideal: nat, q: nat)
    requires 1 <= ideal <= 10 && q == count / ideal
    ensures q * ideal <= count < (q + 1) * ideal <= (q + 1) * 10
  {
    assert count == q * ideal + count % ideal;
    assert (q + 1) * ideal == q * ideal + ideal;
  }

  lemma {:induction false} LoadsBound(cs: seq<Counter>, ideal: nat)
    requires 1 <= ideal <= 10 && Redistributed(cs, ideal)
    ensures Loads(cs) * ideal <= Items(cs)
  {
    if cs != [] {
      var front, c := cs[..|cs| - 1], cs[|cs| - 1];
      LoadsBound(front, ideal);
      LoadBound(c, ideal);
      assert (Loads(front) + c.Load()) * ideal == Loads(front) * ideal + c.Load() * ideal;
    }
  }

  /** Doubling a table restores the balance. */
  lemma ExpandBalances(cs: seq<Counter>, items: nat)
    requires |cs| > 0 && items == Items(cs)
    requires 1 <= Ideal(items, |cs|) <= 10 && Redistributed(cs, Ideal(items, |cs|))
    ensures Balanced(cs)
  {
    var ideal := Ideal(items, |cs|);
    LoadsBound(cs, ideal);
    IdealIsCeiling(items, |cs|);
    forall i | 0 <= i < |cs|
      ensures cs[i].count <= cs[i].Limit()
    {
      LoadBound(cs[i], ideal);
    }
    QuotientAtMost(Loads(cs), ideal, items, |cs|);
  }

  /** An addition that does not ask for an expansion keeps the balance. */
  lemma AddBalances(cs: seq<Counter>, b: nat)
    requires Balanced(cs) && b < |cs| && cs[b].count + 1 < cs[b].Limit()
    ensures Balanced(Raised(cs, b))
  {
    Update(cs, b, cs[b].(count := cs[b].count + 1));
  }

  /** The counters after an addition to bucket `b`. */
  function Raised(cs: seq<Counter>, b: nat): seq<Counter>
    requires b < |cs|
  {
    cs[b := cs[b].(count := cs[b].count + 1)]
  }

  lemma RaisedItems(cs: seq<Counter>, b: nat)
    requires b < |cs|
    ensures Items(Raised(cs, b)) == Items(cs) + 1
  {
    Update(cs, b, cs[b].(count := cs[b].count + 1));
  }

  /** The counters of a new table. */
  function NewCounters(): seq<Counter> { seq(32, i => Counter(0, 0)) }

  /** The counters after a deletion. */
  function Lowered(cs: seq<Counter>, b: nat): seq<Counter>
    requires b < |cs| && cs[b].count > 0
  {
    cs[b := cs[b].(count := cs[b].count - 1)]
  }

  /** So does every deletion. */
  lemma DeleteBalances(cs: seq<Counter>, b: nat)
    requires Balanced(cs) && b < |cs| && cs[b].count > 0
    ensures Balanced(Lowered(cs, b))
  {
    Update(cs, b, cs[b].(count := cs[b].count - 1));
  }

  /** Fresh buckets are empty. */
  lemma {:induction false} EmptyCounters(cs: seq<Counter>)
    requires forall i | 0 <= i < |cs| :: cs[i] == Counter(0, 0)
    ensures Items(cs) == 0 && Loads(cs) == 0 && Balanced(cs)
  {
    if cs != [] {
      EmptyCounters(cs[..|cs| - 1]);
    }
  }
}
