/** The chained string table of hashtbl.c, for any hash function and any positive size. */
module StringTable {
  datatype Option<T> = None | Some(value: T)

  /** A node: a key and the data last stored under it. */
  datatype Node<D> = Node(key: string, data: D)

  /** Position of the first node with this key, or the length of the chain. */
  function Position<D>(chain: seq<Node<D>>, key: string): (i: nat)
    ensures i <= |chain| && (i < |chain| ==> chain[i].key == key)
    ensures forall j | 0 <= j < i :: chain[j].key != key
  {
    if chain == [] then 0
    else if chain[0].key == key then 0
    else 1 + Position(chain[1..], key)
  }

  function Lookup<D>(chain: seq<Node<D>>, key: string): Option<D> {
    var i := Position(chain, key);
    if i < |chain| then Some(chain[i].data) else None
  }

  ghost predicate Unique<D>(chain: seq<Node<D>>) {
    forall i, j | 0 <= i < j < |chain| :: chain[i].key != chain[j].key
  }

  /** With unique keys, any node answers for its key. */
  lemma LookupAt<D>(chain: seq<Node<D>>, i: nat)
    requires Unique(chain) && i < |chain|
    ensures Lookup(chain, chain[i].key) == Some(chain[i].data)
  {
  }

  lemma LookupNone<D>(chain: seq<Node<D>>, key: string)
    requires forall j | 0 <= j < |chain| :: chain[j].key != key
    ensures Lookup(chain, key) == None
  {
  }

  /** Overwriting the data of a node. */
  lemma SetNode<D>(chain: seq<Node<D>>, i: nat, data: D, other: string)
    requires Unique(chain) && i < |chain|
    ensures var c := chain[i := Node(chain[i].key, data)];
      Unique(c) && Lookup(c, other) == if other == chain[i].key then Some(data) else Lookup(chain, other)
  {
    var c := chain[i := Node(chain[i].key, data)];
    forall p, q | 0 <= p < q < |c|
      ensures c[p].key != c[q].key
    {
      assert c[p].key == chain[p].key && c[q].key == chain[q].key;
    }
    if other == chain[i].key {
      LookupAt(c, i);
    } else if j :| 0 <= j < |chain| && chain[j].key == other {
      LookupAt(chain, j);
      LookupAt(c, j);
    } else {
      LookupNone(c, other);
    }
  }

  /** A new node in front. */
  lemma AddNode<D>(chain: seq<Node<D>>, key: string, data: D, other: string)
    requires Unique(chain) && forall j | 0 <= j < |chain| :: chain[j].key != key
    ensures var c := [Node(key, data)] + chain;
      Unique(c) && Lookup(c, other) == if other == key then Some(data) else Lookup(chain, other)
  {
    var c := [Node(key, data)] + chain;
    assert c[1..] == chain;
  }

  /** Unlinking a node. */
  lemma CutNode<D>(chain: seq<Node<D>>, i: nat, other: string)
    requires Unique(chain) && i < |chain|
    ensures var c := chain[..i] + chain[i + 1..];
      Unique(c) && Lookup(c, other) == if other == chain[i].key then None else Lookup(chain, other)
  {
    var c := chain[..i] + chain[i + 1..];
    forall p | 0 <= p < |c|
      ensures c[p] == chain[if p < i then p else p + 1]
    {
    }
    if other == chain[i].key {
      LookupNone(c, other);
    } else if j :| 0 <= j < |chain| && chain[j].key == other {
      LookupAt(chain, j);
      assert c[if j < i then j else j - 1] == chain[j];
      LookupAt(c, if j < i then j else j - 1);
    } else {
      LookupNone(c, other);
    }
  }

  function Slot(hash: string -> nat, key: string, size: nat): (b: nat)
    requires size > 0
    ensures b < size
  {
    hash(key) % size
  }

  /** The bucket array after an insertion: overwrite, or a new node in front of the chain. */
  function Put<D>(hash: string -> nat, nodes: seq<seq<Node<D>>>, key: string, data: D): (r: seq<seq<Node<D>>>)
    requires |nodes| > 0
    ensures |r| == |nodes|
  {
    var b := Slot(hash, key, |nodes|);
    var chain := nodes[b];
    var i := Position(chain, key);
    if i < |chain| then nodes[b := chain[i := Node(key, data)]] else nodes[b := [Node(key, data)] + chain]
  }

  /** The bucket array after a removal. */
  function Cut<D>(hash: string -> nat, nodes: seq<seq<Node<D>>>, key: string): (r: seq<seq<Node<D>>>)
    requires |nodes| > 0
    ensures |r| == |nodes|
  {
    var b := Slot(hash, key, |nodes|);
    var chain := nodes[b];
    var i := Position(chain, key);
    if i < |chain| then nodes[b := chain[..i] + chain[i + 1..]] else nodes
  }

  function Find<D>(hash: string -> nat, nodes: seq<seq<Node<D>>>, key: string): Option<D>
    requires |nodes| > 0
  {
    Lookup(nodes[Slot(hash, key, |nodes|)], key)
  }

  /** Every chain has unique keys, each of which belongs there. */
  ghost predicate Sited<D>(hash: string -> nat, nodes: seq<seq<Node<D>>>) {
    && |nodes| > 0
    && (forall b | 0 <= b < |nodes| :: Unique(nodes[b]))
    && (forall b, i | 0 <= b < |nodes| && 0 <= i < |nodes[b]| :: Slot(hash, nodes[b][i].key, |nodes|) == b)
  }

  /** The bucket array stands for the map `m`. */
  ghost predicate Stands<D>(hash: string -> nat, nodes: seq<seq<Node<D>>>, m: map<string, D>) {
    && Sited(hash, nodes)
    && (forall k | k in m :: Find(hash, nodes, k) == Some(m[k]))
    && (forall b, i | 0 <= b < |nodes| && 0 <= i < |nodes[b]| :: nodes[b][i].key in m)
  }

  /** The nodes are in the buckets that the hash function says, with one node for each key. */
  lemma NodesSited<D>(hash: string -> nat, nodes: seq<seq<Node<D>>>, m: map<string, D>, b: nat, i: nat)
    requires Stands(hash, nodes, m) && b < |nodes| && i < |nodes[b]|
    ensures hash(nodes[b][i].key) % |nodes| == b && nodes[b][i].key in m && m[nodes[b][i].key] == nodes[b][i].data
    ensures forall j | 0 <= j < |nodes[b]| && nodes[b][j].key == nodes[b][i].key :: j == i
  {
    LookupAt(nodes[b], i);
    assert Slot(hash, nodes[b][i].key, |nodes|) == b;
  }

  /** A key that is not in the map is not found. */
  lemma Missing<D>(hash: string -> nat, nodes: seq<seq<Node<D>>>, m: map<string, D>, key: string)
    requires Stands(hash, nodes, m) && key !in m
    ensures Find(hash, nodes, key) == None
  {
  }

  lemma PutFinds<D>(hash: string -> nat, nodes: seq<seq<Node<D>>>, key: string, data: D, k: string)
    requires Sited(hash, nodes)
    ensures Find(hash, Put(hash, nodes, key, data), k) == if k == key then Some(data) else Find(hash, nodes, k)
  {
    var chain := nodes[Slot(hash, key, |nodes|)];
    var i := Position(chain, key);
    if i < |chain| {
      SetNode(chain, i, data, k);
    } else {
      AddNode(chain, key, data, k);
    }
  }

  lemma PutSited<D>(hash: string -> nat, nodes: seq<seq<Node<D>>>, key: string, data: D)
    requires Sited(hash, nodes)
    ensures Sited(hash, Put(hash, nodes, key, data))
  {
    var chain := nodes[Slot(hash, key, |nodes|)];
    var i := Position(chain, key);
    if i < |chain| {
      SetNode(chain, i, data, key);
    } else {
      AddNode(chain, key, data, key);
    }
  }

  lemma PutStands<D>(hash: string -> nat, nodes: seq<seq<Node<D>>>, m: map<string, D>, key: string, data: D)
    requires Stands(hash, nodes, m)
    ensures Stands(hash, Put(hash, nodes, key, data), m[key := data])
  {
    PutSited(hash, nodes, key, data);
    forall k | k in m[key := data] {
      PutFinds(hash, nodes, key, data, k);
    }
  }

  lemma CutFinds<D>(hash: string -> nat, nodes: seq<seq<Node<D>>>, key: string, k: string)
    requires Sited(hash, nodes)
    ensures Find(hash, Cut(hash, nodes, key), k) == if k == key then None else Find(hash, nodes, k)
  {
    var chain := nodes[Slot(hash, key, |nodes|)];
    var i := Position(chain, key);
    if i < |chain| {
      CutNode(chain, i, k);
    }
  }

  /** The nodes left by a removal are the nodes with another key. */
  lemma CutSited<D>(hash: string -> nat, nodes: seq<seq<Node<D>>>, key: string)
    requires Sited(hash, nodes)
    ensures Sited(hash, Cut(hash, nodes, key))
    ensures var r: seq<seq<Node<D>>> := Cut(hash, nodes, key);
      forall b, i | 0 <= b < |r| && 0 <= i < |r[b]| :: r[b][i].key != key && r[b][i] in nodes[b]
  {
    var r: seq<seq<Node<D>>>, s := Cut(hash, nodes, key), Slot(hash, key, |nodes|);
    var i := Position(nodes[s], key);
    if i < |nodes[s]| {
      CutNode(nodes[s], i, key);
    }
    forall b, p | 0 <= b < |r| && 0 <= p < |r[b]|
      ensures r[b][p].key != key && r[b][p] in nodes[b] && Slot(hash, r[b][p].key, |r|) == b
    {
      if b == s && i < |nodes[s]| {
        assert r[b][p] == nodes[b][if p < i then p else p + 1];
      } else {
        assert r[b][p] == nodes[b][p];
      }
    }
  }

  lemma CutStands<D>(hash: string -> nat, nodes: seq<seq<Node<D>>>, m: map<string, D>, key: string)
    requires Stands(hash, nodes, m)
    ensures Stands(hash, Cut(hash, nodes, key), m - {key})
  {
    CutSited(hash, nodes, key);
    forall k | k in m - {key} {
      CutFinds(hash, nodes, key, k);
    }
  }

  /** The first node of a chain is what its key stands for; removing it leaves the rest of the chain. */
  lemma FirstNode<D>(hash: string -> nat, nodes: seq<seq<Node<D>>>, m: map<string, D>, n: nat)
    requires Stands(hash, nodes, m) && n < |nodes| && nodes[n] != []
    ensures nodes[n][0].key in m && m[nodes[n][0].key] == nodes[n][0].data
    ensures Cut(hash, nodes, nodes[n][0].key) == nodes[n := nodes[n][1..]]
  {
    var chain := nodes[n];
    var key := chain[0].key;
    assert Slot(hash, key, |nodes|) == n && Position(chain, key) == 0;
    assert key in m && Find(hash, nodes, key) == Some(m[key]);
    assert chain[..0] + chain[1..] == chain[1..];
  }

  /** The first `n` chains are empty. */
  ghost predicate Cleared<D>(nodes: seq<seq<Node<D>>>, n: nat) {
    n <= |nodes| && forall b | 0 <= b < n :: nodes[b] == []
  }

  lemma EmptyStands<D>(hash: string -> nat, nodes: seq<seq<Node<D>>>, m: map<string, D>)
    requires Stands(hash, nodes, m) && Cleared(nodes, |nodes|)
    ensures m == map[]
  {
    assert forall k | k in m :: Find(hash, nodes, k) == Some(m[k]);
  }

  lemma EmptyUnion<D>(m: map<string, D>)
    ensures map[] + m == m && m + map[] == m
  {
  }

  lemma Handover<D>(a: map<string, D>, b: map<string, D>, key: string)
    requires key in b
    ensures a[key := b[key]] + (b - {key}) == a + b
  {
  }

  class HashTbl<D(!new)> {
    const hashfunc: string -> nat
    var nodes: seq<seq<Node<D>>>
    ghost var contents: map<string, D>

    /** The bucket array stands for the map `contents`. */
    ghost predicate Valid()
      reads this
    {
      Stands(hashfunc, nodes, contents)
    }

    /** hashtbl_create */
    constructor (size: nat, hashfunc: string -> nat)
      requires size > 0
      ensures Valid() && contents == map[] && |nodes| == size && this.hashfunc == hashfunc
    {
      this.hashfunc := hashfunc;
      nodes := seq(size, i => []);
      contents := map[];
    }

    /** The chain walk that get, insert and remove share. */
    method Walk(b: nat, key: string) returns (i: nat)
      requires b < |nodes|
      ensures i == Position(nodes[b], key)
    {
      i := 0;
      while i < |nodes[b]| && nodes[b][i].key != key
        invariant i <= |nodes[b]|
        invariant forall j | 0 <= j < i :: nodes[b][j].key != key
      {
        i := i + 1;
      }
    }

    /** hashtbl_get */
    method Get(key: string) returns (r: Option<D>)
      requires Valid()
      ensures r == if key in contents then Some(contents[key]) else None
    {
      var b := Slot(hashfunc, key, |nodes|);
      var i := Walk(b, key);
      r := if i < |nodes[b]| then Some(nodes[b][i].data) else None;
      if key !in contents {
        Missing(hashfunc, nodes, contents, key);
      }
    }

    /** hashtbl_insert: overwrite the data of the key, or add a node in front of its chain. */
    method Insert(key: string, data: D)
      requires Valid()
      modifies this
      ensures Valid() && contents == old(contents)[key := data]
      ensures nodes == Put(hashfunc, old(nodes), key, data)
    {
      PutStands(hashfunc, nodes, contents, key, data);
      var b := Slot(hashfunc, key, |nodes|);
      var i := Walk(b, key);
      if i < |nodes[b]| {
        nodes := nodes[b := nodes[b][i := Node(key, data)]];
      } else {
        nodes := nodes[b := [Node(key, data)] + nodes[b]];
      }
      contents := contents[key := data];
    }

    /** hashtbl_remove: unlink the node of the key, if there is one. */
    method Remove(key: string) returns (found: bool)
      requires Valid()
      modifies this
      ensures Valid() && contents == old(contents) - {key} && found == (key in old(contents))
      ensures nodes == Cut(hashfunc, old(nodes), key)
    {
      CutStands(hashfunc, nodes, contents, key);
      if key !in contents {
        Missing(hashfunc, nodes, contents, key);
      }
      var b := Slot(hashfunc, key, |nodes|);
      var i := Walk(b, key);
      found := i < |nodes[b]|;
      if found {
        nodes := nodes[b := nodes[b][..i] + nodes[b][i + 1..]];
      }
      contents := contents - {key};
    }

    /** Move the first node of chain `n` to the other table. */
    method Shift(newtbl: HashTbl<D>, n: nat)
      requires Valid() && newtbl.Valid() && newtbl != this && n < |nodes| && nodes[n] != []
      modifies this, newtbl
      ensures Valid() && newtbl.Valid() && |newtbl.nodes| == old(|newtbl.nodes|)
      ensures nodes == old(nodes)[n := old(nodes)[n][1..]]
      ensures newtbl.contents + contents == old(newtbl.contents + contents)
    {
      var node := nodes[n][0];
      FirstNode(hashfunc, nodes, contents, n);
      Handover(newtbl.contents, contents, node.key);
      newtbl.Insert(node.key, node.data);
      var _ := Remove(node.key);
    }

    /** Move a whole chain. */
    method ShiftChain(newtbl: HashTbl<D>, n: nat)
      requires Valid() && newtbl.Valid() && newtbl != this && n < |nodes|
      modifies this, newtbl
      ensures Valid() && newtbl.Valid() && |newtbl.nodes| == old(|newtbl.nodes|)
      ensures nodes == old(nodes)[n := []]
      ensures newtbl.contents + contents == old(newtbl.contents + contents)
    {
      while nodes[n] != []
        invariant Valid() && newtbl.Valid() && |newtbl.nodes| == old(|newtbl.nodes|)
        invariant |nodes| == old(|nodes|) && nodes == old(nodes)[n := nodes[n]]
        invariant newtbl.contents + contents == old(newtbl.contents + contents)
        decreases |nodes[n]|
      {
        Shift(newtbl, n);
      }
    }

    /** Move every node. */
    method ShiftAll(newtbl: HashTbl<D>)
      requires Valid() && newtbl.Valid() && newtbl != this && newtbl.contents == map[]
      modifies this, newtbl
      ensures newtbl.Valid() && |newtbl.nodes| == old(|newtbl.nodes|) && newtbl.contents == old(contents)
    {
      EmptyUnion(contents);
      for n := 0 to |nodes|
        invariant Valid() && newtbl.Valid() && |newtbl.nodes| == old(|newtbl.nodes|)
        invariant |nodes| == old(|nodes|) && newtbl.contents + contents == old(contents)
        invariant Cleared(nodes, n)
      {
        ShiftChain(newtbl, n);
      }
      EmptyStands(hashfunc, nodes, contents);
      EmptyUnion(newtbl.contents);
    }

    /**
     * hashtbl_resize: node by node, each is inserted in the new table and removed from this
     * one; then the new bucket array replaces the old one.
     */
    method Resize(size: nat)
      requires Valid() && size > 0
      modifies this
      ensures Valid() && contents == old(contents) && |nodes| == size
    {
      var newtbl := new HashTbl<D>(size, hashfunc);
      ShiftAll(newtbl);
      nodes, contents := newtbl.nodes, newtbl.contents;
    }
  }
}
