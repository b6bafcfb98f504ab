/**
 The chained table of hash/memhash.c without its pointers: every bucket is a
 sequence of nodes, and linking, unlinking and splitting are edits of sequences.
 */
module MemTable {
  import opened Bits
  import Crc32c

  /** DOFF() with 8-byte pointers: where the data starts behind a key, aligned to the size of the data. */
  function Doff(klen: nat, dlen: nat): (n: nat)
    ensures klen <= n
  {
    if dlen >= 8 then (klen + 7) / 8 * 8
    else if dlen >= 4 then (klen + 3) / 4 * 4
    else if dlen >= 2 then (klen + 1) / 2 * 2
    else klen
  }

  /** The next place behind the key that is aligned for data of that size. */
  lemma DoffAligned(klen: nat, dlen: nat)
    ensures var unit := if dlen >= 8 then 8 else if dlen >= 4 then 4 else if dlen >= 2 then 2 else 1;
            klen <= Doff(klen, dlen) < klen + unit && exists q: nat :: Doff(klen, dlen) == q * unit
  {
    if dlen >= 8 {
      assert Doff(klen, dlen) == (klen + 7) / 8 * 8;
    } else if dlen >= 4 {
      assert Doff(klen, dlen) == (klen + 3) / 4 * 4;
    } else if dlen >= 2 {
      assert Doff(klen, dlen) == (klen + 1) / 2 * 2;
    } else {
      assert Doff(klen, dlen) == klen * 1;
    }
  }

  /** Shorter data never reaches further than longer data did. */
  lemma DoffMonotone(klen: nat, d: nat, e: nat)
    requires d <= e
    ensures Doff(klen, d) <= Doff(klen, e)
    ensures Doff(klen, d) + d <= Doff(klen, e) + e
  {
    var q8, q4, q2 := (klen + 7) / 8, (klen + 3) / 4, (klen + 1) / 2;
    assert klen <= 8 * q8 && klen <= 4 * q4 <= klen + 3 && klen <= 2 * q2 <= klen + 1;
    assert q4 <= 2 * q8 && q2 <= 2 * q4;
  }

  /** A node: the key and behind it, from DOFF on, the data, in one piece of memory. */
  class Node {
    const klen: nat
    ghost const key: seq<byte>
    var next: Node?
    var dlen: nat
    var mem: seq<byte>

    ghost predicate Ok()
      reads `dlen, `mem
    {
      && |key| == klen <= |mem| && mem[..klen] == key
      && Doff(klen, dlen) + dlen <= |mem|
    }

    function Value(): (v: seq<byte>)
      requires Ok()
      reads `dlen, `mem
      ensures |v| == dlen
    {
      mem[Doff(klen, dlen)..Doff(klen, dlen) + dlen]
    }

    /** malloc() of room for `dlen` bytes of data, and the key copied into it. */
    constructor (key: seq<byte>, dlen: nat, next: Node?)
      ensures Ok() && this.key == key && this.dlen == dlen && this.next == next
      ensures |mem| == Doff(|key|, dlen) + dlen
    {
      this.klen := |key|;
      this.key := key;
      this.dlen := dlen;
      this.next := next;
      this.mem := key + seq(Doff(|key|, dlen) + dlen - |key|, _ => 0);
    }

    /** Data no longer than before: it stays inside the memory the node has, and the key stays whole. */
    method Rewrite(v: seq<byte>)
      requires Ok() && |v| <= dlen
      modifies `dlen, `mem
      ensures Ok() && Value() == v && |mem| == old(|mem|)
    {
      DoffMonotone(klen, |v|, dlen);
      dlen := |v|;
      var off := Doff(klen, dlen);
      mem := mem[..off] + v + mem[off + |v|..];
      assert mem[off..off + |v|] == v;
    }
  }

  function Hash(key: seq<byte>): u32 { Crc32c.Crc(0, key) }

  /** HASH & mask, the number of buckets being a power of two. */
  function Bucket(key: seq<byte>, size: nat): (b: nat)
    requires size > 0
    ensures b < size
  {
    Hash(key) % size
  }

  ghost function At(c: seq<Node>, j: nat): Node? { if j < |c| then c[j] else null }

  /** The position of a key in a chain, the chain's length without one. */
  ghost function Find(c: seq<Node>, key: seq<byte>): (j: nat)
    ensures j <= |c| && (j < |c| ==> c[j].key == key) && (forall i :: 0 <= i < j ==> c[i].key != key)
  {
    if c == [] || c[0].key == key then 0 else 1 + Find(c[1..], key)
  }

  ghost predicate ChainOk(c: seq<Node>, b: nat, size: nat)
    requires size > 0
  {
    && (forall j :: 0 <= j < |c| ==> Bucket(c[j].key, size) == b)
    && (forall i, j :: 0 <= i < j < |c| ==> c[i].key != c[j].key)
  }

  /** Every node is in the bucket of its key, and no key occurs twice. */
  ghost predicate ChainsOk(cs: seq<seq<Node>>)
  {
    |cs| > 0 && forall b :: 0 <= b < |cs| ==> ChainOk(cs[b], b, |cs|)
  }

  /** The node that holds a key. */
  ghost function Holder(cs: seq<seq<Node>>, key: seq<byte>): (n: Node?)
    requires |cs| > 0
    ensures n != null ==> n.key == key
  {
    var c := cs[Bucket(key, |cs|)];
    At(c, Find(c, key))
  }

  lemma FindIs(c: seq<Node>, j: nat)
    requires j < |c| && forall i :: 0 <= i < j ==> c[i].key != c[j].key
    ensures Find(c, c[j].key) == j
  {
  }

  lemma FindAt(c: seq<Node>, key: seq<byte>, j: nat)
    requires j <= |c| && (j < |c| ==> c[j].key == key) && forall i :: 0 <= i < j ==> c[i].key != key
    ensures Find(c, key) == j
  {
  }

  lemma NoBuckets(cs: seq<seq<Node>>)
    requires ChainsOk(cs)
    ensures |cs| > 0
  {
  }

  /** A node in a chain is the holder of its key. */
  lemma HolderIs(cs: seq<seq<Node>>, b: nat, j: nat)
    requires ChainsOk(cs) && b < |cs| && j < |cs[b]|
    ensures Bucket(cs[b][j].key, |cs|) == b
    ensures Find(cs[b], cs[b][j].key) == j
    ensures Holder(cs, cs[b][j].key) == cs[b][j]
  {
    hide Bucket;
    FindIs(cs[b], j);
  }

  /** A chain with a node put in front of position j. */
  ghost function With(c: seq<Node>, j: nat, n: Node): (r: seq<Node>)
    requires j <= |c|
    ensures |r| == |c| + 1
    ensures forall i :: 0 <= i <= |c| ==> r[i] == if i < j then c[i] else if i == j then n else c[i - 1]
  {
    c[..j] + [n] + c[j..]
  }

  ghost function Without(c: seq<Node>, j: nat): (r: seq<Node>)
    requires j < |c|
    ensures |r| == |c| - 1
    ensures forall i :: 0 <= i < |r| ==> r[i] == if i < j then c[i] else c[i + 1]
  {
    c[..j] + c[j + 1..]
  }

  lemma AtWith(c: seq<Node>, j: nat, n: Node, i: nat)
    requires j <= |c|
    ensures At(With(c, j, n), i) == if i == j then n else At(c, if i < j then i else i - 1)
  {
  }

  lemma AtWithout(c: seq<Node>, j: nat, i: nat)
    requires j < |c|
    ensures At(Without(c, j), i) == At(c, if i < j then i else i + 1)
  {
  }

  lemma {:induction false} FindWith(c: seq<Node>, j: nat, n: Node, key: seq<byte>)
    requires j <= |c| && forall i :: 0 <= i < |c| ==> c[i].key != n.key
    ensures At(With(c, j, n), Find(With(c, j, n), key)) == if key == n.key then n else At(c, Find(c, key))
  {
    var r := With(c, j, n);
    var f := Find(c, key);
    if key == n.key {
      assert r[j] == n;
      FindIs(r, j);
    } else if f < |c| {
      var k := if f < j then f else f + 1;
      assert r[k] == c[f];
      FindIs(r, k);
    } else {
      assert forall i :: 0 <= i < |r| ==> r[i].key != key;
    }
  }

  lemma {:induction false} FindWithout(c: seq<Node>, j: nat, key: seq<byte>)
    requires j < |c| && forall i, k :: 0 <= i < k < |c| ==> c[i].key != c[k].key
    ensures At(Without(c, j), Find(Without(c, j), key)) == if key == c[j].key then null else At(c, Find(c, key))
  {
    var r := Without(c, j);
    var f := Find(c, key);
    if key == c[j].key {
      assert forall i :: 0 <= i < |r| ==> r[i].key != key;
    } else if f < |c| {
      var k := if f < j then f else f - 1;
      assert r[k] == c[f];
      FindIs(r, k);
    } else {
      assert forall i :: 0 <= i < |r| ==> r[i].key != key;
    }
  }

  /** Linking a node with a new key into its bucket adds that holder and changes no other. */
  lemma LinkHolder(cs: seq<seq<Node>>, b: nat, j: nat, n: Node)
    requires ChainsOk(cs) && b == Bucket(n.key, |cs|) && j <= |cs[b]| && Holder(cs, n.key) == null
    ensures ChainsOk(cs[b := With(cs[b], j, n)])
    ensures forall key :: Holder(cs[b := With(cs[b], j, n)], key) == if key == n.key then n else Holder(cs, key)
  {
    hide Bucket;
    var c := cs[b];
    var cs' := cs[b := With(c, j, n)];
    assert forall i :: 0 <= i < |c| ==> c[i].key != n.key;
    assert ChainOk(With(c, j, n), b, |cs|);
    forall key
      ensures Holder(cs', key) == if key == n.key then n else Holder(cs, key)
    {
      FindWith(c, j, n, key);
    }
  }

  /** Unlinking a node removes that holder and changes no other. */
  lemma UnlinkHolder(cs: seq<seq<Node>>, b: nat, j: nat)
    requires ChainsOk(cs) && b < |cs| && j < |cs[b]|
    ensures ChainsOk(cs[b := Without(cs[b], j)])
    ensures forall key ::
      Holder(cs[b := Without(cs[b], j)], key) == if key == cs[b][j].key then null else Holder(cs, key)
  {
    hide Bucket;
    var c := cs[b];
    var cs' := cs[b := Without(c, j)];
    assert ChainOk(Without(c, j), b, |cs|);
    assert Bucket(c[j].key, |cs|) == b;
    forall key
      ensures Holder(cs', key) == if key == c[j].key then null else Holder(cs, key)
    {
      FindWithout(c, j, key);
    }
  }

  /** Two positions hold the same node only if they are the same position. */
  lemma NodesDiffer(cs: seq<seq<Node>>, b: nat, j: nat, b': nat, j': nat)
    requires ChainsOk(cs) && b < |cs| && j < |cs[b]| && b' < |cs| && j' < |cs[b']|
    requires b != b' || j != j'
    ensures cs[b][j] != cs[b'][j']
  {
    HolderIs(cs, b, j);
    HolderIs(cs, b', j');
  }

  lemma Alone(cs: seq<seq<Node>>, b: nat, j: nat)
    requires ChainsOk(cs) && b < |cs| && j < |cs[b]|
    ensures forall b', j' :: 0 <= b' < |cs| && 0 <= j' < |cs[b']| && (b' != b || j' != j) ==> cs[b'][j'] != cs[b][j]
  {
    forall b', j' | 0 <= b' < |cs| && 0 <= j' < |cs[b']| && (b' != b || j' != j)
      ensures cs[b'][j'] != cs[b][j]
    {
      NodesDiffer(cs, b', j', b, j);
    }
  }

  // -------------------------------------------------------------------- split

  /** The holder of a key if it sits at a position before (i, j), which split has moved already. */
  ghost function Moved(cs: seq<seq<Node>>, key: seq<byte>, i: nat, j: nat): Node?
    requires |cs| > 0
  {
    var b := Bucket(key, |cs|);
    if b < i || (b == i && Find(cs[b], key) < j) then Holder(cs, key) else null
  }

  lemma MovedStep(cs: seq<seq<Node>>, i: nat, j: nat)
    requires ChainsOk(cs) && i < |cs| && j < |cs[i]|
    ensures forall key :: Moved(cs, key, i, j + 1) == if key == cs[i][j].key then cs[i][j] else Moved(cs, key, i, j)
    ensures Moved(cs, cs[i][j].key, i, j) == null
  {
    hide Bucket;
    HolderIs(cs, i, j);
    forall key
      ensures Moved(cs, key, i, j + 1) == if key == cs[i][j].key then cs[i][j] else Moved(cs, key, i, j)
    {
      if Bucket(key, |cs|) == i && Find(cs[i], key) == j { assert cs[i][j].key == key; }
    }
  }

  lemma MovedRow(cs: seq<seq<Node>>, i: nat)
    requires ChainsOk(cs) && i < |cs|
    ensures forall key :: Moved(cs, key, i, |cs[i]|) == Moved(cs, key, i + 1, 0)
  {
  }

  lemma MovedEnds(cs: seq<seq<Node>>)
    requires ChainsOk(cs)
    ensures forall key :: Moved(cs, key, 0, 0) == null && Moved(cs, key, |cs|, 0) == Holder(cs, key)
  {
  }

  lemma EmptyChains(cs: seq<seq<Node>>)
    requires |cs| > 0 && forall b :: 0 <= b < |cs| ==> cs[b] == []
    ensures ChainsOk(cs) && forall key :: Holder(cs, key) == null
  {
    assert forall b :: 0 <= b < |cs| ==> ChainOk(cs[b], b, |cs|);
    forall key
      ensures Holder(cs, key) == null
    {
      assert cs[Bucket(key, |cs|)] == [];
    }
  }

  lemma NotInChains(cs: seq<seq<Node>>, n: Node)
    requires ChainsOk(cs) && Holder(cs, n.key) == null
    ensures forall b, j :: 0 <= b < |cs| && 0 <= j < |cs[b]| ==> cs[b][j] != n
  {
    forall b, j | 0 <= b < |cs| && 0 <= j < |cs[b]|
      ensures cs[b][j] != n
    {
      HolderIs(cs, b, j);
    }
  }

  // ----------------------------------------------------------------- pointers

  /** The bucket heads and the `next` fields spell out the chains. */
  ghost predicate Spells(a: array<Node?>, cs: seq<seq<Node>>, repr: set<Node>)
    reads a, repr`next
  {
    && |cs| == a.Length
    && (forall b :: 0 <= b < |cs| ==> a[b] == At(cs[b], 0))
    && (forall b, j :: 0 <= b < |cs| && 0 <= j < |cs[b]| ==> cs[b][j] in repr)
    && (forall b, j {:trigger cs[b][j].next} :: 0 <= b < |cs| && 0 <= j < |cs[b]| ==> cs[b][j].next == At(cs[b], j + 1))
  }

  lemma NextAt(cs: seq<seq<Node>>, b: nat, j: nat, a: array<Node?>, repr: set<Node>)
    requires Spells(a, cs, repr) && b < |cs| && j < |cs[b]|
    ensures cs[b][j].next == At(cs[b], j + 1)
  {
  }

  lemma InRange(cs: seq<seq<Node>>, prev: Node?, b: nat, j: nat, a: array<Node?>, repr: set<Node>)
    requires Spells(a, cs, repr) && b < |cs| && j <= |cs[b]| && prev == if j == 0 then null else At(cs[b], j - 1)
    ensures prev != null ==> prev in repr
  {
  }

  /**
   `*nn = x` for a pointer kept in a bucket head or, if `prev` is given, in the
   node before position j; no other pointer changes.
   */
  method SetPointer(a: array<Node?>, b: nat, prev: Node?, x: Node?, ghost j: nat, ghost cs: seq<seq<Node>>)
    requires ChainsOk(cs) && |cs| == a.Length && b < |cs| && j <= |cs[b]|
    requires prev == if j == 0 then null else At(cs[b], j - 1)
    modifies a, (if prev == null then {} else {prev})`next
    ensures a[..] == if j == 0 then old(a[..])[b := x] else old(a[..])
    ensures forall b', k {:trigger cs[b'][k].next} :: 0 <= b' < |cs| && 0 <= k < |cs[b']| ==>
      cs[b'][k].next == if b' == b && k == j - 1 then x else old(cs[b'][k].next)
  {
    hide ChainsOk;
    if j > 0 { Alone(cs, b, j - 1); }
    if prev == null { a[b] := x; } else { prev.next := x; }
  }

  /** Puts a node, whose `next` is already set, in front of position j of bucket b. */
  method Link(a: array<Node?>, b: nat, prev: Node?, n: Node,
      ghost j: nat, ghost cs: seq<seq<Node>>, ghost repr: set<Node>)
    requires Spells(a, cs, repr) && ChainsOk(cs) && b < |cs| && j <= |cs[b]| && n in repr
    requires prev == if j == 0 then null else At(cs[b], j - 1)
    requires Holder(cs, n.key) == null && n.next == At(cs[b], j)
    modifies a, (if prev == null then {} else {prev})`next
    ensures Spells(a, cs[b := With(cs[b], j, n)], repr)
  {
    hide ChainsOk, Find, Holder;
    ghost var cs': seq<seq<Node>> := cs[b := With(cs[b], j, n)];
    NotInChains(cs, n);
    SetPointer(a, b, prev, n, j, cs);
    forall b': nat, i: nat | b' < |cs| && i < |cs'[b']|
      ensures cs'[b'][i].next == At(cs'[b'], i + 1)
    {
      if b' == b {
        AtWith(cs[b], j, n, i + 1);
        if i != j {
          assert cs'[b][i] == cs[b][if i < j then i else i - 1];
          hide At, With;
        }
      }
    }
  }

  /** Allocates a node with room for `dlen` bytes of data and links it. */
  method Allocate(a: array<Node?>, b: nat, prev: Node?, key: seq<byte>, dlen: nat,
      ghost j: nat, ghost cs: seq<seq<Node>>, ghost repr: set<Node>)
    returns (n: Node)
    requires Spells(a, cs, repr) && ChainsOk(cs) && b < |cs| && j <= |cs[b]|
    requires prev == if j == 0 then null else At(cs[b], j - 1)
    requires Holder(cs, key) == null
    modifies a, (if prev == null then {} else {prev})`next
    ensures fresh(n) && n.Ok() && n.key == key && n.dlen == dlen
    ensures Spells(a, cs[b := With(cs[b], j, n)], repr + {n})
  {
    hide ChainsOk, Find, Holder;
    n := new Node(key, dlen, if prev == null then a[b] else prev.next);
    assert Spells(a, cs, repr + {n});
    hide Spells;
    Link(a, b, prev, n, j, cs, repr + {n});
  }

  /** Takes the node at position j out of bucket b. */
  method Unlink(a: array<Node?>, b: nat, prev: Node?, n: Node,
      ghost j: nat, ghost cs: seq<seq<Node>>, ghost repr: set<Node>)
    requires Spells(a, cs, repr) && ChainsOk(cs) && b < |cs| && j < |cs[b]| && n == cs[b][j]
    requires prev == if j == 0 then null else At(cs[b], j - 1)
    modifies a, (if prev == null then {} else {prev})`next
    ensures Spells(a, cs[b := Without(cs[b], j)], repr - {n})
  {
    hide ChainsOk, Find;
    ghost var cs': seq<seq<Node>> := cs[b := Without(cs[b], j)];
    Alone(cs, b, j);
    SetPointer(a, b, prev, n.next, j, cs);
    forall b': nat, i: nat | b' < |cs| && i < |cs'[b']|
      ensures cs'[b'][i] in repr - {n} && cs'[b'][i].next == At(cs'[b'], i + 1)
    {
      if b' == b {
        AtWithout(cs[b], j, i + 1);
        assert cs'[b][i] == cs[b][if i < j then i else i + 1];
        hide At, Without;
      }
    }
  }

  // ----------------------------------------------------------------- contents

  /** The holders of the keys hold the map, and every one of them is in order. */
  ghost predicate Holds(cs: seq<seq<Node>>, repr: set<Node>, model: map<seq<byte>, seq<byte>>)
    reads repr`mem, repr`dlen
  {
    && |cs| > 0
    && (forall key :: key in model <==> Holder(cs, key) != null)
    && (forall key :: key in model ==>
          var n := Holder(cs, key);
          n in repr && n.Ok() && n.Value() == model[key])
  }

  lemma HoldsMeans(cs: seq<seq<Node>>, repr: set<Node>, model: map<seq<byte>, seq<byte>>, key: seq<byte>)
    requires Holds(cs, repr, model)
    ensures |cs| > 0
    ensures var n := Holder(cs, key);
      if n == null then key !in model
      else key in model && n in repr && n.Ok() && n.Value() == model[key]
  {
  }

  lemma HoldsSame(cs: seq<seq<Node>>, cs': seq<seq<Node>>, repr: set<Node>, model: map<seq<byte>, seq<byte>>)
    requires Holds(cs, repr, model) && |cs'| > 0
    requires forall key :: Holder(cs', key) == Holder(cs, key)
    ensures Holds(cs', repr, model)
  {
    hide Holder;
  }

  lemma HoldsAdd(cs: seq<seq<Node>>, cs': seq<seq<Node>>, repr: set<Node>, model: map<seq<byte>, seq<byte>>, n: Node)
    requires Holds(cs, repr, model) && |cs'| > 0 && n.Ok() && Holder(cs, n.key) == null
    requires forall key :: Holder(cs', key) == if key == n.key then n else Holder(cs, key)
    ensures Holds(cs', repr + {n}, model[n.key := n.Value()])
    ensures |model[n.key := n.Value()]| == |model| + 1
  {
    hide Holder;
    assert model[n.key := n.Value()].Keys == model.Keys + {n.key};
  }

  lemma HoldsRemove(cs: seq<seq<Node>>, cs': seq<seq<Node>>, repr: set<Node>, model: map<seq<byte>, seq<byte>>, n: Node)
    requires Holds(cs, repr, model) && |cs'| > 0 && Holder(cs, n.key) == n
    requires forall key :: Holder(cs', key) == if key == n.key then null else Holder(cs, key)
    ensures Holds(cs', repr - {n}, model - {n.key})
    ensures |model - {n.key}| == |model| - 1
  {
    hide Holder;
    assert (model - {n.key}).Keys == model.Keys - {n.key};
  }

  /** Overwriting one node's data changes the value of its key and no other. */
  method Overwrite(n: Node, v: seq<byte>,
      ghost cs: seq<seq<Node>>, ghost repr: set<Node>, ghost model: map<seq<byte>, seq<byte>>)
    requires Holds(cs, repr, model) && n in repr && Holder(cs, n.key) == n && |v| <= n.dlen
    modifies n`mem, n`dlen
    ensures Holds(cs, repr, model[n.key := v]) && n.dlen == |v| && |n.mem| == old(|n.mem|)
    ensures |model[n.key := v]| == |model|
  {
    hide Holder;
    assert model[n.key := v].Keys == model.Keys;
    n.Rewrite(v);
    ghost var model' := model[n.key := v];
    forall key | key in model'
      ensures Holder(cs, key).Ok() && Holder(cs, key).Value() == model'[key]
    {
      if key != n.key { assert Holder(cs, key) != n; }
    }
  }

  // -------------------------------------------------------------------- order

  /** The nodes of the buckets from i on, in table order. */
  ghost function Flat(cs: seq<seq<Node>>, i: nat): (ns: seq<Node>)
    requires i <= |cs|
    decreases |cs| - i
  {
    if i == |cs| then [] else cs[i] + Flat(cs, i + 1)
  }

  /** Table order lists exactly the holders, each once. */
  lemma {:induction false} FlatListsHolders(cs: seq<seq<Node>>, i: nat)
    requires ChainsOk(cs) && i <= |cs|
    ensures forall p :: 0 <= p < |Flat(cs, i)| ==>
      Holder(cs, Flat(cs, i)[p].key) == Flat(cs, i)[p] && Bucket(Flat(cs, i)[p].key, |cs|) >= i
    ensures forall p, q :: 0 <= p < q < |Flat(cs, i)| ==> Flat(cs, i)[p].key != Flat(cs, i)[q].key
    ensures forall key :: Holder(cs, key) != null && Bucket(key, |cs|) >= i ==> Holder(cs, key) in Flat(cs, i)
    decreases |cs| - i
  {
    hide Bucket;
    if i < |cs| {
      FlatListsHolders(cs, i + 1);
      forall j | 0 <= j < |cs[i]|
        ensures Holder(cs, cs[i][j].key) == cs[i][j] && Bucket(cs[i][j].key, |cs|) == i
      {
        HolderIs(cs, i, j);
      }
    }
  }

  lemma {:induction false} DistinctSize(keys: seq<seq<byte>>)
    requires forall p, q :: 0 <= p < q < |keys| ==> keys[p] != keys[q]
    ensures |set k | k in keys| == |keys|
  {
    if keys != [] {
      var n := |keys| - 1;
      DistinctSize(keys[..n]);
      assert (set k | k in keys) == (set k | k in keys[..n]) + {keys[n]};
    }
  }

  ghost function KeysOf(ns: seq<Node>): (keys: seq<seq<byte>>)
    ensures |keys| == |ns| && forall p :: 0 <= p < |ns| ==> keys[p] == ns[p].key
  {
    if ns == [] then [] else KeysOf(ns[..|ns| - 1]) + [ns[|ns| - 1].key]
  }

  lemma KeysGrow(ns: seq<Node>)
    ensures KeysOf(ns) == if ns == [] then [] else KeysOf(ns[..|ns| - 1]) + [ns[|ns| - 1].key]
  {
  }

  /** Table order lists every key of the map exactly once. */
  lemma FlatListsKeys(cs: seq<seq<Node>>, repr: set<Node>, model: map<seq<byte>, seq<byte>>)
    requires ChainsOk(cs) && Holds(cs, repr, model)
    ensures var keys := KeysOf(Flat(cs, 0));
      && (forall p, q :: 0 <= p < q < |keys| ==> keys[p] != keys[q])
      && (forall key :: key in keys <==> key in model)
      && |keys| == |model|
  {
    hide Holder, Bucket;
    var keys := KeysOf(Flat(cs, 0));
    FlatListsHolders(cs, 0);
    forall key
      ensures key in keys <==> key in model
    {
      if key in model {
        var n := Holder(cs, key);
        var p :| 0 <= p < |keys| && Flat(cs, 0)[p] == n;
        assert keys[p] == key;
      }
      if key in keys {
        var p :| 0 <= p < |keys| && keys[p] == key;
        assert Holder(cs, key) == Flat(cs, 0)[p];
      }
    }
    DistinctSize(keys);
    assert (set k | k in keys) == model.Keys;
  }

  /** What comes after the walk's position: bucket `idx` and in it the node `last`, if any. */
  ghost function After(cs: seq<seq<Node>>, idx: int, last: Node?): seq<Node>
    requires -1 <= idx < |cs|
    requires last != null ==> 0 <= idx && Find(cs[idx], last.key) < |cs[idx]|
  {
    (if last == null then [] else cs[idx][Find(cs[idx], last.key) + 1..]) + Flat(cs, idx + 1)
  }

  lemma NoneAfter(cs: seq<seq<Node>>, idx: int)
    requires -1 <= idx < |cs|
    ensures After(cs, idx, null) == Flat(cs, idx + 1)
  {
    hide Flat;
    assert [] + Flat(cs, idx + 1) == Flat(cs, idx + 1);
  }

  lemma AfterAt(cs: seq<seq<Node>>, idx: nat, j: nat)
    requires ChainsOk(cs) && idx < |cs| && j < |cs[idx]|
    ensures Find(cs[idx], cs[idx][j].key) == j
    ensures After(cs, idx, cs[idx][j]) == cs[idx][j + 1..] + Flat(cs, idx + 1)
    ensures cs[idx][j..] + Flat(cs, idx + 1) == [cs[idx][j]] + After(cs, idx, cs[idx][j])
  {
    hide Holder, Find, Bucket, Flat;
    HolderIs(cs, idx, j);
    assert cs[idx][j..] == [cs[idx][j]] + cs[idx][j + 1..];
  }

  lemma Onward(done: seq<Node>, n: Node, rest: seq<Node>)
    ensures done + ([n] + rest) == (done + [n]) + rest
  {
  }

  /** The same, with what it means for the map. */
  method AllocateIn(a: array<Node?>, b: nat, prev: Node?, key: seq<byte>, dlen: nat,
      ghost j: nat, ghost cs: seq<seq<Node>>, ghost repr: set<Node>, ghost model: map<seq<byte>, seq<byte>>)
    returns (n: Node, ghost cs': seq<seq<Node>>, ghost model': map<seq<byte>, seq<byte>>)
    requires Spells(a, cs, repr) && ChainsOk(cs) && Holds(cs, repr, model) && b < |cs| && j <= |cs[b]|
    requires prev == if j == 0 then null else At(cs[b], j - 1)
    requires Holder(cs, key) == null && b == Bucket(key, |cs|)
    modifies a, (if prev == null then {} else {prev})`next
    ensures fresh(n) && n.Ok() && n.key == key && n.dlen == dlen
    ensures Spells(a, cs', repr + {n}) && ChainsOk(cs') && Holds(cs', repr + {n}, model')
    ensures |cs'| == |cs| && Holder(cs', key) == n
    ensures model' == model[key := n.Value()] && |model'| == |model| + 1
  {
    hide ChainsOk, Holder, Find, Bucket, Holds, Spells;
    n := Allocate(a, b, prev, key, dlen, j, cs, repr);
    LinkHolder(cs, b, j, n);
    cs' := cs[b := With(cs[b], j, n)];
    HoldsAdd(cs, cs', repr, model, n);
    model' := model[key := n.Value()];
  }
}
