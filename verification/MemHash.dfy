/**
 The hash table of hash/memhash.c: byte-string keys and values, chained
 buckets, and an array that doubles when there are as many nodes as buckets.
 */
module MemHash {
  import opened Wrappers
  import opened Bits
  import opened MemTable

  class MemHash {
    var nodes: nat
    var arr: array<Node?>
    var mask: nat
    /** hdr.kptr, klen, vptr and vlen describe this node; null when they are zero. */
    var cur: Node?
    var lastidx: int
    var lastnode: Node?
    ghost var chains: seq<seq<Node>>
    ghost var repr: set<Node>
    ghost var model: map<seq<byte>, seq<byte>>

    ghost predicate Proper()
      reads this, arr, repr
    {
      && Spells(arr, chains, repr) && ChainsOk(chains) && Holds(chains, repr, model)
      && arr.Length == mask + 1 >= 64 && PowerOfTwo(mask + 1)
      && nodes == |model|
    }

    /** There are always fewer nodes than `mask`. */
    ghost predicate Valid()
      reads this, arr, repr
    {
      Proper() && nodes < mask
    }

    constructor ()
      ensures Valid() && model == map[] && fresh(arr) && fresh(repr)
    {
      nodes := 0;
      mask := 63;
      arr := new Node?[64](_ => null);
      cur, lastidx, lastnode := null, 0, null;
      chains := seq(64, _ => []);
      repr := {};
      model := map[];
      new;
      assert PowerOfTwo(2) && PowerOfTwo(4) && PowerOfTwo(8) && PowerOfTwo(16) && PowerOfTwo(32);
    }

    /** What Holds() says of the node at a position. */
    lemma NodeAt(b: nat, j: nat)
      requires Holds(chains, repr, model) && ChainsOk(chains) && b < |chains| && j < |chains[b]|
      ensures var n := chains[b][j];
        n in repr && n.Ok() && n.key in model && n.Value() == model[n.key] && Holder(chains, n.key) == n
    {
      HolderIs(chains, b, j);
    }

    /**
     find_nodep(): the node of the key, or null, and where the pointer to it is
     kept - in the bucket's head (`prev` null) or in the node before it.
     */
    method FindNodep(key: seq<byte>) returns (b: nat, prev: Node?, n: Node?)
      requires Spells(arr, chains, repr) && Holds(chains, repr, model) && ChainsOk(chains)
      modifies `cur
      ensures b == Bucket(key, |chains|)
      ensures n == Holder(chains, key)
      ensures var j := Find(chains[b], key);
        n == At(chains[b], j) && prev == if j == 0 then null else At(chains[b], j - 1)
      ensures cur == if n != null then n else old(cur)
    {
      hide Bucket, Holds, ChainsOk, Find;
      assert |chains| > 0 by { assert ChainsOk(chains); NoBuckets(chains); }
      b := Bucket(key, arr.Length);
      prev, n := null, arr[b];
      ghost var j: nat := 0;
      if n != null { NodeAt(b, 0); }
      while n != null && !(n.klen == |key| && n.mem[..n.klen] == key)
        invariant j <= |chains[b]| && n == At(chains[b], j)
        invariant prev == if j == 0 then null else At(chains[b], j - 1)
        invariant forall i :: 0 <= i < j ==> chains[b][i].key != key
        invariant n != null ==> n.Ok()
        invariant cur == old(cur)
        decreases |chains[b]| - j
      {
        prev, n, j := n, n.next, j + 1;
        if n != null { NodeAt(b, j); }
      }
      FindAt(chains[b], key, j);
      if n != null {
        cur := n;
      }
    }

    /** One node moves to the front of its new bucket. */
    method MoveNode(newarr: array<Node?>, t: Node, ghost cs: seq<seq<Node>>) returns (ghost cs': seq<seq<Node>>)
      requires Spells(newarr, cs, repr) && ChainsOk(cs) && Holder(cs, t.key) == null
      requires t in repr && t.Ok()
      modifies newarr, t`next
      ensures Spells(newarr, cs', repr) && ChainsOk(cs') && |cs'| == |cs| > 0
      ensures forall key :: Holder(cs', key) == if key == t.key then t else Holder(cs, key)
    {
      hide Bucket, ChainsOk, Holder, Find;
      NoBuckets(cs);
      var p := Bucket(t.mem[..t.klen], newarr.Length);
      NotInChains(cs, t);
      t.next := newarr[p];
      Link(newarr, p, null, t, 0, cs, repr);
      LinkHolder(cs, p, 0, t);
      cs' := cs[p := With(cs[p], 0, t)];
    }

    /** What split still has to move: the old chains from bucket i on are as they were. */
    ghost predicate Unmoved(i: nat)
      reads `arr, arr, `chains, `repr, repr`next
    {
      && |chains| == arr.Length > 0
      && (forall b, j :: 0 <= b < |chains| && 0 <= j < |chains[b]| ==> chains[b][j] in repr)
      && (forall b :: i <= b < |chains| ==> arr[b] == At(chains[b], 0))
      && (forall b, j {:trigger chains[b][j].next} :: i <= b < |chains| && 0 <= j < |chains[b]| ==>
            chains[b][j].next == At(chains[b], j + 1))
    }

    /** Walks one old chain and moves each of its nodes. */
    method MoveBucket(newarr: array<Node?>, i: nat, ghost cs: seq<seq<Node>>) returns (ghost cs': seq<seq<Node>>)
      requires Holds(chains, repr, model) && ChainsOk(chains) && Unmoved(i) && i < |chains| && newarr != arr
      requires Spells(newarr, cs, repr) && ChainsOk(cs)
      requires |cs| > 0 && forall key :: Holder(cs, key) == Moved(chains, key, i, 0)
      modifies newarr, repr`next
      ensures Unmoved(i + 1)
      ensures Spells(newarr, cs', repr) && ChainsOk(cs') && |cs'| == |cs| > 0
      ensures forall key :: Holder(cs', key) == Moved(chains, key, i + 1, 0)
    {
      hide Holds, ChainsOk, Holder, Find, Moved, Bucket;
      NoBuckets(cs);
      var n := arr[i];
      cs' := cs;
      ghost var j: nat := 0;
      while n != null
        invariant j <= |chains[i]| && n == At(chains[i], j)
        invariant Unmoved(i + 1)
        invariant forall k {:trigger chains[i][k].next} :: j <= k < |chains[i]| ==>
          chains[i][k].next == At(chains[i], k + 1)
        invariant Spells(newarr, cs', repr) && ChainsOk(cs') && |cs'| == |cs| > 0
        invariant forall key :: Holder(cs', key) == Moved(chains, key, i, j)
        decreases |chains[i]| - j
      {
        var t := n;
        n := n.next;
        NodeAt(i, j);
        MovedStep(chains, i, j);
        Alone(chains, i, j);
        cs' := MoveNode(newarr, t, cs');
        j := j + 1;
      }
      assert j == |chains[i]|;
      MovedRow(chains, i);
    }

    /** Doubles the number of buckets; every key keeps its node. */
    method Split()
      requires Spells(arr, chains, repr) && Holds(chains, repr, model) && ChainsOk(chains) && arr.Length == mask + 1
      modifies `arr, `mask, `chains, repr`next
      ensures Spells(arr, chains, repr) && Holds(chains, repr, model) && ChainsOk(chains) && arr.Length == mask + 1
      ensures mask == 2 * old(mask) + 1 && fresh(arr) && |old(chains)| > 0 && |chains| > 0
      ensures forall key :: Holder(chains, key) == Holder(old(chains), key)
    {
      hide ChainsOk, Holder, Find, Moved, Bucket, Holds;
      NoBuckets(chains);
      var newmask := 2 * (mask + 1) - 1;
      var newarr := new Node?[newmask + 1](_ => null);
      ghost var cs: seq<seq<Node>> := seq(newmask + 1, _ => []);
      EmptyChains(cs);
      MovedEnds(chains);
      var i := 0;
      while i <= mask
        invariant i <= mask + 1 && Unmoved(i)
        invariant Spells(newarr, cs, repr) && ChainsOk(cs) && |cs| == newmask + 1
        invariant forall key :: Holder(cs, key) == Moved(chains, key, i, 0)
        modifies newarr, repr`next
      {
        cs := MoveBucket(newarr, i, cs);
        i := i + 1;
      }
      HoldsSame(chains, cs, repr, model);
      arr := newarr;
      mask := newmask;
      chains := cs;
    }

    /** Allocates a node with room for `dlen` bytes of data and links it. */
    method AddNode(b: nat, prev: Node?, key: seq<byte>, dlen: nat, ghost j: nat) returns (n: Node)
      requires Proper() && Holder(chains, key) == null
      requires b == Bucket(key, |chains|) && j <= |chains[b]|
      requires prev == if j == 0 then null else At(chains[b], j - 1)
      modifies `nodes, `cur, `chains, `repr, `model, arr, repr`next
      ensures Proper() && n.Ok() && nodes == old(nodes) + 1
      ensures model == old(model)[key := n.Value()]
      ensures cur == n == Holder(chains, key) && n.dlen == dlen && fresh(n)
      ensures repr == old(repr) + {n}
    {
      hide ChainsOk, Holder, Find, Bucket, Holds, PowerOfTwo, Spells, With;
      InRange(chains, prev, b, j, arr, repr);
      nodes := nodes + 1;
      ghost var cs, m;
      n, cs, m := AllocateIn(arr, b, prev, key, dlen, j, chains, repr, model);
      cur, chains, repr, model := n, cs, repr + {n}, m;
    }

    /** new_node(): a full table is split. */
    method NewNode(b: nat, prev: Node?, key: seq<byte>, dlen: nat, ghost j: nat) returns (n: Node)
      requires Valid() && Holder(chains, key) == null
      requires b == Bucket(key, |chains|) && j <= |chains[b]|
      requires prev == if j == 0 then null else At(chains[b], j - 1)
      modifies `nodes, `arr, `mask, `cur, `chains, `repr, `model, arr, repr`next
      ensures Valid() && n.Ok()
      ensures model == old(model)[key := n.Value()]
      ensures cur == n == Holder(chains, key) && n.dlen == dlen && fresh(n)
      ensures repr == old(repr) + {n} && (arr == old(arr) || fresh(arr))
      ensures mask == if old(nodes) + 1 >= old(mask) then 2 * old(mask) + 1 else old(mask)
    {
      hide ChainsOk, Holder, Find, Bucket, Holds, PowerOfTwo, Spells;
      n := AddNode(b, prev, key, dlen, j);
      if nodes >= mask {
        Doubled(mask + 1);
        Split();
      }
    }

    /** memcpy() of the caller's data, or memset() to zeros without any. */
    function Given(v: Option<seq<byte>>, dlen: nat): (r: seq<byte>)
      requires v.Some? ==> |v.value| == dlen
      ensures |r| == dlen
    {
      if v.Some? then v.value else seq(dlen, _ => 0)
    }

    method Fill(n: Node, v: seq<byte>)
      requires Valid() && n in repr && Holder(chains, n.key) == n && |v| <= n.dlen
      modifies `model, n`mem, n`dlen
      ensures Valid() && model == old(model)[n.key := v] && n.dlen == |v|
    {
      hide ChainsOk, Holder, Find, Bucket, Holds, PowerOfTwo, Spells;
      Overwrite(n, v, chains, repr, model);
      model := model[n.key := v];
    }

    /** The value of a key; none for a key that is not there, and then hdr is cleared. */
    method Fetch(key: seq<byte>) returns (r: Option<seq<byte>>)
      requires Valid()
      modifies `cur
      ensures Valid()
      ensures r == if key in model then Some(model[key]) else None
      ensures cur == Holder(chains, key)
    {
      hide ChainsOk, Holder, Find, Bucket, Holds, PowerOfTwo, Spells;
      HoldsMeans(chains, repr, model, key);
      var b, prev, n := FindNodep(key);
      if n == null { cur := null; r := None; } else { r := Some(n.Value()); }
    }

    /** Refuses a key that is present; else the key gets the given data, or `dlen` zeros. */
    method Insert(key: seq<byte>, v: Option<seq<byte>>, dlen: nat) returns (added: bool)
      requires Valid() && (v.Some? ==> |v.value| == dlen)
      modifies `nodes, `arr, `mask, `cur, `chains, `repr, `model, arr, repr`next
      ensures Valid() && repr >= old(repr) && fresh(repr - old(repr)) && (arr == old(arr) || fresh(arr))
      ensures added <==> key !in old(model)
      ensures model == if added then old(model)[key := Given(v, dlen)] else old(model)
      ensures mask == if added && old(nodes) + 1 >= old(mask) then 2 * old(mask) + 1 else old(mask)
      ensures cur != null && cur == Holder(chains, key)
    {
      hide ChainsOk, Holder, Find, Bucket, Holds, PowerOfTwo, Spells, Given;
      HoldsMeans(chains, repr, model, key);
      var b, prev, n := FindNodep(key);
      if n != null { return false; }
      var n' := NewNode(b, prev, key, dlen, Find(chains[b], key));
      Fill(n', Given(v, dlen));
      added := true;
    }

    /** Takes the node of a key out of the table. */
    method Remove(b: nat, prev: Node?, n: Node)
      requires Valid() && n == Holder(chains, n.key) && b == Bucket(n.key, |chains|)
      requires var j := Find(chains[b], n.key);
        n == At(chains[b], j) && prev == if j == 0 then null else At(chains[b], j - 1)
      modifies `nodes, `chains, `repr, `model, arr, repr`next
      ensures Valid() && model == old(model) - {n.key} && nodes == old(nodes) - 1 && repr == old(repr) - {n}
      ensures var j := Find(old(chains)[b], n.key); |chains| == |old(chains)| && chains[b] == Without(old(chains)[b], j)
    {
      hide ChainsOk, Holder, Bucket, Holds, PowerOfTwo, Spells, Without;
      ghost var j := Find(chains[b], n.key);
      InRange(chains, prev, b, j, arr, repr);
      Unlink(arr, b, prev, n, j, chains, repr);
      UnlinkHolder(chains, b, j);
      ghost var cs := chains[b := Without(chains[b], j)];
      HoldsRemove(chains, cs, repr, model, n);
      nodes := nodes - 1;
      chains, repr, model := cs, repr - {n}, model - {n.key};
    }

    /** 0 and the key is gone, or -1 and nothing changed. */
    method Delete(key: seq<byte>) returns (rc: int)
      requires Valid()
      modifies `nodes, `cur, `chains, `repr, `model, arr, repr`next
      ensures Valid() && repr <= old(repr)
      ensures rc == if key in old(model) then 0 else -1
      ensures model == old(model) - {key}
    {
      hide ChainsOk, Holder, Find, Bucket, Holds, PowerOfTwo, Spells;
      HoldsMeans(chains, repr, model, key);
      var b, prev, n := FindNodep(key);
      if n == null { return -1; }
      Remove(b, prev, n);
      rc := 0;
    }

    /** A node with more room takes the place of node n in its chain. */
    method Replace(b: nat, prev: Node?, n: Node, key: seq<byte>, dlen: nat) returns (n': Node)
      requires Valid() && n == Holder(chains, key) && b == Bucket(key, |chains|)
      requires var j := Find(chains[b], key);
        n == At(chains[b], j) && prev == if j == 0 then null else At(chains[b], j - 1)
      modifies `nodes, `arr, `mask, `cur, `chains, `repr, `model, arr, repr`next
      ensures Valid() && n'.Ok() && model == old(model)[key := n'.Value()]
      ensures cur == n' == Holder(chains, key) && n'.dlen == dlen && fresh(n')
      ensures repr == old(repr) - {n} + {n'} && (arr == old(arr) || fresh(arr))
    {
      hide ChainsOk, Holder, Bucket, Holds, PowerOfTwo, Spells;
      ghost var j := Find(chains[b], key);
      if j > 0 { AtWithout(chains[b], j, j - 1); }
      Remove(b, prev, n);
      HoldsMeans(chains, repr, model, key);
      n' := NewNode(b, prev, key, dlen, j);
    }

    /** The node of the key if its data is at least `dlen` long, else a new one in its place. */
    method Room(key: seq<byte>, dlen: nat) returns (n: Node)
      requires Valid()
      modifies `nodes, `arr, `mask, `cur, `chains, `repr, `model, arr, repr`next
      ensures Valid() && n.Ok() && n.dlen >= dlen && model == old(model)[key := n.Value()]
      ensures cur == n == Holder(chains, key) && n in repr
      ensures fresh(repr - old(repr)) && (arr == old(arr) || fresh(arr))
    {
      hide ChainsOk, Holder, Find, Bucket, Holds, PowerOfTwo, Spells;
      HoldsMeans(chains, repr, model, key);
      var b, prev, found := FindNodep(key);
      ghost var j := Find(chains[b], key);
      if found == null {
        n := NewNode(b, prev, key, dlen, j);
      } else if dlen > found.dlen {
        n := Replace(b, prev, found, key, dlen);
      } else {
        n := found;
      }
    }

    /**
     Adds the key or replaces its value.  Data no longer than the old is copied
     over it; for longer data a new node takes the old one's place.
     */
    method Store(key: seq<byte>, v: Option<seq<byte>>, dlen: nat)
      requires Valid() && (v.Some? ==> |v.value| == dlen)
      modifies `nodes, `arr, `mask, `cur, `chains, `repr, `model, arr, repr
      ensures Valid() && fresh(repr - old(repr)) && (arr == old(arr) || fresh(arr))
      ensures model == old(model)[key := Given(v, dlen)]
      ensures cur != null && cur == Holder(chains, key)
    {
      hide ChainsOk, Holder, Find, Bucket, Holds, PowerOfTwo, Spells, Given;
      var n := Room(key, dlen);
      Fill(n, Given(v, dlen));
    }

    /** The position of the walk is in the table. */
    ghost predicate Walking()
      reads `chains, `lastidx, `lastnode
    {
      && -1 <= lastidx < |chains|
      && (lastnode != null ==>
            && 0 <= lastidx
            && Find(chains[lastidx], lastnode.key) < |chains[lastidx]|
            && chains[lastidx][Find(chains[lastidx], lastnode.key)] == lastnode)
    }

    /** The nodes from the walk's position on. */
    ghost function Ahead(): (ns: seq<Node>)
      requires Walking()
      reads `chains, `lastidx, `lastnode
      ensures ns == if lastnode == null then [] else [lastnode] + After(chains, lastidx, lastnode)
    {
      if lastnode == null then [] else [lastnode] + After(chains, lastidx, lastnode)
    }

    method First()
      requires Valid()
      modifies `lastidx, `lastnode, `cur
      ensures Valid() && Walking() && cur == lastnode
      ensures Flat(chains, 0) == Ahead()
    {
      hide ChainsOk, Holder, Find, Bucket, Holds, PowerOfTwo, Spells;
      lastidx := -1;
      lastnode := null;
      NoBuckets(chains);
      Next();
    }

    /** The head of the next bucket that is not empty. */
    method NextBucket() returns (n: Node?)
      requires Valid() && -1 <= lastidx < |chains|
      modifies `lastidx
      ensures Valid() && -1 <= lastidx < |chains|
      ensures n != null ==> lastidx >= 0 && chains[lastidx] != [] && n == chains[lastidx][0]
      ensures Flat(chains, old(lastidx) + 1)
           == if n == null then [] else chains[lastidx][0..] + Flat(chains, lastidx + 1)
    {
      hide ChainsOk, Holder, Find, Bucket, Holds, PowerOfTwo;
      n := null;
      var i := lastidx + 1;
      while i <= mask && arr[i] == null
        invariant lastidx < i <= mask + 1
        invariant Flat(chains, i) == Flat(chains, lastidx + 1)
      {
        i := i + 1;
      }
      if i <= mask {
        lastidx := i;
        n := arr[i];
        assert chains[i][0..] == chains[i];
      }
    }

    /** The node behind the position in its chain, which is at j there. */
    method Follow() returns (n: Node?, ghost j: nat)
      requires Valid() && Walking()
      ensures n != null ==> lastidx >= 0 && j < |chains[lastidx]| && n == chains[lastidx][j]
      ensures After(chains, lastidx, lastnode)
           == (if n == null then [] else chains[lastidx][j..]) + Flat(chains, lastidx + 1)
    {
      hide ChainsOk, Holder, Find, Bucket, Holds, PowerOfTwo, Flat, Spells;
      NoneAfter(chains, lastidx);
      hide After;
      j := 0;
      n := lastnode;
      if n != null {
        j := Find(chains[lastidx], n.key) + 1;
        AfterAt(chains, lastidx, j - 1);
        NextAt(chains, lastidx, j - 1, arr, repr);
        n := n.next;
      }
    }

    /** The node behind the position, in its chain or at the head of a later one. */
    method Advance() returns (n: Node?)
      requires Valid() && Walking()
      modifies `lastidx
      ensures Valid() && -1 <= lastidx < |chains|
      ensures n != null ==>
        && 0 <= lastidx && Find(chains[lastidx], n.key) < |chains[lastidx]|
        && chains[lastidx][Find(chains[lastidx], n.key)] == n
      ensures old(After(chains, lastidx, lastnode)) == if n == null then [] else [n] + After(chains, lastidx, n)
    {
      hide ChainsOk, Holder, Find, Bucket, Holds, PowerOfTwo, Flat, Spells, After;
      ghost var j;
      n, j := Follow();
      if n == null {
        n := NextBucket();
        j := 0;
      }
      if n != null { AfterAt(chains, lastidx, j); }
    }

    /** Moves on to the next node; the walk has its own position, apart from `cur`. */
    method Next()
      requires Valid() && Walking()
      modifies `lastidx, `lastnode, `cur
      ensures Valid() && Walking() && cur == lastnode
      ensures old(After(chains, lastidx, lastnode)) == Ahead()
    {
      hide ChainsOk, Holder, Find, Bucket, Holds, PowerOfTwo, Flat, Spells, After;
      var n := Advance();
      lastnode := n;
      cur := n;
    }

    lemma KeysListed()
      requires Valid()
      ensures var keys := KeysOf(Flat(chains, 0));
        && (forall p, q :: 0 <= p < q < |keys| ==> keys[p] != keys[q])
        && (forall key :: key in keys <==> key in model)
        && |keys| == nodes
    {
      hide ChainsOk, Holds, Flat, Spells, KeysOf, PowerOfTwo;
      FlatListsKeys(chains, repr, model);
    }

    lemma PositionOk()
      requires Valid() && Walking()
      ensures lastnode != null ==> lastnode.Ok()
    {
      hide ChainsOk, Holder, Find, Bucket, Holds, PowerOfTwo, Spells;
      if lastnode != null { NodeAt(lastidx, Find(chains[lastidx], lastnode.key)); }
    }

    /** EACH_HASH with a body that fetches: every key of the table, once. */
    method Walk(probe: seq<byte>) returns (keys: seq<seq<byte>>)
      requires Valid()
      modifies `lastidx, `lastnode, `cur
      ensures Valid()
      ensures forall p, q :: 0 <= p < q < |keys| ==> keys[p] != keys[q]
      ensures forall key :: key in keys <==> key in model
      ensures |keys| == nodes
    {
      hide Proper, Valid, Flat, KeysOf, After;
      First();
      ghost var done: seq<Node> := [];
      keys := [];
      KeysGrow([]);
      while cur != null
        invariant Valid() && Walking() && cur == lastnode && keys == KeysOf(done)
        invariant Flat(chains, 0) == done + Ahead()
        decreases |Flat(chains, 0)| - |done|
      {
        PositionOk();
        Onward(done, lastnode, After(chains, lastidx, lastnode));
        keys := keys + [cur.mem[..cur.klen]];
        done := done + [lastnode];
        KeysGrow(done);
        var value := Fetch(probe);
        Next();
      }
      assert done + [] == done;
      KeysListed();
    }

    /** The number of keys. */
    method Count() returns (n: nat)
      requires Valid()
      ensures n == |model|
    {
      n := nodes;
    }
  }
}
