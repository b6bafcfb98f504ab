/** The open-addressing table of hash/u32hash.c as a value: what linear probing keeps and finds. */
module U32Table {
  import opened Bits
  import Crc32c

  /** A slot; key 0 marks it empty. */
  datatype KeyVal = KeyVal(key: u32, val: u32)

  function Hash(key: u32): u32 { Crc32c.Crc(0, Le32(key)) }

  /** Where the probe run of a key starts; `size` is a power of two, so this is HASH & (size - 1). */
  function Home(key: u32, size: nat): (n: nat)
    requires size > 0
    ensures n < size
  {
    Hash(key) % size
  }

  function Step(n: nat, size: nat): nat { if n + 1 == size then 0 else n + 1 }

  /** Slot j comes before slot i on the cyclic run that starts at h. */
  predicate OnRun(h: nat, i: nat, j: nat)
  {
    if h <= i then h <= j < i else h <= j || j < i
  }

  /** No key twice, and no hole between a key's home and its slot. */
  ghost predicate TableOk(t: seq<KeyVal>)
  {
    && |t| > 0
    && (forall i, j :: 0 <= i < j < |t| && t[i].key != 0 ==> t[i].key != t[j].key)
    && (forall i, j :: 0 <= i < |t| && 0 <= j < |t| && t[i].key != 0 && OnRun(Home(t[i].key, |t|), i, j)
          ==> t[j].key != 0)
  }

  /** The slots in use, as a map. */
  ghost function Entries(t: seq<KeyVal>): map<u32, u32>
  {
    if t == [] then map[]
    else
      var m, last := Entries(t[..|t| - 1]), t[|t| - 1];
      if last.key == 0 then m else m[last.key := last.val]
  }

  ghost function Count(t: seq<KeyVal>): (n: nat)
    ensures n <= |t|
  {
    if t == [] then 0 else Count(t[..|t| - 1]) + if t[|t| - 1].key == 0 then 0 else 1
  }

  // ------------------------------------------------------------------ entries

  lemma {:induction false} EntriesHave(t: seq<KeyVal>, k: u32)
    requires forall i, j :: 0 <= i < j < |t| && t[i].key != 0 ==> t[i].key != t[j].key
    ensures k in Entries(t) <==> k != 0 && exists i :: 0 <= i < |t| && t[i].key == k
    ensures forall i :: 0 <= i < |t| && t[i].key == k != 0 ==> k in Entries(t) && Entries(t)[k] == t[i].val
  {
    if t != [] {
      var n := |t| - 1;
      EntriesHave(t[..n], k);
      assert forall i :: 0 <= i < n ==> t[..n][i] == t[i];
      if k in Entries(t) && k != t[n].key {
        var i :| 0 <= i < n && t[..n][i].key == k;
        assert t[i].key == k;
      }
    }
  }

  /** A new key in an empty slot. */
  lemma {:induction false} EntriesAdd(t: seq<KeyVal>, n: nat, kv: KeyVal)
    requires n < |t| && t[n].key == 0 && kv.key != 0
    requires forall i :: 0 <= i < |t| ==> t[i].key != kv.key
    ensures Entries(t[n := kv]) == Entries(t)[kv.key := kv.val]
    ensures Count(t[n := kv]) == Count(t) + 1
  {
    var m := |t| - 1;
    var u := t[n := kv];
    if n == m {
      assert u[..m] == t[..m];
    } else {
      assert u[..m] == t[..m][n := kv];
      EntriesAdd(t[..m], n, kv);
    }
  }

  /** A new value for a key. */
  lemma {:induction false} EntriesChange(t: seq<KeyVal>, n: nat, val: u32)
    requires n < |t| && t[n].key != 0
    requires forall i, j :: 0 <= i < j < |t| && t[i].key != 0 ==> t[i].key != t[j].key
    ensures Entries(t[n := KeyVal(t[n].key, val)]) == Entries(t)[t[n].key := val]
    ensures Count(t[n := KeyVal(t[n].key, val)]) == Count(t)
  {
    var m := |t| - 1;
    var u := t[n := KeyVal(t[n].key, val)];
    if n == m {
      assert u[..m] == t[..m];
    } else {
      assert u[..m] == t[..m][n := KeyVal(t[n].key, val)];
      EntriesChange(t[..m], n, val);
    }
  }

  /** One more slot of a table whose keys differ. */
  lemma EntriesGrow(t: seq<KeyVal>, i: nat)
    requires TableOk(t) && i < |t|
    ensures t[i].key == 0 ==> Entries(t[..i + 1]) == Entries(t[..i]) && Count(t[..i + 1]) == Count(t[..i])
    ensures t[i].key != 0 ==>
      && t[i].key !in Entries(t[..i])
      && Entries(t[..i + 1]) == Entries(t[..i])[t[i].key := t[i].val]
      && Count(t[..i + 1]) == Count(t[..i]) + 1
  {
    hide Home;
    assert t[..i + 1][..i] == t[..i];
    EntriesHave(t[..i], t[i].key);
  }

  lemma {:induction false} EntriesOfEmpty(t: seq<KeyVal>)
    requires forall i :: 0 <= i < |t| ==> t[i].key == 0
    ensures Entries(t) == map[] && Count(t) == 0
  {
    if t != [] { EntriesOfEmpty(t[..|t| - 1]); }
  }

  // ------------------------------------------------------------------ probing

  /** A table that is not full has a free slot. */
  lemma {:induction false} FreeSlot(t: seq<KeyVal>) returns (z: nat)
    requires Count(t) < |t|
    ensures z < |t| && t[z].key == 0
  {
    z := |t| - 1;
    if t[z].key != 0 {
      z := FreeSlot(t[..z]);
    }
  }

  /** How far slot z is ahead of slot n. */
  function Ahead(n: nat, z: nat, size: nat): int
  {
    if n <= z then z - n else z - n + size
  }

  /** lookup() stopped at n: every slot before n on the run is in use by another key. */
  ghost predicate Probed(t: seq<KeyVal>, key: u32, n: nat)
  {
    && n < |t|
    && forall j :: 0 <= j < |t| && OnRun(Home(key, |t|), n, j) ==> t[j].key != 0 && t[j].key != key
  }

  /** An empty slot at the end of the run: the key is nowhere. */
  lemma NotFound(t: seq<KeyVal>, key: u32, n: nat)
    requires TableOk(t) && Probed(t, key, n) && t[n].key == 0 && key != 0
    ensures forall i :: 0 <= i < |t| ==> t[i].key != key
  {
    hide Home;
    var h := Home(key, |t|);
    forall i | 0 <= i < |t|
      ensures t[i].key != key
    {
      assert i == n || OnRun(h, n, i) || OnRun(h, i, n);
    }
  }

  /** Filling the empty slot at the end of a key's run with that key leaves no hole. */
  lemma PutKeepsOk(t: seq<KeyVal>, n: nat, kv: KeyVal)
    requires TableOk(t) && kv.key != 0 && Probed(t, kv.key, n) && t[n].key == 0
    ensures TableOk(t[n := kv])
  {
    hide Home;
    NotFound(t, kv.key, n);
    var u := t[n := kv];
    forall i, j | 0 <= i < |u| && 0 <= j < |u| && u[i].key != 0 && OnRun(Home(u[i].key, |u|), i, j)
      ensures u[j].key != 0
    {
      if i != n && j != n { assert t[i] == u[i] && t[j] == u[j]; }
    }
  }

  /** The keys alone decide whether a table is in order. */
  lemma ChangeKeepsOk(t: seq<KeyVal>, n: nat, val: u32)
    requires TableOk(t) && n < |t|
    ensures TableOk(t[n := KeyVal(t[n].key, val)])
  {
    hide Home;
    var u := t[n := KeyVal(t[n].key, val)];
    assert forall i :: 0 <= i < |u| ==> u[i].key == t[i].key;
  }

  lemma SlotChanges(t: seq<KeyVal>, n: nat, val: u32)
    requires TableOk(t) && n < |t| && t[n].key != 0
    ensures Entries(t[n := KeyVal(t[n].key, val)]) == Entries(t)[t[n].key := val]
    ensures Count(t[n := KeyVal(t[n].key, val)]) == Count(t)
  {
    EntriesChange(t, n, val);
  }

  lemma SlotEntry(t: seq<KeyVal>, n: nat)
    requires TableOk(t) && n < |t| && t[n].key != 0
    ensures t[n].key in Entries(t) && Entries(t)[t[n].key] == t[n].val
  {
    EntriesHave(t, t[n].key);
  }

  lemma EmptyOk(t: seq<KeyVal>)
    requires |t| > 0 && forall i :: 0 <= i < |t| ==> t[i].key == 0
    ensures TableOk(t)
  {
  }

  /** The number of used slots is the number of keys. */
  lemma {:induction false} CountIsSize(t: seq<KeyVal>)
    requires forall i, j :: 0 <= i < j < |t| && t[i].key != 0 ==> t[i].key != t[j].key
    ensures Count(t) == |Entries(t)|
  {
    if t != [] {
      var n := |t| - 1;
      CountIsSize(t[..n]);
      EntriesHave(t[..n], t[n].key);
      assert forall i :: 0 <= i < n ==> t[..n][i] == t[i];
      if t[n].key != 0 {
        assert Entries(t).Keys == Entries(t[..n]).Keys + {t[n].key};
      }
    }
  }

  /** The keys in table order. */
  ghost function KeysOf(t: seq<KeyVal>): (keys: seq<u32>)
  {
    if t == [] then []
    else KeysOf(t[..|t| - 1]) + if t[|t| - 1].key == 0 then [] else [t[|t| - 1].key]
  }

  lemma KeysGrow(t: seq<KeyVal>, n: nat)
    requires n < |t|
    ensures KeysOf(t[..n + 1]) == KeysOf(t[..n]) + if t[n].key == 0 then [] else [t[n].key]
  {
    assert t[..n + 1][..n] == t[..n];
  }

  lemma {:induction false} KeysBetween(t: seq<KeyVal>, i: nat, j: nat)
    requires i <= j <= |t| && forall k :: i <= k < j ==> t[k].key == 0
    ensures KeysOf(t[..j]) == KeysOf(t[..i])
  {
    if i < j {
      KeysBetween(t, i, j - 1);
      KeysGrow(t, j - 1);
    }
  }

  /** Table order lists every key once. */
  lemma {:induction false} KeysAreEntries(t: seq<KeyVal>)
    requires forall i, j :: 0 <= i < j < |t| && t[i].key != 0 ==> t[i].key != t[j].key
    ensures forall k :: k in KeysOf(t) <==> k in Entries(t)
    ensures |KeysOf(t)| == Count(t)
    ensures forall i, j :: 0 <= i < j < |KeysOf(t)| ==> KeysOf(t)[i] != KeysOf(t)[j]
  {
    if t != [] {
      var n := |t| - 1;
      KeysAreEntries(t[..n]);
      EntriesHave(t[..n], t[n].key);
      assert forall i :: 0 <= i < n ==> t[..n][i] == t[i];
    }
  }

  // ------------------------------------------------------------------ values

  /** Values up to four bytes live in the table; wider ones in the value region, `val` being their offset. */
  function Value(val: u32, region: seq<byte>, vlen: nat): (v: seq<byte>)
  {
    if vlen == 4 then Le32(val) else if val + vlen <= |region| then region[val..val + vlen] else []
  }

  /** Every value lies inside the region and no two overlap. */
  ghost predicate Disjoint(e: map<u32, u32>, region: seq<byte>, vlen: nat)
  {
    vlen > 4 ==>
      && (forall k :: k in e ==> e[k] + vlen <= |region|)
      && (forall k, l :: k in e && l in e && k != l ==> e[k] + vlen <= e[l] || e[l] + vlen <= e[k])
  }

  lemma NarrowDisjoint(e: map<u32, u32>, region: seq<byte>)
    ensures Disjoint(e, region, 4)
  {
  }

  /** The finite map a caller sees. */
  ghost function Contents(e: map<u32, u32>, region: seq<byte>, vlen: nat): map<u32, seq<byte>>
  {
    map k | k in e :: Value(e[k], region, vlen)
  }

  /** A wide value for a new key goes to the end of the region. */
  lemma NewWideValue(e: map<u32, u32>, region: seq<byte>, vlen: nat, key: u32, v: seq<byte>)
    requires vlen > 4 && |v| == vlen && Disjoint(e, region, vlen) && key !in e
    requires |region| < 0x1_0000_0000
    ensures Disjoint(e[key := |region|], region + v, vlen)
    ensures Contents(e[key := |region|], region + v, vlen) == Contents(e, region, vlen)[key := v]
  {
    NewDisjoint(e, region, vlen, key, v);
    var e', r' := e[key := |region|], region + v;
    hide Value, Disjoint;
    forall k | k in e'
      ensures Value(e'[k], r', vlen) == if k == key then v else Value(e[k], region, vlen)
    {
      if k == key { NewValue(region, v); } else { OldValue(e, region, vlen, v, k); }
    }
  }

  lemma NewDisjoint(e: map<u32, u32>, region: seq<byte>, vlen: nat, key: u32, v: seq<byte>)
    requires vlen > 4 && |v| == vlen && Disjoint(e, region, vlen) && key !in e
    requires |region| < 0x1_0000_0000
    ensures Disjoint(e[key := |region|], region + v, vlen)
  {
  }

  lemma NewValue(region: seq<byte>, v: seq<byte>)
    requires |v| > 4 && |region| < 0x1_0000_0000
    ensures Value(|region|, region + v, |v|) == v
  {
  }

  lemma OldValue(e: map<u32, u32>, region: seq<byte>, vlen: nat, v: seq<byte>, k: u32)
    requires vlen > 4 && Disjoint(e, region, vlen) && k in e
    ensures Value(e[k], region + v, vlen) == Value(e[k], region, vlen)
  {
    SliceInFront(region, v, e[k], vlen);
  }

  lemma SliceInFront(region: seq<byte>, v: seq<byte>, o: nat, n: nat)
    requires o + n <= |region|
    ensures (region + v)[o..o + n] == region[o..o + n]
  {
  }

  function Patched(region: seq<byte>, o: nat, v: seq<byte>): (r: seq<byte>)
    requires o + |v| <= |region|
    ensures |r| == |region|
  {
    region[..o] + v + region[o + |v|..]
  }

  lemma PatchedSlices(region: seq<byte>, o: nat, v: seq<byte>, p: nat, n: nat)
    requires o + |v| <= |region| && p + n <= |region|
    ensures Patched(region, o, v)[o..o + |v|] == v
    ensures p + n <= o || o + |v| <= p ==> Patched(region, o, v)[p..p + n] == region[p..p + n]
  {
    var r := Patched(region, o, v);
    PatchedAt(region, o, v);
    hide Patched;
    assert r[o..o + |v|] == v;
    if p + n <= o || o + |v| <= p { assert r[p..p + n] == region[p..p + n]; }
  }

  lemma PatchedAt(region: seq<byte>, o: nat, v: seq<byte>)
    requires o + |v| <= |region|
    ensures forall i :: 0 <= i < |region| ==>
      Patched(region, o, v)[i] == if o <= i < o + |v| then v[i - o] else region[i]
  {
  }

  /** Overwriting one key's wide value in place changes no other key's value. */
  lemma OverwriteWideValue(e: map<u32, u32>, region: seq<byte>, vlen: nat, key: u32, v: seq<byte>)
    requires vlen > 4 && |v| == vlen && Disjoint(e, region, vlen) && key in e
    ensures e[key] + vlen <= |region|
    ensures Disjoint(e, Patched(region, e[key], v), vlen)
    ensures Contents(e, Patched(region, e[key], v), vlen) == Contents(e, region, vlen)[key := v]
  {
    var r := Patched(region, e[key], v);
    assert |r| == |region|;
    hide Patched;
    forall k | k in e
      ensures Value(e[k], r, vlen) == if k == key then v else Value(e[k], region, vlen)
    {
      PatchedSlices(region, e[key], v, e[k], vlen);
    }
    hide Value;
    SameKeys(e, region, vlen, r, key, v);
  }

  lemma SameKeys(e: map<u32, u32>, region: seq<byte>, vlen: nat, r: seq<byte>, key: u32, v: seq<byte>)
    requires key in e
    requires forall k :: k in e ==> Value(e[k], r, vlen) == if k == key then v else Value(e[k], region, vlen)
    ensures Contents(e, r, vlen) == Contents(e, region, vlen)[key := v]
  {
    hide Value;
  }

  /** The same for values held in the table. */
  lemma NarrowValue(e: map<u32, u32>, region: seq<byte>, key: u32, v: seq<byte>)
    requires |v| == 4
    ensures Contents(e[key := FromLe32(v)], region, 4) == Contents(e, region, 4)[key := v]
  {
    Le32OfFrom(v);
  }

  lemma NoKeys(t: seq<KeyVal>)
    ensures KeysOf(t[..0]) == []
  {
  }

  lemma KeysListed(t: seq<KeyVal>, region: seq<byte>, vlen: nat)
    requires TableOk(t)
    ensures forall i, j :: 0 <= i < j < |KeysOf(t)| ==> KeysOf(t)[i] != KeysOf(t)[j]
    ensures forall k :: k in KeysOf(t) <==> k in Contents(Entries(t), region, vlen)
    ensures |KeysOf(t)| == Count(t) == |Contents(Entries(t), region, vlen)|
  {
    KeysAreEntries(t);
    CountIsSize(t);
    assert Contents(Entries(t), region, vlen).Keys == Entries(t).Keys;
  }
}
