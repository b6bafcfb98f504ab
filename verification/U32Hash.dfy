/**
 The hash table of hash/u32hash.c: keys are nonzero 32-bit numbers, values have
 one fixed length, and collisions are resolved by linear probing.
 */
module U32Hash {
  import opened Wrappers
  import opened Bits
  import opened U32Table

  /** hdr.kptr: no entry, or a slot of the table. */
  datatype Cursor = Nowhere | At(slot: nat)

  class U32Hash {
    const vlen: nat
    var table: array<KeyVal>
    var cnt: nat
    var vals: seq<byte>
    var cursor: Cursor

    /** The table is never more than three quarters full plus one. */
    ghost predicate Valid()
      reads `table, `cnt, `vals, table
    {
      && vlen >= 4
      && table.Length >= 32 && PowerOfTwo(table.Length)
      && TableOk(table[..])
      && Count(table[..]) == cnt <= 3 * table.Length / 4 + 1
      && Disjoint(Entries(table[..]), vals, vlen)
    }

    ghost function Model(): map<u32, seq<byte>>
      reads `table, `vals, table
    {
      Contents(Entries(table[..]), vals, vlen)
    }

    constructor (vlen: nat)
      requires vlen >= 4
      ensures Valid() && Model() == map[] && fresh(table) && this.vlen == vlen && table.Length == 32
    {
      this.vlen := vlen;
      table := new KeyVal[32](_ => KeyVal(0, 0));
      cnt := 0;
      vals := [];
      cursor := Nowhere;
      new;
      EntriesOfEmpty(table[..]);
      EmptyOk(table[..]);
      assert PowerOfTwo(2) && PowerOfTwo(4) && PowerOfTwo(8) && PowerOfTwo(16);
    }

    /**
     The slot of a key or, if there is none, the empty slot where its run ends;
     the search ends because some slot is empty.
     */
    method Lookup(key: u32) returns (n: nat)
      requires TableOk(table[..]) && Count(table[..]) < table.Length
      modifies `cursor
      ensures n < table.Length && Probed(table[..], key, n)
      ensures table[n].key == 0 || table[n].key == key
      ensures cursor == if table[n].key != 0 then At(n) else Nowhere
    {
      hide Home, TableOk, Count;
      n := Home(key, table.Length);
      ghost var h := n;
      ghost var z := FreeSlot(table[..]);
      while table[n].key != 0 && table[n].key != key
        invariant n < table.Length && Probed(table[..], key, n)
        decreases Ahead(n, z, table.Length)
      {
        assert !OnRun(h, n, z) && z != n;
        assert forall j :: 0 <= j < table.Length && OnRun(h, Step(n, table.Length), j) ==> OnRun(h, n, j) || j == n;
        n := Step(n, table.Length);
      }
      cursor := if table[n].key != 0 then At(n) else Nowhere;
    }

    /** A lookup finds exactly the keys of the table. */
    lemma LookupFinds(key: u32, n: nat)
      requires TableOk(table[..]) && Probed(table[..], key, n)
      requires table[n].key == 0 || table[n].key == key
      ensures key in Entries(table[..]) <==> table[n].key != 0
      ensures table[n].key != 0 ==> Entries(table[..])[key] == table[n].val
      ensures table[n].key == 0 && key != 0 ==> forall i :: 0 <= i < table.Length ==> table[i].key != key
    {
      hide Home;
      EntriesHave(table[..], key);
      if key != 0 && table[n].key == 0 { NotFound(table[..], key, n); }
    }

    /** The value, or nothing for a key that is not stored, 0 among them. */
    method Fetch(key: u32) returns (r: Option<seq<byte>>)
      requires Valid()
      modifies `cursor
      ensures Valid() && Model() == old(Model())
      ensures r == if key in Model() then Some(Model()[key]) else None
      ensures cursor.At? <==> key in Model()
      ensures cursor.At? ==> cursor.slot < table.Length && table[cursor.slot].key == key
    {
      hide TableOk, Count, Probed, Entries, Disjoint, Value;
      var n := Lookup(key);
      LookupFinds(key, n);
      r := if cursor.At? then Some(Value(table[n].val, vals, vlen)) else None;
    }

    /** `h->table[lookup(key)] = oldtable[i]`, for a slot in use. */
    method CopySlot(oldtable: array<KeyVal>, i: nat)
      requires TableOk(oldtable[..]) && i < oldtable.Length && oldtable != table
      requires TableOk(table[..]) && table.Length == 2 * oldtable.Length
      requires Entries(table[..]) == Entries(oldtable[..i]) && Count(table[..]) == Count(oldtable[..i])
      modifies `cursor, table
      ensures TableOk(table[..])
      ensures Entries(table[..]) == Entries(oldtable[..i + 1]) && Count(table[..]) == Count(oldtable[..i + 1])
    {
      var kv := oldtable[i];
      EntriesGrow(oldtable[..], i);
      if kv.key == 0 { return; }
      hide TableOk, Entries, Count, Probed;
      var n := Lookup(kv.key);
      LookupFinds(kv.key, n);
      ghost var t := table[..];
      table[n] := kv;
      assert table[..] == t[n := kv];
      PutKeepsOk(t, n, kv);
      EntriesAdd(t, n, kv);
    }

    /** Copies every entry into an empty table twice as large. */
    method Resize()
      requires Valid() && cnt > 3 * table.Length / 4
      modifies `table, `cursor
      ensures Valid() && Model() == old(Model())
      ensures fresh(table) && table.Length == 2 * old(table.Length)
    {
      hide TableOk, Entries, Count, Disjoint, Contents;
      var oldtable := table;
      var oldsize := oldtable.Length;
      table := new KeyVal[2 * oldsize](_ => KeyVal(0, 0));
      EntriesOfEmpty(table[..]);
      EmptyOk(table[..]);
      EntriesOfEmpty(oldtable[..0]);
      var i := 0;
      while i < oldsize
        invariant 0 <= i <= oldsize
        invariant TableOk(table[..])
        invariant Entries(table[..]) == Entries(oldtable[..i]) && Count(table[..]) == Count(oldtable[..i])
        modifies `cursor, table
      {
        CopySlot(oldtable, i);
        i := i + 1;
      }
      assert oldtable[..oldsize] == oldtable[..];
      assert PowerOfTwo(2 * oldsize);
    }

    /** A vptr of null stands for a value of zeros. */
    function Given(v: Option<seq<byte>>): (r: seq<byte>)
      requires v.Some? ==> |v.value| == vlen
      ensures |r| == vlen
    {
      if v.Some? then v.value else seq(vlen, _ => 0)
    }

    /** The u32 offsets of the value region do not wrap. */
    predicate RoomFor()
      reads `vals
    {
      vlen > 4 ==> |vals| + vlen < 0xFFF0_0000
    }

    /** The key goes into the empty slot n, the value into the slot or behind the region. */
    method Add(key: u32, n: nat, v: seq<byte>)
      requires key != 0 && |v| == vlen >= 4 && RoomFor()
      requires TableOk(table[..]) && Disjoint(Entries(table[..]), vals, vlen)
      requires n < table.Length && Probed(table[..], key, n) && table[n].key == 0
      modifies `vals, table
      ensures TableOk(table[..]) && Disjoint(Entries(table[..]), vals, vlen)
      ensures Count(table[..]) == Count(old(table[..])) + 1
      ensures Model() == old(Model())[key := v]
      ensures table[n].key == key
    {
      NotFound(table[..], key, n);
      EntriesHave(table[..], key);
      hide TableOk, Entries, Count, Probed, Disjoint, Value, Contents;
      ghost var t, region := table[..], vals;
      var val: u32 := 0;
      if vlen > 4 {
        val := |vals|;
        vals := vals + v;
        NewWideValue(Entries(t), region, vlen, key, v);
      } else {
        val := FromLe32(v);
        NarrowValue(Entries(t), region, key, v);
      }
      table[n] := KeyVal(key, val);
      assert table[..] == t[n := KeyVal(key, val)];
      PutKeepsOk(t, n, KeyVal(key, val));
      EntriesAdd(t, n, KeyVal(key, val));
      assert vlen == 4 ==> Disjoint(Entries(table[..]), vals, vlen) by { NarrowDisjoint(Entries(table[..]), vals); }
    }

    /** False, with the table unchanged, for a key that is present; else the key is added. */
    method Insert(key: u32, v: Option<seq<byte>>) returns (added: bool)
      requires Valid() && key != 0 && (v.Some? ==> |v.value| == vlen)
      requires table.Length <= 0x4000_0000 && RoomFor()
      modifies `table, `cnt, `vals, `cursor, table
      ensures Valid() && (table == old(table) || fresh(table))
      ensures added <==> key !in old(Model())
      ensures Model() == if added then old(Model())[key := Given(v)] else old(Model())
      ensures cnt == old(cnt) + if added then 1 else 0
      ensures table.Length == if old(cnt) > 3 * old(table.Length) / 4 then 2 * old(table.Length) else old(table.Length)
      ensures cursor.At? && cursor.slot < table.Length && table[cursor.slot].key == key
    {
      hide TableOk, Entries, Count, Probed, Disjoint, Value, PowerOfTwo, Given;
      if cnt > 3 * table.Length / 4 { Resize(); }
      var n := Lookup(key);
      LookupFinds(key, n);
      added := cursor.Nowhere?;
      if added {
        cnt := cnt + 1;
        Add(key, n, Given(v));
        cursor := At(n);
      }
    }

    /** Insert, or overwrite the value in place. */
    method Store(key: u32, v: Option<seq<byte>>)
      requires Valid() && key != 0 && (v.Some? ==> |v.value| == vlen)
      requires table.Length <= 0x4000_0000 && RoomFor()
      modifies `table, `cnt, `vals, `cursor, table
      ensures Valid() && (table == old(table) || fresh(table))
      ensures Model() == old(Model())[key := Given(v)]
      ensures cursor.At? && cursor.slot < table.Length && table[cursor.slot].key == key
    {
      hide TableOk, Entries, Count, Probed, Disjoint, Value, Contents, PowerOfTwo, Given;
      var isNew := Insert(key, v);
      if !isNew { Overwrite(cursor.slot, Given(v)); }
    }

    /** memcpy() to hdr.vptr. */
    method Overwrite(n: nat, v: seq<byte>)
      requires Valid() && n < table.Length && table[n].key != 0 && |v| == vlen
      modifies `vals, table
      ensures Valid()
      ensures Model() == old(Model())[old(table[n].key) := v]
      ensures table[n].key == old(table[n].key)
    {
      SlotEntry(table[..], n);
      hide TableOk, Entries, Count, Disjoint, Value, Contents, PowerOfTwo, Patched;
      ghost var t, region := table[..], vals;
      var key, o := table[n].key, table[n].val;
      if vlen > 4 {
        OverwriteWideValue(Entries(t), region, vlen, key, v);
        vals := Patched(vals, o, v);
      } else {
        NarrowValue(Entries(t), region, key, v);
        SlotChanges(t, n, FromLe32(v));
        table[n] := KeyVal(key, FromLe32(v));
        assert table[..] == t[n := KeyVal(key, FromLe32(v))];
        ChangeKeepsOk(t, n, FromLe32(v));
        NarrowDisjoint(Entries(table[..]), vals);
      }
    }

    /** The number of keys. */
    method Size() returns (n: nat)
      requires Valid()
      ensures n == |Model()|
    {
      hide TableOk, Entries, Count, Disjoint, Value, PowerOfTwo;
      n := cnt;
      KeysListed(table[..], vals, vlen);
    }

    /** The first used slot at or behind n, or the table's length. */
    function UsedFrom(n: nat): (m: nat)
      requires n <= table.Length
      reads `table, table
      ensures n <= m <= table.Length
      ensures m < table.Length ==> table[m].key != 0
      ensures forall j :: n <= j < m ==> table[j].key == 0
      decreases table.Length - n
    {
      if n == table.Length || table[n].key != 0 then n else UsedFrom(n + 1)
    }

    function CursorAt(n: nat): Cursor
      reads `table
    {
      if n < table.Length then At(n) else Nowhere
    }

    /** The entry in the lowest used slot. */
    method First()
      requires Valid()
      modifies `cursor
      ensures Valid() && Model() == old(Model())
      ensures cursor == CursorAt(UsedFrom(0))
    {
      cursor := At(0);
      if table[0].key == 0 { Next(); }
    }

    /** The entry in the next used slot behind the cursor; the caller must have an entry. */
    method Next()
      requires Valid() && cursor.At? && cursor.slot < table.Length
      modifies `cursor
      ensures Valid() && Model() == old(Model())
      ensures cursor == CursorAt(UsedFrom(old(cursor.slot) + 1))
    {
      var n := cursor.slot + 1;
      while n < table.Length && table[n].key == 0
        invariant old(cursor.slot) < n <= table.Length
        invariant UsedFrom(n) == UsedFrom(old(cursor.slot) + 1)
      {
        n := n + 1;
      }
      cursor := CursorAt(n);
    }

    /** EACH_HASH with a body that leaves the table and the cursor alone: every key, once. */
    method Walk() returns (keys: seq<u32>)
      requires Valid()
      modifies `cursor
      ensures Valid() && Model() == old(Model()) && cursor == Nowhere
      ensures forall i, j :: 0 <= i < j < |keys| ==> keys[i] != keys[j]
      ensures forall k :: k in keys <==> k in Model()
      ensures |keys| == cnt
    {
      hide TableOk, Entries, Count, Disjoint, Value, PowerOfTwo, KeysOf;
      keys := [];
      First();
      ghost var upto := UsedFrom(0);
      KeysBetween(table[..], 0, upto);
      NoKeys(table[..]);
      while cursor.At?
        invariant upto <= table.Length && cursor == CursorAt(upto) && (upto < table.Length ==> table[upto].key != 0)
        invariant keys == KeysOf(table[..upto])
        decreases table.Length - upto
      {
        keys := keys + [table[cursor.slot].key];
        Next();
        KeysGrow(table[..], upto);
        KeysBetween(table[..], upto + 1, UsedFrom(upto + 1));
        upto := UsedFrom(upto + 1);
      }
      assert table[..upto] == table[..];
      KeysListed(table[..], vals, vlen);
    }
  }
}
