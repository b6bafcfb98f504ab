/**
 The container of utils/fopen_vzip.c as bytes: a name, the compressed blocks
 with their lengths, a zero, the table of sizes and offsets, and its length.
 */
module VzipFormat {
  import opened Wrappers
  import opened Bits

  type Bytes = seq<byte>

  const BLOCKSZ: nat := 0x10000
  const MAXZIPBLOCK: nat := 0x14000

  /** The functions that select_cmpfn() picks for a four-byte name. */
  datatype Codec = Codec(name: Bytes, compress: Bytes -> Bytes, uncompress: Bytes -> Option<Bytes>)

  /** A codec that gives back every block, and whose output fits the buffers and is never empty. */
  ghost predicate Lossless(c: Codec)
  {
    |c.name| == 4 && forall x: Bytes :: 0 < |x| <= BLOCKSZ ==>
      0 < |c.compress(x)| < MAXZIPBLOCK - 1 && c.uncompress(c.compress(x)) == Some(x)
  }

  predicate BlocksOk(blocks: seq<Bytes>) { forall i :: 0 <= i < |blocks| ==> 0 < |blocks[i]| <= BLOCKSZ }

  /** A number stored in a u32, which keeps its low 32 bits. */
  function Word(n: nat): (w: Bytes)
    ensures |w| == 4
  {
    Le32(n % 0x1_0000_0000)
  }

  lemma WordIsRead(n: nat)
    requires n < 0x1_0000_0000
    ensures FromLe32(Word(n)) == n
  {
    hide Le32, FromLe32;
    assert n % 0x1_0000_0000 == n;
    Le32RoundTrip(n);
  }

  function Frame(c: Codec, x: Bytes): (f: Bytes)
    ensures |f| == 4 + |c.compress(x)|
  {
    Word(|c.compress(x)|) + c.compress(x)
  }

  /** The blocks in file order. */
  function Data(c: Codec, blocks: seq<Bytes>): Bytes
  {
    if blocks == [] then [] else Data(c, blocks[..|blocks| - 1]) + Frame(c, blocks[|blocks| - 1])
  }

  /** Where block k begins. */
  function Off(c: Codec, blocks: seq<Bytes>, k: nat): nat
    requires k <= |blocks|
  {
    4 + |Data(c, blocks[..k])|
  }

  /** The bytes in the first k blocks. */
  function Size(blocks: seq<Bytes>, k: nat): nat
    requires k <= |blocks|
  {
    if k == 0 then 0 else Size(blocks, k - 1) + |blocks[k - 1]|
  }

  function Join(blocks: seq<Bytes>): Bytes
  {
    if blocks == [] then [] else blocks[0] + Join(blocks[1..])
  }

  datatype SzBlock = SzBlock(usz: nat, off: nat)

  function Table(c: Codec, blocks: seq<Bytes>): (t: seq<SzBlock>)
    ensures |t| == |blocks|
    ensures forall i :: 0 <= i < |t| ==> t[i] == SzBlock(|blocks[i]|, Off(c, blocks, i))
  {
    seq(|blocks|, i requires 0 <= i < |blocks| => SzBlock(|blocks[i]|, Off(c, blocks, i)))
  }

  function TableBytes(t: seq<SzBlock>): (s: Bytes)
    ensures |s| == 8 * |t|
  {
    if t == [] then [] else TableBytes(t[..|t| - 1]) + Word(t[|t| - 1].usz) + Word(t[|t| - 1].off)
  }

  function ReadTable(s: Bytes): (t: seq<SzBlock>)
    requires |s| % 8 == 0
    ensures |t| == |s| / 8
  {
    if s == [] then []
    else
      var m := |s| - 8;
      ReadTable(s[..m]) + [SzBlock(FromLe32(s[m..m + 4]), FromLe32(s[m + 4..]))]
  }

  /** What zipClose() writes behind the blocks. */
  function Tail(t: seq<SzBlock>): (s: Bytes)
    ensures |s| == 8 * |t| + 8
  {
    Word(0) + TableBytes(t) + Word(|t|)
  }

  function Image(c: Codec, blocks: seq<Bytes>): Bytes
  {
    c.name + Data(c, blocks) + Tail(Table(c, blocks))
  }

  /** All offsets and counts fit into 32 bits. */
  predicate Fits(c: Codec, blocks: seq<Bytes>) { |Image(c, blocks)| < 0x1_0000_0000 }

  /** The bytes are the container of the given blocks. */
  predicate IsContainer(c: Codec, blocks: seq<Bytes>, s: Bytes)
  {
    |c.name| == 4 && BlocksOk(blocks) && Fits(c, blocks) && s == Image(c, blocks)
  }

  // ------------------------------------------------------------------ reading

  lemma {:induction false} TableIsRead(t: seq<SzBlock>)
    requires forall i :: 0 <= i < |t| ==> t[i].usz < 0x1_0000_0000 && t[i].off < 0x1_0000_0000
    ensures ReadTable(TableBytes(t)) == t
  {
    hide Word, FromLe32;
    if t != [] {
      var m := |t| - 1;
      TableIsRead(t[..m]);
      WordIsRead(t[m].usz);
      WordIsRead(t[m].off);
      Three(TableBytes(t[..m]), Word(t[m].usz), Word(t[m].off));
      assert t[..m] + [t[m]] == t;
    }
  }

  lemma Three(a: Bytes, u: Bytes, v: Bytes)
    requires |u| == 4 && |v| == 4
    ensures var s, m := a + u + v, |a|; s[..m] == a && s[m..m + 4] == u && s[m + 4..] == v
  {
  }

  lemma {:induction false} DataPrefix(c: Codec, blocks: seq<Bytes>, k: nat)
    requires k <= |blocks|
    ensures |Data(c, blocks[..k])| <= |Data(c, blocks)|
    ensures Data(c, blocks)[..|Data(c, blocks[..k])|] == Data(c, blocks[..k])
  {
    if k == |blocks| {
      assert blocks[..k] == blocks;
    } else {
      var init := blocks[..|blocks| - 1];
      DataPrefix(c, init, k);
      assert init[..k] == blocks[..k];
    }
  }

  lemma DataStep(c: Codec, blocks: seq<Bytes>, k: nat)
    requires k < |blocks|
    ensures Data(c, blocks[..k + 1]) == Data(c, blocks[..k]) + Frame(c, blocks[k])
    ensures Off(c, blocks, k + 1) == Off(c, blocks, k) + 4 + |c.compress(blocks[k])|
  {
    assert blocks[..k + 1][..k] == blocks[..k];
  }

  /** Block k stands at its offset. */
  lemma FrameAt(c: Codec, blocks: seq<Bytes>, k: nat)
    requires |c.name| == 4 && k < |blocks|
    ensures var o, o' := Off(c, blocks, k), Off(c, blocks, k + 1);
      o + 4 <= o' <= |Image(c, blocks)| && Image(c, blocks)[o..o'] == Frame(c, blocks[k])
      && o' == o + 4 + |c.compress(blocks[k])|
  {
    var d := Data(c, blocks);
    DataPrefix(c, blocks, k + 1);
    DataStep(c, blocks, k);
    var m, m' := |Data(c, blocks[..k])|, |Data(c, blocks[..k + 1])|;
    assert d[m..m'] == Frame(c, blocks[k]) by {
      assert d[..m'][m..] == Frame(c, blocks[k]);
    }
    Middle(c.name, d, Tail(Table(c, blocks)), m, m');
  }

  lemma Middle(a: Bytes, d: Bytes, z: Bytes, m: nat, m': nat)
    requires m <= m' <= |d|
    ensures (a + d + z)[|a| + m..|a| + m'] == d[m..m']
  {
  }

  lemma {:induction false} OffIncreases(c: Codec, blocks: seq<Bytes>, i: nat, j: nat)
    requires i < j <= |blocks|
    ensures Off(c, blocks, i) < Off(c, blocks, j)
  {
    DataStep(c, blocks, j - 1);
    if i < j - 1 { OffIncreases(c, blocks, i, j - 1); }
  }

  /** The tail follows the blocks, and its parts can be found from the end. */
  lemma TailAt(c: Codec, blocks: seq<Bytes>)
    requires |c.name| == 4
    ensures var s, n, o := Image(c, blocks), |blocks|, Off(c, blocks, |blocks|);
      |s| == o + 8 * n + 8
      && s[..4] == c.name && s[..o] == c.name + Data(c, blocks)
      && s[o..o + 4] == Word(0) && s[o + 4..o + 4 + 8 * n] == TableBytes(Table(c, blocks)) && s[|s| - 4..] == Word(n)
  {
    hide Data, Table, TableBytes, Word;
    var n, t := |blocks|, Table(c, blocks);
    assert blocks[..n] == blocks;
    Parts(c.name, Data(c, blocks), Word(0), TableBytes(t), Word(n));
    assert |TableBytes(t)| == 8 * n;
  }

  lemma Parts(a: Bytes, d: Bytes, z: Bytes, t: Bytes, n: Bytes)
    requires |a| == 4 && |z| == 4 && |n| == 4
    ensures var s, o := a + d + (z + t + n), 4 + |d|;
      |s| == o + |t| + 8 && s[..4] == a && s[..o] == a + d
      && s[o..o + 4] == z && s[o + 4..o + 4 + |t|] == t && s[|s| - 4..] == n
  {
    var u := z + t + n;
    var s := a + d + u;
    assert u[0..4] == z && u[4..4 + |t|] == t && u[4 + |t|..] == n;
    Behind(a + d, u, 0, 4);
    Behind(a + d, u, 4, 4 + |t|);
    Behind(a + d, u, 4 + |t|, |u|);
  }

  lemma Behind(h: Bytes, u: Bytes, i: nat, j: nat)
    requires i <= j <= |u|
    ensures (h + u)[|h| + i..|h| + j] == u[i..j]
  {
  }
}
