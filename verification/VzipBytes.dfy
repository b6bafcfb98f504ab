/** A container of utils/fopen_vzip.c byte by byte, in numbers. */
module VzipBytes {
  import opened Bits
  import opened VzipFormat

  /** Four bytes at i, lowest first. */
  predicate NumberAt(s: Bytes, i: int, n: nat)
  {
    0 <= i && i + 4 <= |s| && FourBytes(s[i], s[i + 1], s[i + 2], s[i + 3]) == n
  }

  /** Where block k begins: behind a name of four bytes, every block has its length in four bytes in front of it. */
  function Start(c: Codec, blocks: seq<Bytes>, k: nat): nat
    requires k <= |blocks|
  {
    if k == 0 then 4 else Start(c, blocks, k - 1) + 4 + |c.compress(blocks[k - 1])|
  }

  ghost predicate BlockAt(s: Bytes, c: Codec, blocks: seq<Bytes>, k: nat)
    requires k < |blocks|
  {
    var z, i := c.compress(blocks[k]), Start(c, blocks, k);
    NumberAt(s, i, |z|) && i + 4 + |z| <= |s| && s[i + 4..i + 4 + |z|] == z
  }

  /** A row of the table: the bytes in the block before it was compressed, and where the block begins. */
  ghost predicate RowAt(s: Bytes, c: Codec, blocks: seq<Bytes>, k: nat)
    requires k < |blocks|
  {
    var i := |s| - 4 - 8 * (|blocks| - k);
    NumberAt(s, i, |blocks[k]|) && NumberAt(s, i + 4, Start(c, blocks, k))
  }

  ghost predicate LaidOut(s: Bytes, c: Codec, blocks: seq<Bytes>)
  {
    var n := |blocks|;
    && |s| == Start(c, blocks, n) + 8 * n + 8 && s[..4] == c.name
    && (forall k: nat :: k < n ==> BlockAt(s, c, blocks, k))
    && NumberAt(s, Start(c, blocks, n), 0)
    && (forall k: nat :: k < n ==> RowAt(s, c, blocks, k))
    && NumberAt(s, |s| - 4, n)
  }

  lemma {:induction false} StartIsOff(c: Codec, blocks: seq<Bytes>, k: nat)
    requires k <= |blocks|
    ensures Start(c, blocks, k) == Off(c, blocks, k)
  {
    hide Data, Frame;
    if k > 0 {
      StartIsOff(c, blocks, k - 1);
      DataStep(c, blocks, k - 1);
    } else {
      NoData(c, blocks);
    }
  }

  lemma NoBlocks(c: Codec)
    ensures Data(c, []) == []
  {
  }

  lemma NoData(c: Codec, blocks: seq<Bytes>)
    ensures Off(c, blocks, 0) == 4
  {
    assert blocks[..0] == [];
  }

  lemma WordIs(w: Bytes, n: nat)
    requires |w| == 4 && n < 0x1_0000_0000
    ensures w == Word(n) <==> FromLe32(w) == n
  {
    hide Le32, FromLe32;
    WordIsRead(n);
    Le32OfFrom(w);
    assert n % 0x1_0000_0000 == n;
  }

  lemma WordIsNumber(s: Bytes, i: nat, n: nat)
    requires i + 4 <= |s| && n < 0x1_0000_0000
    ensures s[i..i + 4] == Word(n) <==> NumberAt(s, i, n)
  {
    hide Word;
    WordIs(s[i..i + 4], n);
    assert FromLe32(s[i..i + 4]) == FourBytes(s[i], s[i + 1], s[i + 2], s[i + 3]);
  }

  /** Where the rows are in the bytes of the table. */
  lemma {:induction false} RowBytes(t: seq<SzBlock>, k: nat)
    requires k < |t|
    ensures TableBytes(t)[8 * k..8 * k + 4] == Word(t[k].usz)
    ensures TableBytes(t)[8 * k + 4..8 * k + 8] == Word(t[k].off)
    decreases |t|
  {
    hide Word;
    var m := |t| - 1;
    var front, a, b := TableBytes(t[..m]), Word(t[m].usz), Word(t[m].off);
    assert TableBytes(t) == front + a + b;
    if k < m {
      RowBytes(t[..m], k);
      assert TableBytes(t)[8 * k..8 * k + 4] == front[8 * k..8 * k + 4];
      assert TableBytes(t)[8 * k + 4..8 * k + 8] == front[8 * k + 4..8 * k + 8];
    }
  }

  /** Numbers that fit into four bytes. */
  lemma SmallEnough(c: Codec, blocks: seq<Bytes>, s: Bytes, k: nat)
    requires IsContainer(c, blocks, s) && k < |blocks|
    ensures |blocks| < 0x1_0000_0000 && |blocks[k]| < 0x1_0000_0000
    ensures |c.compress(blocks[k])| < 0x1_0000_0000 && Off(c, blocks, k) < 0x1_0000_0000
  {
    hide Data, TableBytes, Word, Image;
    TailAt(c, blocks);
    FrameAt(c, blocks, k);
  }

  lemma FrameIsBlock(s: Bytes, c: Codec, blocks: seq<Bytes>, k: nat)
    requires IsContainer(c, blocks, s) && k < |blocks|
    ensures BlockAt(s, c, blocks, k)
  {
    hide Data, TableBytes, Word, Image, NumberAt;
    SmallEnough(c, blocks, s, k);
    FrameAt(c, blocks, k);
    StartIsOff(c, blocks, k);
    var z, o, o' := c.compress(blocks[k]), Off(c, blocks, k), Off(c, blocks, k + 1);
    var f := s[o..o'];
    assert f[..4] == Word(|z|) && f[4..] == z;
    assert s[o..o + 4] == f[..4] && s[o + 4..o + 4 + |z|] == f[4..];
    WordIsNumber(s, o, |z|);
  }

  lemma TableIsRow(s: Bytes, c: Codec, blocks: seq<Bytes>, k: nat)
    requires IsContainer(c, blocks, s) && k < |blocks|
    ensures RowAt(s, c, blocks, k)
  {
    hide Data, TableBytes, Word, Image, NumberAt;
    SmallEnough(c, blocks, s, k);
    TailAt(c, blocks);
    StartIsOff(c, blocks, k);
    var t, n, o := Table(c, blocks), |blocks|, Off(c, blocks, |blocks|);
    RowBytes(t, k);
    var b, i := s[o + 4..o + 4 + 8 * n], o + 4 + 8 * k;
    assert b == TableBytes(t);
    Part(s, o + 4, o + 4 + 8 * n, 8 * k, 8 * k + 4);
    Part(s, o + 4, o + 4 + 8 * n, 8 * k + 4, 8 * k + 8);
    WordIsNumber(s, i, |blocks[k]|);
    WordIsNumber(s, i + 4, Off(c, blocks, k));
  }

  lemma Part(s: Bytes, a: nat, b: nat, i: nat, j: nat)
    requires a <= b <= |s| && i <= j <= b - a
    ensures s[a..b][i..j] == s[a + i..a + j]
  {
    forall m | 0 <= m < j - i
      ensures s[a..b][i..j][m] == s[a + i..a + j][m]
    {
      assert s[a..b][i + m] == s[a + i + m];
    }
  }

  lemma ContainerIsLaidOut(s: Bytes, c: Codec, blocks: seq<Bytes>)
    requires IsContainer(c, blocks, s)
    ensures LaidOut(s, c, blocks)
  {
    hide Data, TableBytes, Word, Image, NumberAt, BlockAt, RowAt;
    var n := |blocks|;
    TailAt(c, blocks);
    StartIsOff(c, blocks, n);
    WordIsNumber(s, Off(c, blocks, n), 0);
    WordIsNumber(s, |s| - 4, n);
    forall k: nat | k < n
      ensures BlockAt(s, c, blocks, k) && RowAt(s, c, blocks, k)
    {
      FrameIsBlock(s, c, blocks, k);
      TableIsRow(s, c, blocks, k);
    }
  }

  lemma ImageIsLaidOut(s: Bytes, c: Codec, blocks: seq<Bytes>)
    requires |c.name| == 4 && BlocksOk(blocks) && s == Image(c, blocks) && |s| < 0x1_0000_0000
    ensures LaidOut(s, c, blocks)
  {
    hide LaidOut, Image, BlocksOk;
    ContainerIsLaidOut(s, c, blocks);
  }

  lemma BothOk(a: seq<Bytes>, b: seq<Bytes>)
    requires BlocksOk(a) && BlocksOk(b)
    ensures BlocksOk(a + b)
  {
  }

  // ----------------------------------------------- and the only file that is

  lemma InARow(s: Bytes, h: nat, i: nat, j: nat, k: nat)
    requires h <= i <= j <= k <= |s|
    ensures s[h..k] == s[h..i] + s[i..j] + s[j..k]
  {
  }

  lemma Together(a: Bytes, b: Bytes, c: Bytes, d: Bytes)
    ensures a + (b + (c + d)) == a + b + c + d
  {
  }

  lemma {:induction false} FrontIs(s: Bytes, c: Codec, blocks: seq<Bytes>, k: nat)
    requires LaidOut(s, c, blocks) && |s| < 0x1_0000_0000 && k <= |blocks|
    ensures Start(c, blocks, k) <= |s| && s[..Start(c, blocks, k)] == c.name + Data(c, blocks[..k])
  {
    hide NumberAt, Word, RowAt, Data, Off;
    if k == 0 {
      assert blocks[..0] == [] && c.name + [] == c.name && Data(c, []) == [] by { NoBlocks(c); }
    } else {
      FrontIs(s, c, blocks, k - 1);
      assert BlockAt(s, c, blocks, k - 1);
      var i, z := Start(c, blocks, k - 1), c.compress(blocks[k - 1]);
      WordIsNumber(s, i, |z|);
      DataStep(c, blocks, k - 1);
      InARow(s, 0, i, i + 4, i + 4 + |z|);
      assert s[0..i] == s[..i] && s[0..i + 4 + |z|] == s[..i + 4 + |z|];
      Together(c.name, Data(c, blocks[..k - 1]), Word(|z|), z);
    }
  }

  lemma NoRows(t: seq<SzBlock>)
    ensures TableBytes(t[..0]) == []
  {
  }

  lemma RowStep(t: seq<SzBlock>, k: nat)
    requires 0 < k <= |t|
    ensures TableBytes(t[..k]) == TableBytes(t[..k - 1]) + Word(t[k - 1].usz) + Word(t[k - 1].off)
  {
    assert t[..k][..k - 1] == t[..k - 1];
  }

  lemma {:induction false} RowsAre(s: Bytes, c: Codec, blocks: seq<Bytes>, k: nat)
    requires LaidOut(s, c, blocks) && |s| < 0x1_0000_0000 && k <= |blocks|
    requires forall i :: 0 <= i < |blocks| ==> |blocks[i]| < 0x1_0000_0000
    ensures var o := Start(c, blocks, |blocks|) + 4;
            o + 8 * k <= |s| && s[o..o + 8 * k] == TableBytes(Table(c, blocks)[..k])
  {
    hide NumberAt, Word, BlockAt, Data, Off, Start, Table, TableBytes;
    if k == 0 {
      NoRows(Table(c, blocks));
    } else {
      RowsAre(s, c, blocks, k - 1);
      assert RowAt(s, c, blocks, k - 1);
      var o, t := Start(c, blocks, |blocks|) + 4, Table(c, blocks);
      var i := o + 8 * (k - 1);
      StartIsOff(c, blocks, k - 1);
      StartFits(s, c, blocks, k - 1);
      WordIsNumber(s, i, |blocks[k - 1]|);
      WordIsNumber(s, i + 4, Start(c, blocks, k - 1));
      RowStep(t, k);
      InARow(s, o, i, i + 4, i + 8);
    }
  }

  lemma StartFits(s: Bytes, c: Codec, blocks: seq<Bytes>, k: nat)
    requires LaidOut(s, c, blocks) && |s| < 0x1_0000_0000 && k <= |blocks|
    ensures Start(c, blocks, k) < 0x1_0000_0000
  {
    FrontIs(s, c, blocks, k);
  }

  /** These bytes make up the container and no other file. */
  lemma LaidOutExactly(s: Bytes, c: Codec, blocks: seq<Bytes>)
    requires |c.name| == 4 && BlocksOk(blocks)
    ensures LaidOut(s, c, blocks) && |s| < 0x1_0000_0000 <==> IsContainer(c, blocks, s)
  {
    hide Data, TableBytes, Word, NumberAt, BlockAt, RowAt, Table, Start, Off;
    if IsContainer(c, blocks, s) { ContainerIsLaidOut(s, c, blocks); }
    if LaidOut(s, c, blocks) && |s| < 0x1_0000_0000 {
      var n := |blocks|;
      var o := Start(c, blocks, n);
      assert blocks[..n] == blocks && Table(c, blocks)[..n] == Table(c, blocks);
      FrontIs(s, c, blocks, n);
      RowsAre(s, c, blocks, n);
      WordIsNumber(s, o, 0);
      WordIsNumber(s, |s| - 4, n);
      assert s == s[..o] + (s[o..o + 4] + s[o + 4..o + 4 + 8 * n] + s[|s| - 4..]);
    }
  }
}
