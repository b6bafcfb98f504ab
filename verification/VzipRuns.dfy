/** Whole uses of a container: writing, appending, reading and seeking. */
module VzipRuns {
  import opened Wrappers
  import opened Seqs
  import opened Stdio
  import opened VzipFormat
  import opened Vzip
  import VzipBytes

  /** Writes the blocks behind those that the stream already has, and closes it. */
  method WriteRest(z: Vzip, more: seq<Bytes>, ghost blocks: seq<Bytes>)
    requires z.Writing(blocks) && Lossless(z.codec) && BlocksOk(more)
    modifies z, z.fin
    ensures z.fin.data == Image(z.codec, blocks + more)
  {
    hide Image, Data, Table, Size, Off, Vzip.Writing;
    var i: nat := 0;
    assert blocks + more[..0] == blocks;
    while i < |more|
      invariant i <= |more| && z.Writing(blocks + more[..i])
    {
      var ok := z.ZipWrite(more[i], blocks + more[..i]);
      assert (blocks + more[..i]) + [more[i]] == blocks + more[..i + 1];
      i := i + 1;
    }
    assert more[..i] == more;
    z.ZipClose(blocks + more);
  }

  /** A new container. */
  method WriteContainer(codec: Codec, blocks: seq<Bytes>) returns (fin: File)
    requires Lossless(codec) && BlocksOk(blocks)
    ensures fresh(fin) && fin.data == Image(codec, blocks)
    ensures |fin.data| < 0x1_0000_0000 ==> VzipBytes.LaidOut(fin.data, codec, blocks)
  {
    hide Image, VzipBytes.LaidOut;
    fin := new File([]);
    var z := new Vzip.Create(codec, fin);
    WriteRest(z, blocks, []);
    assert [] + blocks == blocks;
    if |fin.data| < 0x1_0000_0000 { VzipBytes.ImageIsLaidOut(fin.data, codec, blocks); }
  }

  /** Append mode gives the container of the old blocks and the new ones. */
  method AppendToContainer(codec: Codec, fin: File, more: seq<Bytes>, ghost blocks: seq<Bytes>)
    requires Lossless(codec) && IsContainer(codec, blocks, fin.data) && BlocksOk(more)
    modifies fin
    ensures fin.data == Image(codec, blocks + more)
    ensures |fin.data| < 0x1_0000_0000 ==> VzipBytes.LaidOut(fin.data, codec, blocks + more)
  {
    hide Image, VzipBytes.LaidOut, Lossless, BlocksOk, Fits;
    var z := new Vzip.OpenAppend(codec, fin, blocks);
    WriteRest(z, more, blocks);
    VzipBytes.BothOk(blocks, more);
    if |fin.data| < 0x1_0000_0000 { VzipBytes.ImageIsLaidOut(fin.data, codec, blocks + more); }
  }

  lemma JoinStep(blocks: seq<Bytes>, k: nat)
    requires k < |blocks|
    ensures Join(blocks[k..]) == blocks[k] + Join(blocks[k + 1..])
  {
    assert blocks[k..][1..] == blocks[k + 1..];
  }

  /** Reads until the stream says that it is at the end, which a stale stream says at once. */
  method ReadRest(z: Vzip, ghost blocks: seq<Bytes>, ghost k: nat) returns (data: Bytes)
    requires z.Reading(blocks, k)
    modifies z, z.fin`pos
    ensures data == if old(z.Stale()) then [] else Join(blocks[k..])
    ensures old(z.Stale()) ==> k < |blocks| && z.Reading(blocks, k + 1) && !z.Stale() && z.offset == old(z.offset)
    ensures !old(z.Stale()) ==>
      z.Reading(blocks, |blocks|) && z.offset == old(z.offset) + Size(blocks, |blocks|) - Size(blocks, k)
  {
    hide Off, Image, Table, Lossless, Fits, Size, Join;
    ghost var j := k;
    ghost var stale := z.Stale();
    data := [];
    NothingToJoin(blocks);
    SizeStep(blocks, k);
    var r := z.ZipRead(BLOCKSZ, blocks, j);
    while r.Block?
      invariant !stale ==> k <= j <= |blocks|
      invariant r.Block? ==> !stale && j < |blocks| && r.bytes == blocks[j] && z.Reading(blocks, j + 1) && !z.Stale()
      invariant !r.Block? && !stale ==> j == |blocks| && z.Reading(blocks, |blocks|)
      invariant stale ==>
        data == [] && !r.Block? && k < |blocks| && z.Reading(blocks, k + 1) && !z.Stale() && z.offset == old(z.offset)
      invariant !stale ==> data + Join(blocks[j..]) == Join(blocks[k..])
      invariant !stale ==>
        z.offset == old(z.offset) + (if r.Block? then Size(blocks, j + 1) else Size(blocks, j)) - Size(blocks, k)
      decreases |blocks| - j
    {
      JoinStep(blocks, j);
      Associate(data, blocks[j], Join(blocks[j + 1..]));
      data := data + r.bytes;
      j := j + 1;
      SizeStep(blocks, j);
      r := z.ZipRead(BLOCKSZ, blocks, j);
    }
  }

  lemma NothingToJoin(blocks: seq<Bytes>)
    ensures Join(blocks[|blocks|..]) == []
  {
  }

  lemma SizeStep(blocks: seq<Bytes>, j: nat)
    requires j <= |blocks|
    ensures j < |blocks| ==> Size(blocks, j + 1) == Size(blocks, j) + |blocks[j]|
  {
  }

  /** A freshly opened container gives back everything that was written. */
  method ReadContainer(codec: Codec, fin: File, ghost blocks: seq<Bytes>) returns (data: Bytes)
    requires Lossless(codec) && IsContainer(codec, blocks, fin.data)
    modifies fin`pos
    ensures data == Join(blocks)
  {
    hide Image;
    TailAt(codec, blocks);
    var z := new Vzip.Open(codec, fin);
    OffZero(codec, blocks);
    data := ReadRest(z, blocks, 0);
    assert blocks[0..] == blocks;
  }

  lemma OffZero(c: Codec, blocks: seq<Bytes>)
    ensures Off(c, blocks, 0) == 4
  {
  }

  /**
   A seek to the place where block j begins, from any state of a stream whose next
   block is k, and reading from there.  If the place is the offset the stream says
   it has, nothing moves, and reading goes on with block k; else it starts with
   block j - unless the file was drained while `zoffset` stood at the block that
   comes next: then nothing is read.
   */
  method SeekAndRead(z: Vzip, off: int, whence: Whence, ghost blocks: seq<Bytes>, ghost k: nat, ghost j: nat)
    returns (at: Option<nat>, data: Bytes)
    requires z.Reading(blocks, k)
    requires j <= |blocks| && Size(blocks, j) == z.Goal(off, whence, blocks)
    modifies z, z.fin`pos
    ensures at == Some(Size(blocks, j))
    ensures data == if old(DrainedAt(z, blocks, Resumed(z, off, whence, k, j))) then []
                    else Join(blocks[old(Resumed(z, off, whence, k, j))..])
    ensures data == Join(blocks[j..]) <==> old(FindsBlock(z, off, whence, blocks, k, j))
    ensures old(DrainedAt(z, blocks, Resumed(z, off, whence, k, j))) ==>
      && z.Reading(blocks, old(Resumed(z, off, whence, k, j)) + 1) && !z.Stale()
      && z.offset == Size(blocks, j)
  {
    hide Off, Image, Table, Lossless, Fits, Size, Join, IsContainer;
    ghost var same := whence == SeekSet && off == z.offset;
    ghost var next := if same then k else j;
    StaleMeans(z, blocks, k);
    at := z.ZipSeek(off, whence, blocks, k);
    StaleMeans(z, blocks, next);
    if z.zoffset == 0 && !same { z.NotStaleAtZero(blocks); }
    assert z.Stale() <==> old(DrainedAt(z, blocks, next));
    JoinsDiffer(z.codec, blocks, z.fin.data, next, j);
    JoinsDiffer(z.codec, blocks, z.fin.data, |blocks|, j);
    NothingToJoin(blocks);
    data := ReadRest(z, blocks, next);
  }

  /** The block that a read behind a seek to block j starts with. */
  ghost function Resumed(z: Vzip, off: int, whence: Whence, k: nat, j: nat): nat
    reads z
  {
    if whence == SeekSet && off == z.offset then k else j
  }

  /** Exactly when a seek to block j makes the stream read from block j on. */
  ghost predicate FindsBlock(z: Vzip, off: int, whence: Whence, blocks: seq<Bytes>, k: nat, j: nat)
    requires k <= |blocks| && j <= |blocks|
    reads z, z.fin
  {
    if DrainedAt(z, blocks, Resumed(z, off, whence, k, j)) then j == |blocks| else Resumed(z, off, whence, k, j) == j
  }

  lemma {:induction false} JoinSize(blocks: seq<Bytes>, k: nat)
    requires k <= |blocks|
    ensures |Join(blocks[k..])| == Size(blocks, |blocks|) - Size(blocks, k)
    decreases |blocks| - k
  {
    if k < |blocks| {
      JoinStep(blocks, k);
      SizeStep(blocks, k);
      JoinSize(blocks, k + 1);
    } else {
      NothingToJoin(blocks);
    }
  }

  /** What follows a block is different for any two blocks. */
  lemma JoinsDiffer(c: Codec, blocks: seq<Bytes>, s: Bytes, i: nat, j: nat)
    requires IsContainer(c, blocks, s) && i <= |blocks| && j <= |blocks|
    ensures Join(blocks[i..]) == Join(blocks[j..]) <==> i == j
  {
    hide Join, Size, IsContainer;
    if i != j { SizesDiffer(c, blocks, s, i, j); }
    JoinSize(blocks, i);
    JoinSize(blocks, j);
  }

  /** The file was read to its end while `zoffset` stands at block j. */
  ghost predicate DrainedAt(z: Vzip, blocks: seq<Bytes>, j: nat)
    requires j <= |blocks|
    reads z, z.fin
  {
    z.szarr.Some? && j < |blocks| && z.zoffset == Off(z.codec, blocks, j) && z.fin.pos != z.zoffset
  }

  lemma StaleMeans(z: Vzip, blocks: seq<Bytes>, j: nat)
    requires z.Reading(blocks, j)
    ensures z.Stale() <==> DrainedAt(z, blocks, j)
  {
    hide Off, Image, Lossless, Fits;
  }

  lemma SizesDiffer(c: Codec, blocks: seq<Bytes>, s: Bytes, i: nat, j: nat)
    requires IsContainer(c, blocks, s) && i <= |blocks| && j <= |blocks| && i != j
    ensures Size(blocks, i) != Size(blocks, j)
  {
    if i < j { SizeRises(blocks, i, j); } else { SizeRises(blocks, j, i); }
  }

  /**
   A seek to a negative place, and a read behind it.  The read goes on where the file
   stands, at block m: that is the block behind the last one read, whatever block was
   sought in between.  If loading the table or draining left the file at its end, the
   read fails, or returns nothing if the stream has passed an end or a seek before.
   */
  method SeekBelow(z: Vzip, off: int, whence: Whence, ghost blocks: seq<Bytes>, ghost k: nat)
    returns (at: Option<nat>, r: Got, ghost m: nat)
    requires z.Reading(blocks, k) && z.Goal(off, whence, blocks) < 0
    modifies z, z.fin`pos
    ensures at == None && m <= |blocks|
    ensures var atEnd := old(z.fin.pos) == |z.fin.data| || (whence == SeekEnd && old(z.szarr).None?);
            if atEnd then r == if old(z.nonlinear) then Eof else Error
            else
              && old(z.fin.pos) == Off(z.codec, blocks, m)
              && r == if m == |blocks| then Eof else Block(blocks[m])
    ensures z.offset == old(z.offset) + if r.Block? then |r.bytes| else 0
  {
    hide Off, Image, Lossless, Fits, Table;
    m := if z.stood <= |blocks| then z.stood else 0;
    at := z.ZipSeek(off, whence, blocks, k);
    r := z.ZipRead(BLOCKSZ, blocks, m);
  }

  lemma SomeFacts(c: Codec, blocks: seq<Bytes>, s: Bytes)
    requires IsContainer(c, blocks, s) && |blocks| >= 2
    ensures |c.name| == 4 && c.name <= s && Off(c, blocks, 0) == 4
    ensures 4 < Off(c, blocks, 1) < |s|
    ensures Size(blocks, 0) == 0 && Size(blocks, 1) == |blocks[0]| && 0 < |blocks[0]| <= BLOCKSZ
    ensures Size(blocks, 1) != Size(blocks, |blocks|) && Table(c, blocks)[0].off == 4
  {
    hide Image;
    TailAt(c, blocks);
    FrameAt(c, blocks, 1);
    OffsRise(c, blocks, 0);
    OffsRise(c, blocks, 1);
    SizesDiffer(c, blocks, s, 1, |blocks|);
  }

  /**
   How a block is lost: read the first block, go back to the start and read it
   again, go to the end and read there, and go to the second block.  Nothing is
   read; and going to the second block once more succeeds and leads to the third.
   */
  method LoseBlock(codec: Codec, fin: File, ghost blocks: seq<Bytes>, first: nat)
    returns (at: Option<nat>, data: Bytes, again: Bytes)
    requires Lossless(codec) && IsContainer(codec, blocks, fin.data)
    requires |blocks| >= 2 && first == |blocks[0]|
    modifies fin`pos
    ensures at == Some(Size(blocks, 1))
    ensures data == [] && again == Join(blocks[2..])
    ensures Join(blocks[1..]) != data && Join(blocks[1..]) != again
  {
    hide Image, Table, Lossless, Fits, IsContainer, Off, Size;
    SomeFacts(codec, blocks, fin.data);
    var z := new Vzip.Open(codec, fin);
    var r := z.ZipRead(BLOCKSZ, blocks, 0);
    at := z.ZipSeek(0, SeekSet, blocks, 1);
    r := z.ZipRead(BLOCKSZ, blocks, 0);
    at, data, again := LoseSecond(z, first, blocks);
  }

  method LoseSecond(z: Vzip, first: nat, ghost blocks: seq<Bytes>)
    returns (at: Option<nat>, data: Bytes, again: Bytes)
    requires |blocks| >= 2 && z.Reading(blocks, 1) && z.szarr.Some? && !z.nonlinear
    requires z.zoffset == z.fin.pos == Off(z.codec, blocks, 1) && z.offset == first == |blocks[0]|
    modifies z, z.fin`pos
    ensures at == Some(Size(blocks, 1))
    ensures data == [] && again == Join(blocks[2..])
    ensures Join(blocks[1..]) != data && Join(blocks[1..]) != again
  {
    hide Image, Table, Lossless, Fits, IsContainer, Off, Size, Join;
    SomeFacts(z.codec, blocks, z.fin.data);
    JoinsDiffer(z.codec, blocks, z.fin.data, 1, 2);
    JoinsDiffer(z.codec, blocks, z.fin.data, 1, |blocks|);
    NothingToJoin(blocks);
    at := z.ZipSeek(0, SeekEnd, blocks, 1);
    var r := z.ZipRead(BLOCKSZ, blocks, |blocks|);
    at, data := SeekAndRead(z, first, SeekSet, blocks, |blocks|, 1);
    StaleMeans(z, blocks, 2);
    at, again := SeekAndRead(z, first, SeekSet, blocks, 2, 1);
  }
}
