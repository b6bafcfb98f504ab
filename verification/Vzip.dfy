/** The stream over a container: fopen_vzip(), zipRead(), zipWrite(), zipSeek() and zipClose() of utils/fopen_vzip.c. */
module Vzip {
  import opened Wrappers
  import opened Bits
  import opened Seqs
  import opened Stdio
  import opened VzipFormat

  datatype Whence = SeekSet | SeekEnd

  /** What zipRead() returns: a block (`len` > 0), the end (0) or -1. */
  datatype Got = Block(bytes: Bytes) | Eof | Error

  class Vzip {
    const codec: Codec
    const fin: File
    var nonlinear: bool
    var offset: nat
    var zoffset: nat
    /** Null until the table is loaded or a block is written. */
    var szarr: Option<seq<SzBlock>>
    /** The next block when reading; null, or an index that may be one past the end. */
    var szp: Option<nat>

    ghost var stood: nat  // reading: the block that begins at zoffset

    // ---------------------------------------------------------------- writing

    function Rows(): seq<SzBlock>
      reads `szarr
    {
      if szarr.Some? then szarr.value else []
    }

    /** After the given blocks: the file holds them, and no more than the old tail follows. */
    ghost predicate Writing(blocks: seq<Bytes>)
      reads this, fin
    {
      && |codec.name| == 4
      && Rows() == Table(codec, blocks)
      && offset == Size(blocks, |blocks|)
      && zoffset == fin.pos == Off(codec, blocks, |blocks|) <= |fin.data| <= fin.pos + 8 * |blocks| + 8
      && fin.data[..fin.pos] == codec.name + Data(codec, blocks)
    }

    /** fopen_vzip() with mode "w" on an empty file. */
    constructor Create(codec: Codec, fin: File)
      requires |codec.name| == 4 && fin.data == [] && fin.pos == 0
      modifies fin
      ensures this.codec == codec && this.fin == fin && Writing([])
    {
      this.codec := codec;
      this.fin := fin;
      nonlinear, offset, zoffset, szarr, szp, stood := false, 0, 4, None, None, 0;
      new;
      fin.Write(codec.name);
      assert Table(codec, []) == [];
    }

    /** Two writes in a row at the file's position. */
    method Append(a: Bytes, b: Bytes)
      requires fin.pos <= |fin.data|
      modifies fin
      ensures fin.pos == old(fin.pos) + |a + b| <= |fin.data|
      ensures fin.data[..fin.pos] == old(fin.data[..fin.pos]) + (a + b)
      ensures |fin.data| == if fin.pos < old(|fin.data|) then old(|fin.data|) else fin.pos
    {
      OverwriteTwice(fin.data, fin.pos, a, b);
      OverwritePrefix(fin.data, fin.pos, a + b);
      fin.Write(a);
      fin.Write(b);
    }

    /** One block; false if the codec's output does not fit. */
    method ZipWrite(buf: Bytes, ghost blocks: seq<Bytes>) returns (ok: bool)
      requires Writing(blocks)
      modifies this, fin
      ensures ok <==> |codec.compress(buf)| <= 80 * 1024
      ensures ok ==> Writing(blocks + [buf])
    {
      hide Data, Table, Word, Size, Off, Overwrite;
      szarr := Some(Rows() + [SzBlock(|buf|, zoffset)]);
      var data := codec.compress(buf);
      if |data| > MAXZIPBLOCK { return false; }
      Append(Word(|data|), data);
      offset := offset + |buf|;
      zoffset := zoffset + 4 + |data|;
      ok := true;
      BlockAdded(codec, blocks, buf);
      Associate(codec.name, Data(codec, blocks), Frame(codec, buf));
    }

    /** zipClose() of a stream that was written. */
    method ZipClose(ghost blocks: seq<Bytes>)
      requires Writing(blocks)
      modifies fin
      ensures fin.data == Image(codec, blocks)
    {
      hide Data, Table, Word, Size, Off, Overwrite, TableBytes;
      var t := Rows();
      Append(Word(0), TableBytes(t));
      ghost var mid := fin.data[..fin.pos];
      OverwritePrefix(fin.data, fin.pos, Word(|t|));
      fin.Write(Word(|t|));
      assert fin.data[..fin.pos] == fin.data;
      Associate(codec.name + Data(codec, blocks), Word(0) + TableBytes(t), Word(|t|));
    }

    // ---------------------------------------------------------------- reading

    /** fopen_vzip() with mode "r": behind the name, the table not loaded. */
    constructor Open(codec: Codec, fin: File)
      requires |codec.name| == 4 && codec.name <= fin.data
      modifies fin`pos
      ensures this.codec == codec && this.fin == fin
      ensures szarr == None && szp == None && !nonlinear && offset == stood == 0 && zoffset == fin.pos == 4
    {
      this.codec := codec;
      this.fin := fin;
      nonlinear, offset, zoffset, szarr, szp, stood := false, 0, 4, None, None, 0;
      new;
      fin.Seek(0);
      var fmt := fin.Read(4);
    }

    /** load_szArray(): false for a file without a table at its end. */
    method LoadSzArray(ghost blocks: seq<Bytes>) returns (ok: bool)
      modifies `szarr, `zoffset, fin`pos
      ensures IsContainer(codec, blocks, fin.data) ==>
        ok && szarr == Some(Table(codec, blocks)) && zoffset == 0 && fin.pos == |fin.data|
    {
      hide Data, TableBytes, Word, FromLe32, Image, ReadTable, IsContainer, Slice;
      var size := |fin.data|;
      if IsContainer(codec, blocks, fin.data) { TableFound(codec, blocks, fin.data); }
      if size < 4 { return false; }
      fin.Seek(size - 4);
      var w := fin.Read(4);
      if |w| != 4 { return false; }
      var n := FromLe32(w);
      if 8 * n + 8 > size { return false; }
      fin.Seek(size - (8 * n + 8));
      w := fin.Read(4);
      if |w| != 4 || FromLe32(w) != 0 { return false; }
      var t := fin.Read(8 * n);
      if |t| != 8 * n { return false; }
      szarr := Some(ReadTable(t));
      w := fin.Read(4);
      if |w| != 4 { return false; }
      w := fin.Read(1);
      if w != [] { return false; }
      zoffset := 0;
      ok := true;
    }

    /** fopen_vzip() with mode "a": what is written next goes over the table. */
    constructor OpenAppend(codec: Codec, fin: File, ghost blocks: seq<Bytes>)
      requires IsContainer(codec, blocks, fin.data)
      modifies fin`pos
      ensures this.codec == codec && this.fin == fin && Writing(blocks)
    {
      this.codec := codec;
      this.fin := fin;
      nonlinear, offset, zoffset, szarr, szp, stood := false, 0, 4, None, None, 0;
      new;
      hide Data, TableBytes, Word, Image, Fits, Size;
      TailAt(codec, blocks);
      fin.Seek(0);
      var fmt := fin.Read(4);
      var ok := LoadSzArray(blocks);
      SizeIsSum(codec, blocks);
      offset := SumSizes(Rows());
      fin.Seek(|fin.data| - (8 * |Rows()| + 8));
      zoffset := fin.pos;
    }

    // ------------------------------------------------------------------ state

    /** A container whose next block is k; k is the number of blocks at the end, and after a refused first seek. */
    ghost predicate Reading(blocks: seq<Bytes>, k: nat)
      reads this, fin
    {
      && IsContainer(codec, blocks, fin.data) && Lossless(codec) && k <= |blocks|
      && match szarr
         case None =>
           && szp == None
           && if nonlinear then k == |blocks| && fin.pos == |fin.data|
              else stood == k && fin.pos == zoffset == Off(codec, blocks, k)
         case Some(t) =>
           && t == Table(codec, blocks) && (szp == Some(k) || (szp == None && k == |blocks|))
           && Placed(blocks)
    }

    /** The file stands where block `stood` begins, or at its end, where loading the table or draining left it. */
    ghost predicate Placed(blocks: seq<Bytes>)
      reads `zoffset, `stood, `nonlinear, fin
    {
      if zoffset == 0 then fin.pos == |fin.data|
      else
        && stood <= |blocks| && zoffset == Off(codec, blocks, stood)
        && (fin.pos == zoffset || (nonlinear && fin.pos == |fin.data|))
    }

    /**
     The next block is where `zoffset` says the file is, but the file is at its
     end: zipRead() drained it when it was asked to read behind the last block.
     */
    predicate Stale()
      reads this, fin
    {
      match (szarr, szp)
      case (Some(t), Some(k)) => k < |t| && zoffset == t[k].off && fin.pos != zoffset
      case _ => false
    }

    /** Reads the rest of the file to its end. */
    method Drain()
      modifies fin`pos
      ensures fin.pos == if old(fin.pos) < |fin.data| then |fin.data| else old(fin.pos)
    {
      var data := fin.Read(MAXZIPBLOCK);
      while |data| == MAXZIPBLOCK
        invariant old(fin.pos) <= fin.pos && (fin.pos <= |fin.data| || fin.pos == old(fin.pos))
        invariant |data| <= MAXZIPBLOCK && (|data| < MAXZIPBLOCK ==> fin.pos >= |fin.data|)
        decreases |fin.data| - fin.pos, |data|
      {
        data := fin.Read(MAXZIPBLOCK);
      }
    }

    /** The place where the next block begins, if the table is loaded; false behind the last block. */
    method Position() returns (more: bool)
      modifies `zoffset, `nonlinear, `szp, `stood, fin`pos
      ensures szarr.None? ==>
        && more && zoffset == old(zoffset) && nonlinear == old(nonlinear) && szp == old(szp) && fin.pos == old(fin.pos)
        && stood == old(stood)
      ensures szarr.Some? ==> (more <==> old(szp).Some? && old(szp).value < |szarr.value|)
      ensures szarr.Some? && !more ==>
        && zoffset == old(zoffset) && nonlinear == old(nonlinear) && szp == old(szp) && fin.pos == old(fin.pos)
        && stood == old(stood)
      ensures szarr.Some? && more ==>
        && szp == Some(old(szp).value + 1) && zoffset == szarr.value[old(szp).value].off
        && if old(zoffset) == zoffset then fin.pos == old(fin.pos) && nonlinear == old(nonlinear) && stood == old(stood)
           else fin.pos == zoffset && nonlinear == (offset != 0) && stood == old(szp).value
    {
      more := true;
      if szarr.Some? {
        if szp.None? || szp.value >= |szarr.value| { return false; }
        var off := szarr.value[szp.value].off;
        if zoffset != off {
          fin.Seek(off);
          zoffset := off;
          stood := szp.value;
          nonlinear := offset != 0;
        }
        szp := Some(szp.value + 1);
      }
    }

    /** The end of the data: the file is read to its end, once. */
    method AtEof()
      modifies `nonlinear, fin`pos
      ensures nonlinear
      ensures fin.pos == if !old(nonlinear) && old(fin.pos) < |fin.data| then |fin.data| else old(fin.pos)
    {
      if !nonlinear {
        nonlinear := true;
        Drain();
      }
    }

    /** The length and the data of the block at the file's position, uncompressed into `len` bytes. */
    method ReadFrame(len: nat, ghost blocks: seq<Bytes>, ghost k: nat) returns (r: Got)
      modifies `offset, `zoffset, `nonlinear, `stood, fin`pos
      ensures offset == old(offset) + if r.Block? then |r.bytes| else 0
      ensures old(fin.pos) >= |fin.data| ==>
        r == (if nonlinear then Eof else Error) && offset == old(offset) && zoffset == old(zoffset)
        && fin.pos == old(fin.pos) && nonlinear == old(nonlinear) && stood == old(stood)
      ensures AtFrame(blocks, k) && old(fin.pos) == Off(codec, blocks, k) && |blocks[k]| <= len ==>
        r == Block(blocks[k]) && offset == old(offset) + |blocks[k]| && nonlinear == old(nonlinear)
        && fin.pos == Off(codec, blocks, k + 1) == old(fin.pos) + zoffset - old(zoffset) && stood == k + 1
      ensures IsContainer(codec, blocks, fin.data) && old(fin.pos) == Off(codec, blocks, |blocks|) ==>
        && r == Eof && offset == old(offset) && zoffset == old(zoffset) && nonlinear && stood == old(stood)
        && (!old(nonlinear) ==> fin.pos == |fin.data|)
    {
      hide FromLe32, Slice, Off, IsContainer, Lossless;
      if AtFrame(blocks, k) { FrameParsed(codec, blocks, k, fin.data); }
      if IsContainer(codec, blocks, fin.data) { EndParsed(codec, blocks, fin.data); }
      NothingThere(fin.data, fin.pos, 4);
      var w := fin.Read(4);
      if |w| != 4 { return if nonlinear then Eof else Error; }
      var cnt := FromLe32(w);
      if cnt == 0 {
        AtEof();
        return Eof;
      }
      if cnt >= MAXZIPBLOCK - 1 { return Error; }
      var data := fin.Read(cnt);
      if |data| != cnt { return Error; }
      var x := codec.uncompress(data);
      if x.None? || |x.value| > len { return Error; }
      offset := offset + |x.value|;
      zoffset := zoffset + 4 + cnt;
      stood := k + 1;
      r := Block(x.value);
    }

    ghost predicate AtFrame(blocks: seq<Bytes>, k: nat)
      reads fin`data
    {
      IsContainer(codec, blocks, fin.data) && Lossless(codec) && k < |blocks|
    }

    /**
     zipRead(): the next block, or the end.  A stale stream says it is at the
     end although it is not, and skips the block.  Without a table it reads
     whatever stands where the file is.
     */
    method ZipRead(len: nat, ghost blocks: seq<Bytes>, ghost k: nat) returns (r: Got)
      modifies `offset, `zoffset, `nonlinear, `szp, `stood, fin`pos
      ensures old(Reading(blocks, k)) && (k < |blocks| ==> |blocks[k]| <= len) ==>
        if k < |blocks| && !old(Stale()) then
          r == Block(blocks[k]) && Reading(blocks, k + 1) && !Stale() && offset == old(offset) + |blocks[k]|
        else
          r == Eof && Reading(blocks, if k < |blocks| then k + 1 else k) && offset == old(offset)
      ensures old(Reading(blocks, k)) && old(Stale()) && (k < |blocks| ==> |blocks[k]| <= len) ==>
        k < |blocks| && !Stale()
      ensures old(Reading(blocks, k)) && r.Block? && (k < |blocks| ==> |blocks[k]| <= len) ==>
        && k < |blocks| && zoffset == fin.pos == Off(codec, blocks, k + 1)
        && nonlinear == if old(szarr).Some? && old(zoffset) != old(szarr).value[k].off then old(offset) != 0
                        else old(nonlinear)
      ensures old(Reading(blocks, k)) && k == |blocks| && old(szarr).Some? ==>
        zoffset == old(zoffset) && (!old(nonlinear) && old(fin.pos) < |fin.data| ==> fin.pos == |fin.data|)
      ensures offset == old(offset) + if r.Block? then |r.bytes| else 0
      ensures old(szarr).None? && IsContainer(codec, blocks, fin.data) && Lossless(codec) && k <= |blocks| ==>
        && (old(fin.pos) == Off(codec, blocks, k) ==>
              if k == |blocks| then r == Eof else |blocks[k]| <= len ==> r == Block(blocks[k]))
        && (old(fin.pos) == |fin.data| ==> r == if old(nonlinear) then Eof else Error)
    {
      hide Off, Image, Lossless;
      if Reading(blocks, k) { EndParsed(codec, blocks, fin.data); OffsRise(codec, blocks, k); }
      var more := Position();
      if !more {
        AtEof();
        return Eof;
      }
      r := ReadFrame(len, blocks, k);
    }

    /** The row whose block begins at o: false if o is inside a block that is not the last. */
    method Search(t: seq<SzBlock>, o: nat) returns (found: bool, i: nat)
      ensures i <= |t|
      ensures found && i < |t| ==> SumSizes(t[..i]) == o
      ensures found && i == |t| ==> forall j: nat :: j < |t| ==> SumSizes(t[..j]) < o
      ensures !found ==> i < |t| && o < SumSizes(t[..i]) && forall j: nat :: j < i ==> SumSizes(t[..j]) < o
    {
      var rem: int := o;
      i := 0;
      while i < |t|
        invariant i <= |t| && rem == o - SumSizes(t[..i])
        invariant forall j: nat :: j < i ==> SumSizes(t[..j]) < o
      {
        assert t[..i + 1][..i] == t[..i];
        if rem == 0 { return true, i; }
        if rem < 0 { return false, i; }
        rem := rem - t[i].usz;
        i := i + 1;
      }
      found := true;
    }

    /** The table, loaded if need be. */
    method NeedTable(ghost blocks: seq<Bytes>) returns (ok: bool)
      modifies `szarr, `zoffset, fin`pos
      ensures ok ==> szarr.Some?
      ensures old(szarr).Some? ==> ok && szarr == old(szarr) && zoffset == old(zoffset) && fin.pos == old(fin.pos)
      ensures old(szarr).None? && IsContainer(codec, blocks, fin.data) ==>
        ok && szarr == Some(Table(codec, blocks)) && zoffset == 0 && fin.pos == |fin.data|
      ensures old(Ready(blocks)) ==> ok && Ready(blocks)
    {
      ok := true;
      if szarr.None? {
        ok := LoadSzArray(blocks);
        ok := ok && szarr.Some?;
      }
    }

    /** A stream over a container, wherever it stands. */
    ghost predicate Ready(blocks: seq<Bytes>)
      reads this, fin
    {
      && IsContainer(codec, blocks, fin.data) && Lossless(codec)
      && (szarr.Some? ==>
            szarr.value == Table(codec, blocks) && Placed(blocks))
    }

    /** A stream that has just loaded its table is never stale. */
    lemma NotStaleAtZero(blocks: seq<Bytes>)
      requires Ready(blocks) && zoffset == 0
      ensures !Stale()
    {
      if szarr.Some? && szp.Some? && szp.value < |blocks| { OffsRise(codec, blocks, szp.value); }
    }

    /** The second half of zipSeek(): finds the block that begins at o. */
    method MoveTo(o: nat, ghost blocks: seq<Bytes>, ghost k: nat) returns (r: Option<nat>)
      modifies `offset, `zoffset, `szarr, `szp, fin`pos
      ensures old(Ready(blocks)) ==> Sought(o, r, blocks)
      ensures r.None? ==> szp == old(szp) && offset == o
      ensures old(Ready(blocks)) && r.None? ==> szarr == Some(Table(codec, blocks)) && Ready(blocks)
      ensures r.Some? ==> szarr.Some?
      ensures old(szarr).Some? ==> zoffset == old(zoffset) && fin.pos == old(fin.pos)
      ensures old(Ready(blocks)) && old(szarr).None? ==> zoffset == 0
    {
      hide Off, Image, Lossless, Table, IsContainer, Placed;
      offset := o;
      var ok := NeedTable(blocks);
      if !ok { return None; }
      var i;
      ok, i := Search(szarr.value, o);
      if IsContainer(codec, blocks, fin.data) && szarr.value == Table(codec, blocks) {
        SearchLands(codec, blocks, o, fin.data, ok, i);
      }
      hide Size, SumSizes;
      if !ok { return None; }
      szp := Some(i);
      r := Some(offset);
    }

    /**
     zipSeek().  From a stream that reads a container, a place where a block
     begins or the end is found; so is, as the end, any place inside the last
     block or behind it; any other place is refused, but becomes the stream's
     offset.  Asking for the offset the stream already has moves nothing.  A
     negative place is refused, and the table is dropped; the file stays where
     it is, unless the table had to be loaded first.
     */
    method ZipSeek(off: int, whence: Whence, ghost blocks: seq<Bytes>, ghost k: nat) returns (r: Option<nat>)
      modifies `offset, `zoffset, `szarr, `szp, fin`pos
      ensures whence == SeekSet && off == old(offset) ==>
        && r == Some(old(offset)) && offset == old(offset) && zoffset == old(zoffset)
        && szarr == old(szarr) && szp == old(szp) && fin.pos == old(fin.pos)
      ensures old(Ready(blocks)) && !(whence == SeekSet && off == old(offset)) ==>
        Sought(Goal(off, whence, blocks), r, blocks)
      ensures old(Ready(blocks)) && r.Some? && !(whence == SeekSet && off == old(offset)) ==>
        szarr.Some? && if old(szarr).Some? then zoffset == old(zoffset) && fin.pos == old(fin.pos) else zoffset == 0
      ensures old(Reading(blocks, k)) && r.None? && Goal(off, whence, blocks) >= 0 ==>
        offset == Goal(off, whence, blocks) && Reading(blocks, if old(szarr).Some? then k else |blocks|)
      ensures old(Ready(blocks)) && Goal(off, whence, blocks) < 0 ==>
        && r.None? && szarr.None? && szp.None? && offset == old(offset)
        && if whence == SeekEnd && old(szarr).None? then fin.pos == |fin.data| else fin.pos == old(fin.pos)
    {
      hide Off, Image, Lossless, Table, IsContainer, SumSizes;
      if whence == SeekSet && off == offset { return Some(offset); }
      var o := off;
      if whence == SeekEnd {
        var ok := NeedTable(blocks);
        if !ok { return None; }
        SizeIsSum(codec, blocks);
        o := o + SumSizes(szarr.value);
      }
      if o < 0 {
        szp := None;
        szarr := None;
        return None;
      }
      hide Sought;
      r := MoveTo(o, blocks, k);
    }

    ghost function Goal(off: int, whence: Whence, blocks: seq<Bytes>): int
    {
      if whence == SeekEnd then off + Size(blocks, |blocks|) else off
    }

    /** What a seek to place x leads to. */
    ghost predicate Sought(x: int, r: Option<nat>, blocks: seq<Bytes>)
      reads this, fin
    {
      && (forall j: nat :: j <= |blocks| && Size(blocks, j) == x ==> r == Some(x) && offset == x && Reading(blocks, j))
      && ((forall j: nat :: j <= |blocks| ==> Size(blocks, j) != x) ==>
            if x >= 0 && forall j: nat :: j < |blocks| ==> Size(blocks, j) < x
            then r == Some(x) && offset == x && Reading(blocks, |blocks|)
            else r == None)
    }
  }

  /** Which row Search() has to find for a place o. */
  ghost predicate Landed(blocks: seq<Bytes>, o: nat, found: bool, i: nat)
  {
    && i <= |blocks|
    && (forall j: nat :: j <= |blocks| && Size(blocks, j) == o ==> found && i == j)
    && ((forall j: nat :: j <= |blocks| ==> Size(blocks, j) != o) ==>
          if forall j: nat :: j < |blocks| ==> Size(blocks, j) < o then found && i == |blocks| else !found)
  }

  lemma SearchLands(c: Codec, blocks: seq<Bytes>, o: nat, s: Bytes, found: bool, i: nat)
    requires IsContainer(c, blocks, s) && i <= |blocks|
    requires found && i < |blocks| ==> SumSizes(Table(c, blocks)[..i]) == o
    requires found && i == |blocks| ==> forall j: nat :: j < |blocks| ==> SumSizes(Table(c, blocks)[..j]) < o
    requires !found ==>
      && i < |blocks| && o < SumSizes(Table(c, blocks)[..i])
      && forall j: nat :: j < i ==> SumSizes(Table(c, blocks)[..j]) < o
    ensures Landed(blocks, o, found, i)
  {
    hide Table, Size, SumSizes, IsContainer;
    SearchMeans(c, blocks, o, s);
  }

  lemma SearchMeans(c: Codec, blocks: seq<Bytes>, o: nat, s: Bytes)
    requires IsContainer(c, blocks, s)
    ensures forall j: nat :: j <= |blocks| ==> SumSizes(Table(c, blocks)[..j]) == Size(blocks, j)
    ensures forall i: nat, j: nat :: i < j <= |blocks| ==> Size(blocks, i) < Size(blocks, j)
  {
    forall j: nat | j <= |blocks|
      ensures SumSizes(Table(c, blocks)[..j]) == Size(blocks, j)
    {
      TablePrefix(c, blocks, j);
      SizeIsSum(c, blocks[..j]);
      SizeSame(blocks[..j], blocks, j);
    }
    forall i: nat, j: nat | i < j <= |blocks|
      ensures Size(blocks, i) < Size(blocks, j)
    {
      SizeRises(blocks, i, j);
    }
  }

  lemma {:induction false} SizeRises(blocks: seq<Bytes>, i: nat, j: nat)
    requires BlocksOk(blocks) && i < j <= |blocks|
    ensures Size(blocks, i) < Size(blocks, j)
  {
    if i < j - 1 { SizeRises(blocks, i, j - 1); }
  }

  lemma TablePrefix(c: Codec, blocks: seq<Bytes>, j: nat)
    requires j <= |blocks|
    ensures Table(c, blocks)[..j] == Table(c, blocks[..j])
  {
    hide Data;
    forall i | 0 <= i < j
      ensures Off(c, blocks, i) == Off(c, blocks[..j], i)
    {
      assert blocks[..j][..i] == blocks[..i];
    }
  }

  /** Blocks begin behind the name, one behind the other. */
  lemma OffsRise(c: Codec, blocks: seq<Bytes>, k: nat)
    requires k <= |blocks|
    ensures Off(c, blocks, k) >= 4
    ensures k < |blocks| ==> Off(c, blocks, k) < Off(c, blocks, k + 1)
  {
    if k < |blocks| { OffIncreases(c, blocks, k, k + 1); }
  }

  lemma NothingThere(s: Bytes, pos: nat, n: nat)
    ensures pos >= |s| ==> Slice(s, pos, n) == []
  {
  }

  /** What zipRead() finds at the beginning of block k. */
  lemma FrameParsed(c: Codec, blocks: seq<Bytes>, k: nat, s: Bytes)
    requires IsContainer(c, blocks, s) && Lossless(c) && k < |blocks|
    ensures var z := c.compress(blocks[k]);
      && 0 < |z| < MAXZIPBLOCK - 1 && c.uncompress(z) == Some(blocks[k])
      && IsWord(Slice(s, Off(c, blocks, k), 4), |z|)
      && Slice(s, Off(c, blocks, k) + 4, |z|) == z
      && Off(c, blocks, k + 1) == Off(c, blocks, k) + 4 + |z|
  {
    hide Data, Table, Word, FromLe32, Image;
    FrameAt(c, blocks, k);
    var z := c.compress(blocks[k]);
    WordIsRead(|z|);
    var o, o' := Off(c, blocks, k), Off(c, blocks, k + 1);
    Inside(s, o, o', 0, 4);
    Inside(s, o, o', 4, 4 + |z|);
    assert Frame(c, blocks[k])[0..4] == Word(|z|) && Frame(c, blocks[k])[4..4 + |z|] == z;
  }

  lemma Inside(s: Bytes, o: nat, o': nat, i: nat, j: nat)
    requires o <= o' <= |s| && i <= j <= o' - o
    ensures Slice(s, o + i, j - i) == s[o..o'][i..j]
  {
    var a, b := s[o..o'], s[o + i..o + j];
    assert |b| == j - i;
    forall m | 0 <= m < j - i
      ensures a[i..j][m] == b[m]
    {
      assert a[i..j][m] == a[i + m] == s[o + i + m];
    }
  }

  /** What it finds behind the last block. */
  lemma EndParsed(c: Codec, blocks: seq<Bytes>, s: Bytes)
    requires IsContainer(c, blocks, s)
    ensures IsWord(Slice(s, Off(c, blocks, |blocks|), 4), 0)
    ensures Off(c, blocks, |blocks|) + 4 <= |s|
  {
    hide Data, TableBytes, Word, FromLe32, Image;
    TailAt(c, blocks);
    WordIsRead(0);
  }

  function SumSizes(t: seq<SzBlock>): nat
  {
    if t == [] then 0 else SumSizes(t[..|t| - 1]) + t[|t| - 1].usz
  }

  lemma {:induction false} SizeIsSum(c: Codec, blocks: seq<Bytes>)
    ensures SumSizes(Table(c, blocks)) == Size(blocks, |blocks|)
  {
    if blocks != [] {
      var init, x := blocks[..|blocks| - 1], blocks[|blocks| - 1];
      assert init + [x] == blocks;
      SizeIsSum(c, init);
      SizeAdded(init, x);
      TableAdded(c, init, x);
    }
  }

  predicate IsWord(w: Bytes, n: nat) { |w| == 4 && FromLe32(w) == n }

  predicate IsRows(s: Bytes, t: seq<SzBlock>) { |s| == 8 * |t| && ReadTable(s) == t }

  /** What load_szArray() finds in a container. */
  lemma TableFound(c: Codec, blocks: seq<Bytes>, s: Bytes)
    requires IsContainer(c, blocks, s)
    ensures var n, size := |blocks|, |s|;
      && size >= 8 * n + 8
      && IsWord(Slice(s, size - 4, 4), n)
      && IsWord(Slice(s, size - (8 * n + 8), 4), 0)
      && IsRows(Slice(s, size - (8 * n + 4), 8 * n), Table(c, blocks))
      && Slice(s, size, 1) == []
  {
    hide Data, TableBytes, Word, FromLe32, Image, ReadTable;
    TailAt(c, blocks);
    WordIsRead(0);
    WordIsRead(|blocks|);
    RowsFit(c, blocks);
    TableIsRead(Table(c, blocks));
    assert Slice(s, |s| - 4, 4) == s[|s| - 4..];
  }

  lemma RowsFit(c: Codec, blocks: seq<Bytes>)
    requires BlocksOk(blocks) && Fits(c, blocks)
    ensures forall i :: 0 <= i < |blocks| ==>
      Table(c, blocks)[i].usz < 0x1_0000_0000 && Table(c, blocks)[i].off < 0x1_0000_0000
  {
    forall i | 0 <= i < |blocks|
      ensures Off(c, blocks, i) < 0x1_0000_0000
    {
      OffIncreases(c, blocks, i, |blocks|);
      assert blocks[..|blocks|] == blocks;
    }
  }

  /** What one more block changes. */
  lemma BlockAdded(c: Codec, blocks: seq<Bytes>, x: Bytes)
    requires |c.name| == 4
    ensures var more, n := blocks + [x], |blocks|;
      && Table(c, more) == Table(c, blocks) + [SzBlock(|x|, Off(c, blocks, n))]
      && Data(c, more) == Data(c, blocks) + Frame(c, x)
      && Off(c, more, n + 1) == Off(c, blocks, n) + 4 + |c.compress(x)|
      && Off(c, blocks, n) == 4 + |Data(c, blocks)|
      && Size(more, n + 1) == Size(blocks, n) + |x|
  {
    var more, n := blocks + [x], |blocks|;
    assert more[..n] == blocks && blocks[..n] == blocks && more[..n + 1] == more;
    DataStep(c, more, n);
    hide Data, Size;
    SizeAdded(blocks, x);
    TableAdded(c, blocks, x);
  }

  lemma SizeAdded(blocks: seq<Bytes>, x: Bytes)
    ensures Size(blocks + [x], |blocks| + 1) == Size(blocks, |blocks|) + |x|
  {
    SizeSame(blocks, blocks + [x], |blocks|);
  }

  lemma TableAdded(c: Codec, blocks: seq<Bytes>, x: Bytes)
    ensures Table(c, blocks + [x]) == Table(c, blocks) + [SzBlock(|x|, Off(c, blocks, |blocks|))]
  {
    hide Data;
    var more, n := blocks + [x], |blocks|;
    forall i | 0 <= i <= n
      ensures Off(c, more, i) == Off(c, blocks, i)
    {
      assert more[..i] == blocks[..i];
    }
  }

  lemma {:induction false} SizeSame(a: seq<Bytes>, b: seq<Bytes>, k: nat)
    requires k <= |a| && a <= b
    ensures Size(a, k) == Size(b, k)
  {
    if k > 0 { SizeSame(a, b, k - 1); }
  }
}
