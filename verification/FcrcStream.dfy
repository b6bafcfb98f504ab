/**
 The CRC/XOR stream of utils/fopen_crc.c: the reader, the seek logic, the
 writer with its append mode, and the one-block repair scan.
 */
module FcrcStream {
  import opened Bits
  import opened CrcFormat
  import opened CrcLayout
  import opened CrcOutput
  import opened CrcRepair
  import opened Seqs
  import opened Stdio
  import opened Wrappers
  import Crc32c

  datatype Whence = SeekSet | SeekCur | SeekEnd

  /** The result of a call that returns -1 and sets errno on failure. */
  datatype Status = Ok(value: nat) | Einval | Eio

  /** for (i...) x[at++] ^= b[i]; */
  method Absorb(x: array<byte>, at: nat, b: seq<byte>)
    requires at + |b| <= x.Length
    modifies x
    ensures x[..] == Absorbed(old(x[..]), at, b)
  {
    ghost var was := x[..];
    var i := 0;
    while i < |b|
      invariant 0 <= i <= |b|
      invariant forall j :: 0 <= j < x.Length ==>
        x[j] == if at <= j < at + i then XorByte(was[j], b[j - at]) else was[j]
    {
      x[at + i] := XorByte(x[at + i], b[i]);
      i := i + 1;
    }
    forall j | 0 <= j < x.Length
      ensures x[j] == Absorbed(was, at, b)[j]
    {
      XorZero(was[j]);
    }
  }

  /** memset(x, 0, sizeof(*x)) */
  method Clear(x: array<byte>)
    modifies x
    ensures x[..] == Zeros(x.Length)
  {
    forall i | 0 <= i < x.Length { x[i] := 0; }
  }

  class Fcrc {
    const f: File
    const bits: int
    const datasz: int
    const read: bool
    const write: bool
    const chkxor: bool
    const xor: array<byte>

    var didwrite: bool
    var writepartial: bool
    var doXor: bool
    var didseek: bool
    var xorchkd: bool
    var filesz: int
    var offset: nat
    var boff: nat
    var seekoff: nat
    var crc: u32
    var rbuf: seq<byte>
    var rbufOff: nat
    var rlen: nat

    ghost var lay: Layout  // reading: what the file was made from
    ghost var blk: nat     // index of the block `boff` stands for
    ghost var xfrom: nat   // reading: `xor` covers blocks xfrom up to xto
    ghost var xto: nat

    ghost var content: seq<byte>  // writing: the data of the file so far
    ghost var start: nat          // writing: the first block rewritten
    ghost var orig: seq<byte>     // writing: the file before the first write
    ghost var defect: seq<byte>   // writing: what the accumulated xor was off by before the first write

    // ------------------------------------------------------------ invariants

    ghost predicate Shape()
      reads `lay
    {
      && IsBits(bits) && datasz == DataSize(bits) && xor.Length == datasz + 2
      && lay.Valid() && lay.bits == bits
    }

    /** `boff` and the file position stand for block `blk`. */
    ghost predicate Aligned()
      requires Shape()
      reads `lay, `blk, `boff, f`pos
    {
      boff == lay.Off(blk) && f.pos == Times(blk, datasz + PER_BLK)
    }

    /** The file position is in step with `boff`. */
    ghost predicate InStep()
      requires Shape()
      reads `lay, `blk, `boff, f`pos
    {
      blk <= lay.Last() + 2 && Aligned()
    }

    /** While doXor is set, `xor` has taken in all blocks read since the last seek. */
    ghost predicate XorUpToDate()
      requires Shape()
      reads `lay, `doXor, `blk, `xfrom, `xto, xor
    {
      doXor ==> xfrom <= xto == blk <= lay.Last() + 2 && xor[..] == lay.XorOf(xfrom, xto)
    }

    /** `xor` is the exclusive-or of blocks xfrom..xto, which were all good. */
    ghost predicate XorCovers()
      requires Shape()
      reads `lay, `xfrom, `xto, `seekoff, f`data, xor
    {
      && xfrom <= xto <= lay.Last() + 2
      && xor[..] == lay.XorOf(xfrom, xto)
      && seekoff == lay.Off(xfrom)
      && lay.Good(f.data, xfrom, xto)
    }

    ghost predicate CacheHolds()
      reads `lay, `rbuf, `rlen, `rbufOff
    {
      rlen > 0 ==>
        && rlen <= |rbuf|
        && rbufOff + rlen <= |lay.data|
        && rbuf[..rlen] == lay.data[rbufOff..rbufOff + rlen]
    }

    /** All blocks are read, but the caller's offset is not at the end of the data. */
    ghost predicate Drained()
      requires Shape()
      reads `lay, `blk, `offset, `rlen
    {
      offset < |lay.data| && rlen == 0 && blk == lay.Last() + 2
    }

    /** A zero-length read ran past the caller's offset; nothing more can be read before a seek. */
    ghost predicate Lost()
      requires Shape()
      reads `lay, `blk, `offset, `rlen, `didseek
    {
      !didseek && Drained()
    }

    /** The caller's offset is in the next block, or at the end of the data. */
    ghost predicate Fresh()
      requires Shape()
      reads `lay, `blk, `offset
    {
      lay.Consumed(blk) <= offset && (offset < |lay.data| ==> offset < lay.Consumed(blk + 1))
    }

    /** It is in the saved block, the last one read; at its start only if `count` has no room for a block. */
    ghost predicate Saved(count: int)
      requires Shape()
      reads `lay, `blk, `offset, `rlen, `rbufOff
    {
      && blk > 0 && rlen > 0 && rbufOff <= offset < rbufOff + rlen == lay.Consumed(blk)
      && lay.Consumed(blk - 1) <= offset
      && (count >= datasz ==> lay.Consumed(blk - 1) < offset)
    }

    /** A read of `count` bytes gets the data at the caller's offset. */
    ghost predicate Near(count: int)
      requires Shape()
      reads `lay, `blk, `offset, `rlen, `rbufOff
    {
      Fresh() || Saved(count)
    }

    /** Between seeks: where the caller's offset is relative to the blocks read. */
    ghost predicate Cursor()
      requires Shape()
      reads `lay, `blk, `offset, `rlen, `didseek, `rbufOff, `filesz
    {
      && (filesz >= 0 || blk <= lay.Last())
      && (rlen > 0 ==> rbufOff + rlen <= lay.Consumed(blk))
      && (Near(datasz) || Lost())
    }

    /** A stream opened for reading that has not been written to. */
    ghost predicate Reading()
      reads this, f, xor
    {
      && Shape() && read && !didwrite && !writepartial && crc == 0
      && lay.Frames(f.data) && InStep() && CacheHolds() && XorCovers()
      && offset <= |lay.data|
      && (filesz < 0 || filesz == |lay.data|)
      && (xorchkd ==> lay.Whole(f.data))
      && (!didseek ==> Cursor() && XorUpToDate())
    }

    // --------------------------------------------------------------- opening

    /** The allocation part of fopen_crc(), after the header of an existing file was parsed. */
    constructor ForReading(f: File, bits: int, update: bool, chkxor: bool, ghost lay: Layout)
      requires lay.Valid() && lay.bits == bits && lay.Frames(f.data) && f.pos == 0
      ensures this.f == f && this.bits == bits && this.lay == lay && fresh(xor)
      ensures write == update && this.chkxor == chkxor
      ensures Reading() && didseek && offset == 0 && filesz == -1 && !xorchkd && xfrom == xto == 0
    {
      this.f, this.bits, this.datasz := f, bits, DataSize(bits);
      read, write, this.chkxor := true, update, chkxor;
      xor := new byte[DataSize(bits) + 2](_ => 0);
      didwrite, writepartial, doXor, didseek, xorchkd := false, false, false, true, false;
      filesz, offset, boff, seekoff, crc := -1, 0, 0, 0, 0;
      rbuf, rbufOff, rlen := [], 0, 0;
      this.lay, blk, xfrom, xto := lay, 0, 0, 0;
      new;
      lay.XorOfNone(0);
    }

    /** fopen_crc(f, "w"), once the block size is chosen. */
    constructor ForWriting(f: File, bits: int)
      requires IsBits(bits) && f.data == [] && f.pos == 0
      ensures this.f == f && this.bits == bits && fresh(xor)
      ensures ReadyToWrite() && lay.data == [] && lay.Defect(xto) == Zeros(xor.Length)
    {
      this.f, this.bits, this.datasz := f, bits, DataSize(bits);
      read, write, chkxor := false, true, false;
      xor := new byte[DataSize(bits) + 2](_ => 0);
      didwrite, writepartial, doXor, didseek, xorchkd := false, false, false, true, false;
      filesz, offset, boff, seekoff, crc := -1, 0, 0, 0, 0;
      rbuf, rbufOff, rlen := [], 0, 0;
      lay, blk, xfrom, xto := Layout(bits, [], Zeros(DataSize(bits) + 2)), 0, 0, 0;
      new;
      lay.NothingRead(f.data);
      lay.XorOfNone(0);
    }

    /**
     fopen_crc(f, "r") and fopen_crc(f, "r+"): null for a file without a header; also
     for one in the old format, whose reader is not modelled, and where the library
     stops.  The size that the header names, whichever it is, is that of the stream;
     `lay` is any layout of that size which the blocks that pass their CRC agree with.
     */
    static method FopenCrc(f: File, update: bool, chkxor: bool, ghost lay: Layout) returns (r: Fcrc?)
      requires lay.Valid() && lay.Frames(f.data) && f.pos == 0
      requires OpeningOf(f.data).Current? ==> lay.bits == OpeningOf(f.data).bits
      modifies f`pos
      ensures r == null <==> !OpeningOf(f.data).Current?
      ensures r != null ==>
        && fresh(r) && fresh(r.xor) && r.f == f && r.lay == lay
        && r.write == update && r.chkxor == chkxor
        && r.Reading() && r.didseek && r.offset == 0 && r.filesz == -1 && !r.xorchkd && r.xfrom == r.xto == 0
    {
      var header := OpeningOf(f.data);
      if !header.Current? { return null; }
      f.Seek(0);
      r := new Fcrc.ForReading(f, header.bits, update, chkxor, lay);
    }

    // --------------------------------------------------------------- reading

    /** fread the next n bytes of a block into the checksum and, from index `at`, into `xor`. */
    method Pull(n: nat, at: nat, crc0: u32) returns (s: seq<byte>, crc1: u32)
      requires at + n <= xor.Length
      modifies f`pos, xor
      ensures s == Slice(f.data, old(f.pos), n) && f.pos == old(f.pos) + |s|
      ensures crc1 == Crc32c.Crc(crc0, s)
      ensures xor[..] == if doXor then Absorbed(old(xor[..]), at, s) else old(xor[..])
    {
      s := f.Read(n);
      if doXor { Absorb(xor, at, s); }
      crc1 := Crc32c.Crc(crc0, s);
    }

    /** Read the fields of the block at the file position, checksumming and xor-ing them. */
    method FetchBlock(ghost raw: seq<byte>)
      returns (buf: seq<byte>, len: seq<byte>, crcField: seq<byte>, crc2: u32)
      requires xor.Length == datasz + 2 && HDRSZ <= datasz
      requires raw == Slice(f.data, f.pos, datasz + PER_BLK)
      modifies f`pos, xor
      ensures |crcField| == 4 <==> |raw| == datasz + PER_BLK
      ensures |crcField| == 4 ==>
        && f.pos == old(f.pos) + datasz + PER_BLK
        && buf == raw[if boff == 0 then HDRSZ else 0..datasz]
        && len == raw[datasz..datasz + 2]
        && crcField == raw[datasz + 2..]
        && crc2 == Crc32c.Crc(0, raw[..datasz + 2])
        && (doXor ==> xor[..] == XorBytes(old(xor[..]), raw[..datasz + 2]))
      ensures !doXor ==> xor[..] == old(xor[..])
      ensures f.pos == old(f.pos) + |raw|
    {
      hide Crc32c.Crc, Absorbed, XorBytes, Slice;
      ghost var here, was := f.pos, xor[..];
      var at, bsize := 0, datasz;
      var hdr := [];
      crc2 := 0;
      if boff == 0 {
        hdr, crc2 := Pull(HDRSZ, 0, crc2);
        at, bsize := HDRSZ, bsize - HDRSZ;
      }
      buf, crc2 := Pull(bsize, at, crc2);
      len, crc2 := Pull(2, at + bsize, crc2);
      crcField := f.Read(4);
      SliceFields(f.data, here, at, datasz);
      if |raw| == datasz + PER_BLK {
        FieldsJoin(raw, at, datasz, was);
      }
    }

    /** What a failed readBlock() at block k leaves behind, unless it was xor-ing. */
    ghost predicate GaveUp(k: nat, x: seq<byte>)
      requires xor.Length == datasz + 2 == |x|
      reads `doXor, f, xor
    {
      && f.pos <= |f.data|
      && (Scannable(f.data, k, datasz + 2) && !doXor ==>
        f.pos == BadEnd(f.data, k, datasz + 2) && xor[..] == BadXor(f.data, k, datasz + 2, x))
    }

    /** The scan behind a CRC error, which asserts that the file is made of whole blocks. */
    method Scan()
      requires xor.Length == datasz + 2 && datasz > 0
      requires f.pos <= |f.data|
      modifies f`pos, xor
      ensures f.pos <= |f.data|
      ensures |f.data| % (datasz + PER_BLK) == 0 ==>
        var n := |f.data| / (datasz + PER_BLK);
        f.pos == ScanEnd(f.data, n, datasz + 2) && xor[..] == ScanOf(f.data, n, datasz + 2).xor
    {
      if |f.data| % (datasz + PER_BLK) == 0 {
        BlocksInFile(f.data, |f.data| / (datasz + PER_BLK), datasz + 2);
        ScanEndFits(f.data, |f.data| / (datasz + PER_BLK), datasz + 2);
        hide ScanEnd, ScanOf;
        var errors, firstError, report := CheckVerify();
      }
    }

    /** fread the fields of block k and compare its CRC. */
    method FetchChecked(ghost k: nat) returns (ok: bool, lenField: seq<byte>, buf: seq<byte>)
      requires xor.Length == datasz + 2 && HDRSZ <= datasz && f.pos == Times(k, datasz + PER_BLK)
      modifies f`pos, xor
      ensures ok <==> Checks(Raw(f.data, k, datasz + 2), datasz + 2)
      ensures ok ==>
        var raw := Raw(f.data, k, datasz + 2);
        && f.pos == Times(k + 1, datasz + PER_BLK) && |raw| == datasz + PER_BLK
        && buf == raw[if boff == 0 then HDRSZ else 0..datasz]
        && lenField == raw[datasz..datasz + 2]
        && xor[..] == if doXor then XorBytes(old(xor[..]), raw[..datasz + 2]) else old(xor[..])
      ensures !ok && old(f.pos) <= |f.data| ==> GaveUp(k, old(xor[..]))
    {
      hide Checks, Raw, Times, XorBytes, FromLe32, BadEnd, BadXor, ScanEnd, ScanOf, Crc32c.Crc, Slice;
      ghost var raw := Raw(f.data, k, datasz + 2);
      CheckMeans(raw, datasz + 2);
      BlockIsSlice(f.data, k, datasz + 2);
      var crcField, crc2;
      buf, lenField, crcField, crc2 := FetchBlock(raw);
      if |crcField| != 4 {
        CutOffEnds(f.data, k, datasz + 2, xor[..]);
        return false, lenField, buf;
      }
      if crc2 != FromLe32(crcField) {
        NotCutOff(f.data, k, datasz + 2, xor[..]);
        FitsWhole(f.data, k, datasz + 2);
        Scan();
        return false, lenField, buf;
      }
      ok := true;
    }

    /** The block read passes, and is part of the exclusive-or from now on. */
    method CountIn(bsize: nat)
      requires Shape()
      requires doXor ==>
        && lay.Frames(f.data) && blk < lay.Last() + 2 && lay.BlockOk(f.data, blk)
        && xfrom <= xto == blk && |lay.Block(f.data, blk)| == datasz + PER_BLK
        && xor[..] == XorBytes(lay.XorOf(xfrom, blk), lay.Block(f.data, blk)[..datasz + 2])
      modifies `boff, `blk, `xto
      ensures blk == old(blk) + 1 && boff == old(boff) + bsize && XorUpToDate()
      ensures !doXor ==> xto == old(xto)
    {
      hide Checks, Seal, Raw, Times, XorBytes, FromLe16, FromLe32, DataSize, FullCount;
      hide Layout.Bodies, Layout.XorOf, Layout.Frames, Layout.Off, Layout.Block;
      if doXor {
        lay.GoodBlock(f.data, blk);
        lay.XorStep(xfrom, blk);
        xto := xto + 1;
      }
      boff := boff + bsize;
      blk := blk + 1;
    }

    /** fread one block of bsize data bytes and verify its CRC; false for a bad block. */
    method TakeBlock(bsize: nat) returns (ok: bool, len: int, buf: seq<byte>)
      requires Shape() && Aligned() && XorUpToDate()
      requires doXor ==> lay.Frames(f.data) && blk < lay.Last() + 2
      requires bsize == if boff == 0 then datasz - HDRSZ else datasz
      modifies `boff, `blk, `xto, f`pos, xor
      ensures ok <==> lay.BlockOk(f.data, old(blk))
      ensures ok ==>
        && blk == old(blk) + 1 && boff == old(boff) + bsize
        && f.pos == Times(blk, datasz + PER_BLK)
        && buf == lay.Payload(f.data, old(blk)) && len == lay.Len(f.data, old(blk))
        && XorUpToDate()
      ensures ok && !doXor ==> xor[..] == old(xor[..])
      ensures !doXor ==> xto == old(xto)
      ensures !ok ==> blk == old(blk) && boff == old(boff) && (old(f.pos) <= |f.data| ==> GaveUp(blk, old(xor[..])))
    {
      hide Checks, Seal, Raw, Times, XorBytes, FromLe16, FromLe32, DataSize, FullCount;
      hide Layout.Bodies, Layout.XorOf, Layout.Frames, Layout.Off, GaveUp;
      lay.Starts(blk);
      len := 0;
      var lenField;
      ok, lenField, buf := FetchChecked(blk);
      if ok {
        CountIn(bsize);
        len := FromLe16(lenField);
      }
    }

    /** The stream stands at a block of the data or its parity block, or behind it. */
    ghost predicate Known()
      reads `lay, `blk, `boff, `doXor, `xfrom, `xto, `filesz, f, xor
    {
      && Shape() && lay.Frames(f.data) && InStep() && XorUpToDate()
      && (filesz < 0 || filesz == |lay.data|)
      && (filesz >= 0 || blk <= lay.Last())
    }

    /**
     Read the next block.  The result is the number of data bytes, 0 at the end
     of the data (the parity block is then read as well) and ever after, and -1
     for a block that is cut off or fails its CRC.
     */
    method ReadBlock() returns (len: int, buf: seq<byte>)
      requires Shape() && Aligned() && XorUpToDate()
      requires Known() || (!doXor && (filesz < 0 || filesz < boff))
      modifies `filesz, `boff, `blk, `xto, f`pos, xor
      decreases if 0 <= filesz < boff then 0 else 1
      ensures match lay.Step(f.data, old(blk), old(filesz))
              case Fails => len == -1
              case Reads(n, next, size) => len == n && blk == next && filesz == size && Aligned() && XorUpToDate()
      ensures len > 0 ==> lay.BlockOk(f.data, old(blk)) && buf == lay.Payload(f.data, old(blk))
      ensures len >= 0 && !doXor ==> xor[..] == old(xor[..])
      ensures !doXor ==> xto == old(xto)
      ensures len < 0 && !lay.BlockOk(f.data, old(blk)) && old(f.pos) <= |f.data| ==>
        blk == old(blk) && boff == old(boff) && GaveUp(blk, old(xor[..]))
    {
      hide Times, FromLe16, DataSize, FullCount;
      hide Layout.Bodies, Layout.XorOf, Layout.Frames, Layout.Off, Layout.Block, Layout.BlockOk, Layout.Last;
      hide Layout.Payload, Layout.Len, Layout.Blocked, Layout.Yields, Layout.Good;
      lay.Starts(blk);
      lay.FullLenPositive(blk);
      ghost var k, known := blk, Known();
      var bsize, xblock := datasz, false;
      if filesz >= 0 && boff > filesz {
        if boff > filesz + bsize {
          return 0, [];
        }
        xblock := true;
      }
      if boff == 0 { bsize := bsize - HDRSZ; }
      var ok;
      ok, len, buf := TakeBlock(bsize);
      if !ok {
        return -1, buf;
      }
      if xblock {
        len := 0;
      } else if len < bsize {
        if filesz < 0 { filesz := boff - bsize + len; }
        if len == 0 {
          if known { lay.GoodLen(f.data, k); }
          var r, b := ReadBlock();
          if r < 0 { return -1, b; }
          buf := b;
        }
      }
    }

    /** readBlock() among the blocks of the data and the parity block. */
    method ReadKnown() returns (len: int, buf: seq<byte>)
      requires Known()
      modifies `filesz, `boff, `blk, `xto, f`pos, xor
      ensures len < 0 ==> !lay.Good(f.data, 0, lay.Last() + 2) && lay.Blocked(f.data, old(blk))
      ensures len >= 0 ==>
        && Known() && lay.Yields(old(blk), len, buf, blk)
        && filesz == (if old(blk) == lay.Last() then |lay.data| else old(filesz))
        && lay.Good(f.data, old(blk), blk)
      ensures len >= 0 && !doXor ==> xor[..] == old(xor[..])
      ensures !doXor ==> xto == old(xto)
      ensures len < 0 && !lay.BlockOk(f.data, old(blk)) && old(f.pos) <= |f.data| ==>
        blk == old(blk) && boff == old(boff) && GaveUp(blk, old(xor[..]))
    {
      hide DataSize, FullCount, Times, Layout.Off, Layout.XorOf, Layout.Frames, Layout.Yields, Layout.Blocked;
      hide Layout.Good, Layout.Step, Layout.Payload, Layout.BlockOk, Layout.Last;
      lay.StepKnown(f.data, blk, filesz);
      len, buf := ReadBlock();
    }

    /** Go to the block `offset` is in. */
    method SeekBlock()
      requires Shape() && InStep() && offset <= |lay.data|
      modifies `boff, `blk, f`pos
      ensures InStep() && blk == FullCount(datasz, HDRSZ + offset)
      ensures blk <= lay.Last() && lay.Off(blk) <= offset < lay.Off(blk + 1)
    {
      hide DataSize, FullCount, Times, Layout.Off;
      lay.Starts(blk);
      lay.SeekTarget(offset);
      if boff == offset {
        lay.SeekStart(blk);
        return;
      }
      var newPos := 0;
      var n := (offset + HDRSZ) / datasz;
      if n != 0 { newPos := n * datasz - HDRSZ; }
      if newPos != boff {
        GoToBlock(n);
      } else {
        lay.OffInjective(blk, n);
      }
    }

    method ReadAfterSeek()
      requires Reading() && didseek
      modifies `didseek, `boff, `blk, `doXor, `seekoff, `xfrom, `xto, f`pos, xor
      ensures !didseek && InStep() && XorCovers() && XorUpToDate()
      ensures blk == FullCount(datasz, HDRSZ + offset)
      ensures blk <= lay.Last() && lay.Off(blk) <= offset < lay.Off(blk + 1)
      ensures doXor == (write || blk == 0)
      ensures doXor ==> xfrom == blk
    {
      hide DataSize, FullCount, Times, Layout.Off, Layout.XorOf, Layout.Frames;
      didseek := false;
      SeekBlock();
      lay.Starts(blk);
      // if read-only, only xor if reading whole file
      doXor := write || boff == 0;
      if !doXor { return; }
      seekoff := boff;
      Clear(xor);
      xfrom, xto := blk, blk;
      lay.XorOfNone(blk);
    }

    /** A stream between seeks, wherever its caller's offset is. */
    ghost predicate Scanning()
      reads `lay, `blk, `boff, `xfrom, `xto, `seekoff, `doXor, `filesz, `xorchkd, f, xor
    {
      && Shape() && lay.Frames(f.data) && InStep() && XorCovers() && XorUpToDate()
      && (filesz < 0 || filesz == |lay.data|)
      && (filesz >= 0 || blk <= lay.Last())
      && (xorchkd ==> lay.Whole(f.data))
    }

    method NextBlock() returns (n: int, buf: seq<byte>)
      requires Scanning()
      modifies `filesz, `boff, `blk, `xto, f`pos, xor
      ensures n < 0 ==> !lay.Whole(f.data) && lay.Blocked(f.data, old(blk))
      ensures n >= 0 ==> Scanning() && lay.Yields(old(blk), n, buf, blk)
      ensures n == 0 ==> filesz >= 0
    {
      hide DataSize, FullCount, Times, Layout.Whole, Layout.Off, Layout.XorOf, Layout.Frames;
      n, buf := ReadKnown();
      if n < 0 {
        lay.AllGoodMeansClosed(f.data);
      }
    }

    /** for (n...) if (xor[n]) */
    method XorIsZero() returns (zero: bool)
      ensures zero <==> xor[..] == Zeros(xor.Length)
    {
      var n := 0;
      while n < xor.Length
        invariant 0 <= n <= xor.Length
        invariant forall i :: 0 <= i < n ==> xor[i] == 0
      {
        if xor[n] != 0 {
          assert xor[..][n] != Zeros(xor.Length)[n];
          return false;
        }
        n := n + 1;
      }
      return true;
    }

    /** Copy out what is left of the saved block, if the offset is inside it. */
    method FromCache(len: nat) returns (out: seq<byte>)
      requires CacheHolds() && offset <= |lay.data|
      modifies `offset
      ensures offset == old(offset) + |out| <= |lay.data|
      ensures |out| <= len && out == lay.data[old(offset)..offset]
      ensures rlen > 0 && rbufOff <= old(offset) < rbufOff + rlen ==>
        offset <= rbufOff + rlen && (len > 0 ==> out != [])
      ensures !(rlen > 0 && rbufOff <= old(offset) < rbufOff + rlen) ==> out == []
    {
      out := [];
      if rlen != 0 {
        var off := offset - rbufOff;
        if off >= 0 && off < rlen {
          var n := Min(len, rlen - off);
          out := rbuf[off..off + n];
          assert out == rbuf[..rlen][off..off + n];
          offset := offset + n;
        }
      }
    }

    /** The state between two rounds of the reading loop. */
    ghost predicate Loop()
      reads this, f, xor
    {
      && Shape() && blk <= lay.Last() + 2
      && Scanning() && CacheHolds() && offset <= |lay.data|
      && (rlen > 0 ==> rbufOff + rlen <= lay.Consumed(blk))
    }

    /**
     The direct read of a whole block into the caller's buffer, when the offset is
     at a block start and there is room; `eof` if that found the end of the data.
     */
    method Direct(len: nat) returns (n: int, out: seq<byte>, eof: bool)
      requires Loop()
      modifies `filesz, `boff, `blk, `xto, `offset, f`pos, xor
      ensures n < 0 ==> !lay.Whole(f.data) && lay.Blocked(f.data, old(blk))
      ensures n >= 0 ==>
        && Loop() && n == |out| <= len && offset == old(offset) + n && out == lay.data[old(offset)..offset]
        && (n > 0 || eof <==> len >= datasz && old(offset) == lay.Off(old(blk)))
      ensures n > 0 ==> !eof && old(blk) <= lay.Last() && blk == old(blk) + 1 && offset == lay.Consumed(blk)
      ensures n == 0 && !eof ==> blk == old(blk)
      ensures n >= 0 && eof ==>
        && n == 0 && old(blk) == lay.Last() && offset == |lay.data| == lay.Off(lay.Last())
        && blk == lay.Last() + 2 && filesz >= 0
    {
      hide DataSize, FullCount, Times, Layout.Whole, Layout.Off, XorCovers, XorUpToDate, Layout.Frames, Layout.Blocked;
      lay.Starts(blk);
      n, out, eof := 0, [], false;
      if offset == boff && len >= datasz {
        var buf;
        n, buf := NextBlock();
        if n < 0 { return; }
        if n == 0 { eof := true; }
        out := buf[..n];
        offset := offset + n;
      }
    }

    /** What serving a near caller comes to. */
    lemma Served(k: nat, from: nat, mid: nat, n: nat, eof: bool, room: int)
      requires Shape() && from <= mid && mid + n == offset <= |lay.data| && k <= lay.Last() + 2
      requires from < offset
      requires
        || (lay.Consumed(k) <= from && mid == from)
        || (&& k > 0 && lay.Consumed(k - 1) <= from < mid <= lay.Consumed(k)
            && (room >= datasz ==> lay.Consumed(k - 1) < from))
      requires n > 0 || eof <==> room + n >= datasz && mid == lay.Off(k)
      requires n > 0 ==> !eof && k <= lay.Last() && blk == k + 1 && offset == lay.Consumed(blk)
      requires n == 0 && !eof ==> blk == k
      requires n == 0 && eof ==> k == lay.Last() && offset == |lay.data| == lay.Off(k) && blk == lay.Last() + 2
      ensures lay.Follows(blk, from, offset, room)
    {
      hide DataSize, FullCount, Layout.Off, Layout.Last;
      if n > 0 {
        lay.FollowsDirect(k, from, offset, room);
      } else if !eof {
        lay.FollowsSaved(k, from, offset, room);
      }
    }

    lemma NearAgain(from: nat, room: int)
      requires Shape() && lay.Follows(blk, from, offset, room) && from < offset <= |lay.data|
      requires offset < lay.Consumed(blk) ==> rbufOff <= from && 0 < rlen && rbufOff + rlen == lay.Consumed(blk)
      ensures Near(datasz)
    {
      hide DataSize, FullCount, Layout.Off, Layout.Last;
      if offset == lay.Consumed(blk) { lay.ConsumedGrows(blk, blk + 1); }
    }

    /** Serve the caller from the saved block, and from further whole blocks if there is room. */
    method Serve(count: nat) returns (ret: int, out: seq<byte>, eof: bool)
      requires Loop()
      modifies `filesz, `boff, `blk, `xto, `offset, f`pos, xor
      ensures ret < 0 ==> !lay.Whole(f.data) && lay.Blocked(f.data, old(blk))
      ensures ret >= 0 ==>
        && Loop() && ret == |out| <= count
        && offset == old(offset) + ret && out == lay.data[old(offset)..offset]
        && (ret == 0 && !eof ==> blk == old(blk) && !(count >= datasz && offset == lay.Off(blk)))
        && (eof ==> offset == |lay.data| && blk == lay.Last() + 2 && filesz >= 0)
        && (ret > 0 || eof ==> count > 0 && (rlen > 0 || old(offset) == lay.Off(old(blk))))
      ensures ret > 0 && old(Near(count)) ==> lay.Follows(blk, old(offset), offset, count - ret) && Near(datasz)
      ensures ret == 0 && !eof && count > 0 && old(Near(count)) ==> Fresh()
    {
      hide DataSize, FullCount, Times, Layout.Whole, Layout.Off, Scanning, Layout.Frames, Layout.Blocked;
      out := FromCache(count);
      ghost var mid := offset;
      var n, more;
      n, more, eof := Direct(count - |out|);
      if n < 0 { return -1, [], false; }
      ret, out := |out| + n, out + more;
      if ret > 0 && old(Near(count)) {
        Served(old(blk), old(offset), mid, n, eof, count - ret);
        NearAgain(old(offset), count - ret);
      }
    }

    /** Save the next block in rbuf. */
    method Refill() returns (n: int)
      requires Scanning() && offset <= |lay.data|
      modifies `filesz, `boff, `blk, `xto, `rbuf, `rbufOff, `rlen, f`pos, xor
      ensures n < 0 ==> !lay.Whole(f.data) && lay.Blocked(f.data, old(blk))
      ensures n >= 0 ==> Loop() && rlen == n
      ensures n == 0 ==> blk == lay.Last() + 2 && filesz >= 0 && lay.Consumed(old(blk)) == |lay.data|
      ensures n > 0 ==>
        && old(blk) <= lay.Last() && blk == old(blk) + 1
        && rbufOff == lay.Off(old(blk)) && rbufOff + rlen == lay.Consumed(blk)
    {
      hide DataSize, FullCount, Times, Layout.Whole, Layout.Off, XorCovers, XorUpToDate, Layout.Frames, Layout.Blocked;
      lay.Starts(blk);
      rbufOff := boff;
      n, rbuf := NextBlock();
      if n >= 0 { rlen := n; }
    }

    /** The reading loop of crcRead(). */
    method ReadLoop(count: nat) returns (ret: int, out: seq<byte>)
      requires Loop() && (Near(count) || Drained())
      modifies `filesz, `boff, `blk, `xto, `offset, `rbuf, `rbufOff, `rlen, f`pos, xor
      ensures ret < 0 ==> !lay.Whole(f.data)
      ensures ret <= 0 && count > 0 && old(Near(count)) ==> lay.Stopped(f.data, old(offset))
      ensures ret >= 0 ==>
        && Loop()
        && ret == |out| <= count
        && offset == old(offset) + ret && out == lay.data[old(offset)..offset]
        && (ret == 0 ==> blk == lay.Last() + 2 && filesz >= 0)
      ensures ret > 0 ==> lay.Follows(blk, old(offset), offset, count - ret)
      ensures ret >= 0 && count > 0 && old(Near(count)) ==>
        Near(datasz) && !Drained() && (ret == 0 <==> old(offset) == |lay.data|)
      ensures ret >= 0 && !(count > 0 && old(Near(count))) ==> ret == 0 && (Drained() <==> offset < |lay.data|)
      ensures ret == 0 && offset == |lay.data| ==> Near(datasz)
    {
      hide DataSize, FullCount, Times, Layout.Whole, Layout.Off, Scanning, Layout.Frames, CacheHolds;
      hide Layout.Blocked, Layout.Follows;
      ghost var near := Near(count);
      while true
        invariant offset == old(offset) && Loop()
        invariant count > 0 && near ==> Near(count)
        invariant !near ==> Drained()
        decreases lay.Last() + 2 - blk
      {
        lay.Starts(blk);
        ghost var k := blk;
        var eof;
        ret, out, eof := Serve(count);
        if ret < 0 && near && count > 0 { lay.BlockedStops(f.data, k, old(offset)); }
        if ret != 0 || eof { break; }
        var n := Refill();
        if n < 0 && near && count > 0 { lay.BlockedStops(f.data, k, old(offset)); }
        if n <= 0 {
          ret := n;
          break;
        }
      }
    }

    /** At the end of a file that was xor-ed as a whole, the exclusive-or must be zero. */
    method CheckXor() returns (ok: bool)
      requires Scanning() && blk == lay.Last() + 2
      modifies `xorchkd
      ensures !ok ==> !lay.Whole(f.data)
      ensures ok ==> Scanning() && (doXor && xfrom == 0 ==> xorchkd) && (old(xorchkd) ==> xorchkd)
    {
      hide DataSize, FullCount, Times, Layout.Whole, Layout.Off, Layout.XorOf, Layout.Frames, Layout.Good;
      lay.Starts(xfrom);
      ok := true;
      if doXor && seekoff == 0 {
        lay.AllGoodMeansClosed(f.data);
        ok := XorIsZero();
        if ok { xorchkd := true; }
      }
    }

    /** Before the reading loop: a seek that is due, with the saved block dropped. */
    method Settle(count: nat)
      requires Reading()
      modifies `didseek, `boff, `blk, `doXor, `seekoff, `xfrom, `xto, `rlen, f`pos, xor
      ensures !didseek && Loop() && (Near(count) <==> !old(Lost())) && (old(Lost()) ==> Lost())
      ensures old(didseek) ==>
        var target := FullCount(datasz, HDRSZ + offset);
        doXor == (write || target == 0) && (doXor ==> xfrom == target)
      ensures !old(didseek) ==> doXor == old(doXor) && xfrom == old(xfrom)
    {
      hide DataSize, FullCount, Times, Layout.Whole, Layout.Off, Layout.XorOf, Layout.Frames, Layout.Good;
      if didseek {
        ReadAfterSeek();
        rlen := 0;
      }
    }

    /**
     Up to `count` bytes at the caller's offset.  Fails only on a file that is not
     as crcClose() left it.  A read of 0 bytes in the middle of the data skips the
     rest of the file.
     */
    method CrcRead(count: nat) returns (ret: int, out: seq<byte>)
      requires Reading()
      modifies `didseek, `boff, `blk, `doXor, `seekoff, `xfrom, `xto, `filesz, `offset,
               `rbuf, `rbufOff, `rlen, `xorchkd, f`pos, xor
      ensures ret < 0 ==>
        !lay.Whole(f.data) && (count > 0 && !old(Lost()) ==> lay.Stopped(f.data, old(offset)))
      ensures ret >= 0 ==>
        && Reading() && !didseek
        && ret == |out| <= count
        && offset == old(offset) + ret && out == lay.data[old(offset)..offset]
        && (ret == 0 <==> old(offset) == |lay.data| || count == 0 || old(Lost()))
        && (Lost() <==> offset < |lay.data| && (count == 0 || old(Lost())))
        && (ret == 0 ==> blk == lay.Last() + 2 && filesz >= 0)
        && (ret == 0 && doXor && xfrom == 0 ==> xorchkd)
        && (old(xorchkd) ==> xorchkd)
      ensures ret >= 0 ==> blk == lay.Unread(old(offset), offset, count - ret)
      ensures ret >= 0 && old(didseek) ==>
        var target := FullCount(datasz, HDRSZ + old(offset));
        && doXor == (write || target == 0)
        && (doXor ==> xfrom == target)
      ensures ret >= 0 && !old(didseek) ==> doXor == old(doXor) && xfrom == old(xfrom)
    {
      hide DataSize, FullCount, Times, Layout.Whole, Layout.Off, Layout.XorOf, Layout.Frames, Layout.Good;
      hide Layout.Follows, Layout.Stopped, Layout.Last, Near, Drained, InStep, CacheHolds, XorCovers, XorUpToDate;
      Settle(count);
      ret, out := ReadLoop(count);
      if ret > 0 { lay.UnreadIs(blk, old(offset), offset, count - ret); }
      if ret == 0 {
        var ok := CheckXor();
        if !ok { return -1, []; }
      }
    }

    // --------------------------------------------------------------- seeking

    /** What fileSize() asserts: the file is made of whole blocks, two at least. */
    ghost predicate WholeBlocks()
      reads f`data
    {
      datasz > 0 && |f.data| % (datasz + PER_BLK) == 0 && |f.data| >= 2 * (datasz + PER_BLK)
    }

    /** fseek() to the start of block n. */
    method GoToBlock(n: nat)
      requires Shape()
      modifies `boff, `blk, f`pos
      ensures Aligned() && blk == n
    {
      hide DataSize, FullCount, Times, Layout.Off;
      lay.BlockOffset(n);
      f.Seek(n * (datasz + PER_BLK));
      boff, blk := if n != 0 then n * datasz - HDRSZ else 0, n;
    }

    /** Save the block where the stream stands in rbuf, for what it says of the size. */
    method ReadSize() returns (ok: bool)
      requires Shape() && Aligned() && lay.Frames(f.data) && XorCovers() && !doXor
      requires filesz < 0 || filesz == |lay.data|
      modifies `boff, `blk, `xto, `filesz, `rbuf, `rbufOff, `rlen, f`pos, xor
      ensures match lay.Step(f.data, old(blk), old(filesz))
              case Fails => !ok
              case Reads(_, _, size) => filesz == size && (ok <==> size >= 0)
      ensures ok && old(blk) <= lay.Last() ==>
        InStep() && CacheHolds() && XorCovers() && filesz == |lay.data|
      ensures !ok && old(blk) == lay.Last() ==> !lay.Whole(f.data)
    {
      hide DataSize, FullCount, Times, Layout.Whole, Layout.Off, Layout.XorOf, Layout.Frames, Layout.Good;
      hide Layout.Bodies, Layout.Step, Layout.Payload, Layout.BlockOk, Layout.Last, Layout.Blocked;
      lay.Starts(blk);
      lay.AllGoodMeansClosed(f.data);
      if Known() { lay.StepKnown(f.data, blk, filesz); }
      rbufOff := boff;
      var r;
      r, rbuf := ReadBlock();
      if r >= 0 { rlen := r; }
      return r >= 0 && filesz >= 0;
    }

    /**
     Find the size of the data in the block before the last.  With nothing behind the
     parity block that is the last data block.
     */
    method FileSize() returns (ok: bool)
      requires Reading() && didseek && WholeBlocks()
      modifies `doXor, `boff, `blk, `xto, `filesz, `rbuf, `rbufOff, `rlen, f`pos, xor
      ensures match lay.SizeFound(f.data, old(filesz)) case None => !ok case Some(size) => ok && filesz == size
      ensures lay.Ends(f.data) ==> if ok then Reading() && filesz == |lay.data| else !lay.Whole(f.data)
    {
      hide DataSize, FullCount, Times, Layout.Whole, Layout.Off, Layout.XorOf;
      hide Layout.Frames, Layout.Good, Layout.Bodies, Layout.Step, Layout.Last, InStep, CacheHolds, XorCovers;
      doXor := false;
      var size := |f.data|;
      f.Seek(size);
      var n := size / (datasz + PER_BLK);
      GoToBlock(n - 2);
      if lay.Ends(f.data) { lay.SizeInBlocks(f.data, n); }
      ok := ReadSize();
    }

    /** The end of crcSeek(). */
    method MoveTo(target: int) returns (r: Status)
      modifies `filesz, `offset, `rlen
      ensures old(Reading() && didseek) && target <= |lay.data| ==> Reading()
      ensures r == if target < 0 then Einval else Ok(target)
      ensures offset == if target < 0 then old(offset) else target
    {
      hide DataSize, FullCount, Times, Layout.Whole, Layout.Off, Layout.XorOf;
      hide Layout.Frames, Layout.Good, Layout.Bodies;
      if target < 0 {
        filesz, rlen := -1, 0;
        return Einval;
      }
      offset := target;
      return Ok(offset);
    }

    /** A seek that does not have to find out the size. */
    predicate Sized(off: int, whence: Whence)
      reads `filesz, `offset
    {
      filesz >= 0 || whence == SeekCur || (whence == SeekSet && off <= offset)
    }

    /**
     lseek() on the data.  A target before the start is an error and leaves the
     offset alone; a target past the end is the end.
     */
    method CrcSeek(off: int, whence: Whence) returns (r: Status)
      requires Reading()
      requires whence == SeekCur ==> off == 0
      requires whence == SeekEnd || (whence == SeekSet && off > offset) ==> filesz >= 0 || WholeBlocks()
      modifies `didseek, `doXor, `boff, `blk, `xto, `filesz, `offset, `rbuf, `rbufOff, `rlen, f`pos, xor
      ensures whence == SeekCur ==>
        r == Ok(old(offset)) && Reading() && didseek == old(didseek) && offset == old(offset)
      ensures whence != SeekCur && (old(Sized(off, whence)) || lay.Ends(f.data)) ==>
        var target := if whence == SeekEnd then off + |lay.data| else off;
        && (r.Ok? ==> Reading() && didseek && target >= 0 && offset == r.value == Min(target, |lay.data|))
        && (r.Einval? ==> Reading() && didseek && target < 0 && offset == old(offset))
        && (r.Eio? ==> !lay.Whole(f.data))
      ensures whence != SeekCur && !old(Sized(off, whence)) ==>
        match lay.SizeFound(f.data, old(filesz))
        case None => r == Eio
        case Some(size) =>
          var target := Min(if whence == SeekEnd then off + size else off, size);
          if target < 0 then r == Einval && offset == old(offset) else r == Ok(target) && offset == target
      ensures xfrom == old(xfrom)
      ensures old(Sized(off, whence)) ==> xto == old(xto)
    {
      hide DataSize, FullCount, Times, Layout.Whole, Layout.Off, Layout.XorOf;
      hide Layout.Frames, Layout.Good, Layout.Bodies, Layout.SizeFound;
      hide WholeBlocks;
      if whence == SeekCur {
        return Ok(offset);
      }
      didseek := true;
      var target := off;
      // avoid finding file size when we don't need to
      if !(whence == SeekSet && off <= offset) {
        if filesz < 0 {
          var ok := FileSize();
          if !ok { return Eio; }
        }
        if whence == SeekEnd { target := target + filesz; }
        if target >= filesz { target := filesz; }
      }
      r := MoveTo(target);
    }

    // --------------------------------------------------------------- closing

    /** crcClose() of a stream that was only read: with chkxor, 0 exactly for an undamaged file. */
    method CloseReader() returns (rc: int)
      requires Reading() && !write
      modifies `didseek, `boff, `blk, `doXor, `seekoff, `xfrom, `xto, `filesz, `offset,
               `rbuf, `rbufOff, `rlen, `xorchkd, f`pos, xor
      ensures rc == 0 || rc == -1
      ensures chkxor ==> (rc == 0 <==> lay.Whole(f.data))
      ensures !chkxor ==> rc == 0
    {
      hide DataSize, Times, Layout.Whole, Layout.XorOf, Layout.Frames, Layout.Good, Layout.Bodies, WholeBlocks;
      if chkxor && !xorchkd {
        var r := CrcSeek(0, SeekSet);
        if r != Ok(0) { return -1; }
        filesz := -1;  // read whole file; even if changed
        lay.SeekStart(0);
        var n, buf := CrcRead(datasz);
        while n > 0
          invariant n >= 0 ==> Reading() && !didseek && !Lost() && doXor && xfrom == 0
          invariant n < 0 ==> !lay.Whole(f.data)
          invariant n == 0 ==> xorchkd
          decreases if n < 0 then 0 else |lay.data| + 1 - offset, n
        {
          n, buf := CrcRead(datasz);
        }
        if n < 0 { return -1; }
      }
      return 0;
    }

    // --------------------------------------------------------------- writing

    ghost predicate WriteShape()
      reads `defect
    {
      && IsBits(bits) && datasz == DataSize(bits) && xor.Length == datasz + 2
      && write && |defect| == datasz + 2
    }

    /** Where the rewritten part of the file begins. */
    ghost function Base(): nat
      requires WriteShape()
      reads `start, `defect
    {
      Times(start, datasz + PER_BLK)
    }

    /** Nothing is written yet, not even the header. */
    ghost predicate Unstarted()
      reads `defect, `didseek, `content, `blk, `start, `offset, `boff, `orig, `crc, `writepartial, f, xor
    {
      && WriteShape() && !didseek && !writepartial
      && content == [] && blk == start == 0 && offset == boff == 0
      && f.data == orig && f.pos == 0 && crc == 0 && xor[..] == defect
    }

    /** Complete blocks and a partial one are in the file; the last may just have become full. */
    ghost predicate Emitting()
      reads `defect, `didseek, `content, `blk, `start, `offset, `boff, `orig, `crc, `writepartial, f, xor
    {
      && WriteShape() && !didseek && (offset == 0 ==> writepartial)
      && var s := Stream(bits, content);
      && start <= blk && Times(blk, datasz) <= |s| <= Times(blk + 1, datasz)
      && offset == |content| && boff == Boff(datasz, blk)
      && Base() <= |orig|
      && f.data == Overwrite(orig, Base(), Output(datasz, s, start, blk))
      && f.pos == Base() + |Output(datasz, s, start, blk)|
      && crc == Crc32c.Crc(0, Pending(datasz, s, blk))
      && xor[..] == Accumulated(datasz, s, blk, defect)
    }

    /** A stream between writes. */
    ghost predicate Writing()
      reads `defect, `didseek, `content, `blk, `start, `offset, `boff, `orig, `crc, `writepartial, `didwrite, f, xor
    {
      Emitting() && didwrite && !didseek && HDRSZ + |content| < Times(blk + 1, datasz)
    }

    /** The arithmetic crcWrite() does on offsets. */
    lemma Account()
      requires Emitting()
      ensures IsDataSize(datasz) && IsBits(bits) && offset == |content| && (offset == 0 ==> writepartial) && !didseek
      ensures boff == 0 <==> blk == 0
      ensures Times(blk, datasz) <= HDRSZ + |content|
      ensures Times(blk + 1, datasz) - (HDRSZ + |content|) == FullLen(datasz, blk) - (offset - boff)
      ensures HDRSZ + |content| - Times(blk, datasz) == offset - boff + (if blk == 0 then HDRSZ else 0)
    {
      hide Crc32c.Crc, Header, Absorbed, Output, Accumulated, Overwrite, DataSize, Times, Pending;
      Room(datasz, blk, |content|);
    }

    lemma NotUnstarted()
      requires Unstarted() || Emitting()
      requires offset != 0 || writepartial
      ensures Emitting()
    {
      hide Crc32c.Crc, Header, Absorbed, Output, Accumulated, Overwrite, DataSize, Times, Pending;
    }

    method WriteHeader()
      requires Unstarted()
      modifies `crc, `writepartial, f, xor
      ensures Emitting() && HDRSZ + |content| < Times(blk + 1, datasz)
    {
      hide Crc32c.Crc, Header, Absorbed, Output, Pending, Accumulated, Overwrite, DataSize;
      OutputStarts(bits, defect);
      OverwriteNothing(orig, 0);
      var hdr := Header(bits);
      crc := Crc32c.Crc(crc, hdr);
      f.Write(hdr);
      Absorb(xor, 0, hdr);
      writepartial := true;
    }

    /** Data that fits into the current block: into the checksum, the parity and the file. */
    method Put(chunk: seq<byte>, c: nat)
      requires Emitting() && chunk != [] && HDRSZ + |content| + |chunk| <= Times(blk + 1, datasz)
      requires c == HDRSZ + |content| - Times(blk, datasz)
      modifies `crc, `offset, `content, f, xor
      ensures Emitting() && content == old(content) + chunk
    {
      hide Crc32c.Crc, Header, Absorbed, Output, Accumulated, Overwrite, DataSize, Times;
      ghost var s := Stream(bits, content);
      OutputGrows(datasz, s, chunk, start, blk, defect);
      assert Stream(bits, content + chunk) == s + chunk;
      OverwriteTwice(orig, Base(), Output(datasz, s, start, blk), chunk);
      Crc32c.CrcComposes(0, Pending(datasz, s, blk), chunk);
      Room(datasz, blk, |content|);
      crc := Crc32c.Crc(crc, chunk);
      Absorb(xor, c, chunk);
      f.Write(chunk);
      offset := offset + |chunk|;
      content := content + chunk;
    }

    /** Length and CRC behind a full block. */
    method CompleteBlock(bsize: nat)
      requires Emitting() && HDRSZ + |content| == Times(blk + 1, datasz) && bsize == FullLen(datasz, blk)
      modifies `crc, `boff, `blk, `writepartial, f, xor
      ensures Emitting() && HDRSZ + |content| < Times(blk + 1, datasz)
      ensures blk == old(blk) + 1 && HDRSZ + |content| == Times(blk, datasz)
    {
      hide Crc32c.Crc, Header, Absorbed, Output, Accumulated, Overwrite, DataSize, Times, Le16, Le32;
      ghost var s := Stream(bits, content);
      ghost var was := Output(datasz, s, start, blk);
      Room(datasz, blk, |content|);
      Room(datasz, blk + 1, |content|);
      NextBody(datasz, s, blk);
      OutputSeals(datasz, s, start, blk);
      ParitySeals(datasz, s, blk, defect);
      Crc32c.CrcComposes(0, Pending(datasz, s, blk), Le16(bsize));
      Crc32c.CrcOfNothing(0);
      boff := boff + bsize;
      var olen := Le16(bsize);
      crc := Crc32c.Crc(crc, olen);
      Absorb(xor, datasz, olen);
      OverwriteTwice(orig, Base(), was, olen);
      f.Write(olen);
      OverwriteTwice(orig, Base(), was + olen, Le32(crc));
      f.Write(Le32(crc));
      crc, writepartial := 0, false;
      blk := blk + 1;
    }

    method MarkPartial()
      requires Emitting()
      modifies `writepartial
      ensures Emitting() && writepartial
    {
      hide Crc32c.Crc, Header, Absorbed, Output, Accumulated, Overwrite, DataSize, Times, Pending;
      writepartial := true;
    }

    /** One round of crcWrite()'s loop: as much of `rest` as fits into the current block. */
    method PutPiece(rest: seq<byte>, bsize: nat, c: nat) returns (n: nat, bsize': nat, c': nat)
      requires Emitting() && HDRSZ + |content| < Times(blk + 1, datasz) && rest != []
      requires bsize == FullLen(datasz, blk) && c == HDRSZ + |content| - Times(blk, datasz)
      modifies `crc, `offset, `content, `boff, `blk, `writepartial, f, xor
      ensures 0 < n <= |rest| && content == old(content) + rest[..n]
      ensures Emitting() && HDRSZ + |content| < Times(blk + 1, datasz)
      ensures bsize' == FullLen(datasz, blk) && c' == HDRSZ + |content| - Times(blk, datasz)
    {
      hide Times, Emitting;
      Account();
      n := Min(|rest|, bsize - (offset - boff));
      Put(rest[..n], c);
      Account();
      if offset - boff >= bsize {
        CompleteBlock(bsize);
        c', bsize' := 0, datasz;
      } else {
        c', bsize' := c + n, bsize;
        MarkPartial();
      }
    }

    /** crcWrite() behind writeAfterSeek(): the header if needed, then the data cut into blocks. */
    method Append(buf: seq<byte>)
      requires CanAppend()
      modifies `didwrite, `crc, `offset, `content, `boff, `blk, `writepartial, f, xor
      ensures Writing() && content == old(content) + buf
    {
      hide Times, Emitting;
      didwrite := true;
      if offset == 0 && !writepartial {
        assert Unstarted() by { if Emitting() { Account(); } }
        WriteHeader();
      } else {
        NotUnstarted();
      }
      Account();
      var bsize := datasz;
      var c := offset - boff;
      if boff == 0 {
        bsize, c := bsize - HDRSZ, c + HDRSZ;
      }
      var i := 0;
      while i < |buf|
        invariant 0 <= i <= |buf| && Emitting() && didwrite && HDRSZ + |content| < Times(blk + 1, datasz)
        invariant content == old(content) + buf[..i]
        invariant c >= 0 && bsize == FullLen(datasz, blk) && c == HDRSZ + |content| - Times(blk, datasz)
      {
        var n;
        n, bsize, c := PutPiece(buf[i..], bsize, c);
        i := i + n;
        assert buf[..i] == buf[..i - n] + buf[i - n..][..n];
      }
      assert buf[..i] == buf;
    }

    /** The block the caller's offset is in. */
    ghost function Target(): nat
      requires Shape()
      reads `lay, `offset
    {
      FullCount(datasz, HDRSZ + offset)
    }

    /**
     Before the first write: a new file, or an "r+" stream whose last read started
     in the block the write starts in, as writeAfterSeek() asserts.  The file must
     reach that far.
     */
    ghost predicate ReadyToWrite()
      reads this, f, xor
    {
      && Shape() && write && didseek && !didwrite && !writepartial && crc == 0
      && lay.Frames(f.data) && InStep() && XorCovers()
      && offset <= |lay.data|
      && (filesz < 0 || filesz == |lay.data|)
      && seekoff == lay.Off(Target())
      && Times(Target(), datasz + PER_BLK) <= |f.data|
    }

    /** What a write finds after writeAfterSeek(). */
    ghost predicate CanAppend()
      reads `defect, `didseek, `content, `blk, `start, `offset, `boff, `orig, `crc, `writepartial, f, xor
    {
      Unstarted() || (Emitting() && HDRSZ + |content| < Times(blk + 1, datasz))
    }

    /** At the start of block `start`, nothing of it written yet. */
    lemma Begun()
      requires WriteShape() && !didseek && !writepartial && crc == 0 && orig == f.data
      requires Shape() && InStep() && blk == start <= lay.Last() && lay.Off(start) == offset <= |lay.data|
      requires content == lay.data[..offset] && Base() <= |orig|
      requires start <= xto <= lay.Last() + 2 && defect == lay.Defect(xto) && xor[..] == lay.XorOf(start, xto)
      ensures CanAppend()
    {
      hide Absorbed, Accumulated, DataSize, Layout.XorOf, Layout.Defect, Crc32c.Crc, Overwrite, FullCount, Stream;
      lay.Starts(start);
      lay.AppendXor(start, xto);
      OverwriteNothing(orig, Base());
      Crc32c.CrcOfNothing(0);
    }

    /**
     Read rewind write the partial block that remains: the part of it in front of
     the offset, with the stream back at the start of the block.
     */
    method ReadBack() returns (ok: bool, keep: seq<byte>)
      requires Shape() && lay.Frames(f.data) && InStep() && !doXor && (filesz < 0 || filesz == |lay.data|)
      requires offset <= |lay.data| && blk == Target() && lay.Off(blk) < offset && f.pos <= |f.data|
      modifies `boff, `blk, `filesz, `rbuf, `rbufOff, `rlen, `offset, f`pos, xor
      modifies `xto
      ensures !ok ==> !lay.Whole(f.data) && offset == old(offset) && boff == old(boff) && GaveUp(old(blk), old(xor[..]))
      ensures ok ==>
        && InStep() && blk == old(blk) && offset == lay.Off(blk) <= |lay.data|
        && lay.data[..offset] + keep == lay.data[..old(offset)]
        && xor[..] == old(xor[..]) && xto == old(xto)
    {
      hide DataSize, FullCount, Times, Layout.Whole, Layout.Off, Layout.XorOf;
      hide Layout.Frames, Layout.Good, Layout.Bodies, GaveUp;
      lay.SeekTarget(offset);
      keep := [];
      rbufOff := boff;
      var r;
      r, rbuf := ReadKnown();
      if r < 0 {
        lay.AllGoodMeansClosed(f.data);
        return false, keep;
      }
      rlen := r;
      SeekBlock();
      var len := offset - rbufOff;
      keep := rbuf[..len];
      FrontOfBlock(lay.data, rbufOff, rlen, rbuf, len);
      offset := boff;
      ok := true;
    }

    /** What a write leaves behind that could not read the front of block k back. */
    ghost predicate Stuck(k: nat, at: nat, x: seq<byte>)
      reads `lay, `doXor, `didseek, `boff, `offset, `crc, f, xor
    {
      && Shape() && !doXor && !didseek && crc == 0 && |x| == xor.Length
      && offset == at && boff == lay.Off(k) < at < lay.Off(k + 1)
      && GaveUp(k, x)
    }

    /** Go to the start of the block the offset is in, saving what of it is to be kept. */
    method Rewind() returns (ok: bool, keep: seq<byte>)
      requires ReadyToWrite()
      modifies `didseek, `doXor, `boff, `blk, `filesz, `rbuf, `rbufOff, `rlen, `offset, `xto, f`pos, xor
      ensures !ok ==> !lay.Whole(f.data) && Stuck(old(Target()), old(offset), old(xor[..]))
      ensures ok ==>
        && !didseek && InStep() && blk == old(Target()) <= lay.Last() && offset == lay.Off(blk) <= |lay.data|
        && lay.data[..offset] + keep == lay.data[..old(offset)]
        && xto == old(xto) && blk <= xto <= lay.Last() + 2 && xor[..] == lay.XorOf(blk, xto)
    {
      hide DataSize, FullCount, Times, Layout.Whole, Layout.Off, Layout.XorOf;
      hide Layout.Frames, Layout.Good, Layout.Bodies;
      didseek, doXor := false, false;
      lay.SeekTarget(offset);
      lay.OffInjective(xfrom, Target());
      keep, ok := [], true;
      SeekBlock();
      if boff == offset { return; }
      ok, keep := ReadBack();
    }

    /** Go to the block to be rewritten; with the offset inside the block, write its first part again. */
    method WriteAfterSeek() returns (ok: bool)
      requires ReadyToWrite()
      modifies `didseek, `doXor, `boff, `blk, `filesz, `rbuf, `rbufOff, `rlen, `offset,
               `content, `start, `orig, `defect, `didwrite, `crc, `writepartial, `xto, f, xor
      ensures !ok ==>
        f.data == old(f.data) && !lay.Whole(f.data) && Stuck(old(Target()), old(offset), old(xor[..]))
      ensures ok ==>
        && CanAppend() && content == old(lay.data[..offset])
        && start == old(Target()) && orig == old(f.data) && defect == old(lay.Defect(xto))
    {
      hide DataSize, FullCount, Times, Layout.Whole, Layout.Off, Layout.XorOf;
      hide Layout.Frames, Layout.Good, Layout.Defect;
      hide Emitting, Unstarted;
      var keep;
      ok, keep := Rewind();
      if !ok { return; }
      orig, start, defect, content := f.data, blk, lay.Defect(xto), lay.data[..offset];
      Begun();
      if keep != [] {
        Append(keep);
      }
    }

    /**
     Write `buf` at the caller's offset.  Fails only when the first part of the
     block to be rewritten cannot be read back.
     */
    method CrcWrite(buf: seq<byte>) returns (ok: bool)
      requires ReadyToWrite() || Writing()
      modifies this, f, xor
      ensures !ok ==>
        && old(ReadyToWrite()) && f.data == old(f.data) && lay == old(lay) && !lay.Whole(f.data)
        && Stuck(old(Target()), old(offset), old(xor[..]))
      ensures ok ==> Writing()
      ensures ok && !old(didseek) ==>
        content == old(content) + buf && start == old(start) && orig == old(orig) && defect == old(defect)
      ensures ok && old(didseek) ==>
        && content == old(lay.data[..offset]) + buf
        && start == old(Target()) && orig == old(f.data) && defect == old(lay.Defect(xto))
    {
      hide DataSize, FullCount, Times, Layout.Whole, Layout.Defect, Emitting, Unstarted;
      if didseek {
        ok := WriteAfterSeek();
        if !ok { return; }
      }
      Append(buf);
      ok := true;
    }

    /** Bytes of data or header that are missing in the current block. */
    ghost function Missing(): int
      requires IsDataSize(datasz)
      reads `boff, `offset
    {
      datasz - (if boff == 0 then HDRSZ else 0) - (offset - boff)
    }

    /** Pad the last block; its length field and CRC. */
    method Pad() returns (len: int)
      requires IsDataSize(datasz) && xor.Length == datasz + 2 && f.pos <= |f.data|
      requires boff <= offset && Missing() > 0
      modifies f, xor
      ensures len == offset - boff
      ensures f.data == Overwrite(old(f.data), old(f.pos), Padding(Missing(), len, crc))
      ensures f.pos == old(f.pos) + |Padding(Missing(), len, crc)| <= |f.data|
      ensures xor[..] == Absorbed(old(xor[..]), datasz, Le16(len))
    {
      hide Crc32c.Crc, Overwrite, Le16, Le32, Absorbed, Zeros;
      ghost var data, pos := f.data, f.pos;
      len := offset - boff;
      var n := datasz - len;
      if boff == 0 { n := n - HDRSZ; }
      var pad := Zeros(n);
      var c := Crc32c.Crc(crc, pad);
      f.Write(pad);
      var olen := Le16(len);
      Absorb(xor, datasz, olen);
      Crc32c.CrcComposes(crc, pad, olen);
      c := Crc32c.Crc(c, olen);
      OverwriteTwice(data, pos, pad, olen);
      f.Write(olen);
      OverwriteTwice(data, pos, pad + olen, Le32(c));
      OverwritePrefix(data, pos, pad + olen + Le32(c));
      f.Write(Le32(c));
    }

    /** The end of crcClose(): the rest of the last block, and the exclusive-or as the parity block. */
    method Finish()
      requires IsDataSize(datasz) && xor.Length == datasz + 2 && f.pos <= |f.data|
      requires boff <= offset && Missing() > 0
      modifies f, xor
      ensures f.data == Overwrite(old(f.data), old(f.pos), Closing(Missing(), offset - boff, crc, old(xor[..])))
    {
      hide Crc32c.Crc, Overwrite, Le16, Le32, Absorbed, Padding;
      ghost var data, pos := f.data, f.pos;
      var len := Pad();
      var x := xor[..];
      ghost var pad := Padding(Missing(), len, crc);
      OverwriteTwice(data, pos, pad, x);
      f.Write(x);
      OverwriteTwice(data, pos, pad + x, Le32(Crc32c.Crc(0, x)));
      f.Write(Le32(Crc32c.Crc(0, x)));
      assert pad + x + Le32(Crc32c.Crc(0, x)) == pad + Seal(x);
    }

    /** The file position is inside the file, or at its end. */
    lemma Positioned()
      requires Emitting()
      ensures f.pos <= |f.data|
    {
      hide Crc32c.Crc, Header, Absorbed, Output, Accumulated, DataSize, Times, Pending;
      OverwritePrefix(orig, Base(), Output(datasz, Stream(bits, content), start, blk));
    }

    /** What Finish() makes of a stream that was written. */
    lemma WritingFinishes()
      requires Writing()
      ensures WriteShape() && IsDataSize(datasz) && boff <= offset && Missing() > 0 && f.pos <= |f.data|
      ensures var bodies := DataBodies(bits, content);
              && start < |bodies| && Base() <= |orig|
              && Overwrite(f.data, f.pos, Closing(Missing(), offset - boff, crc, xor[..]))
                 == Overwrite(orig, Base(), Image(bodies[start..] + [XorBytes(defect, Parity(bodies, datasz + 2))]))
    {
      hide Crc32c.Crc, Header, Absorbed, Output, Accumulated, Overwrite, DataSize, Times, XorBytes, Parity, Closing;
      hide DataBodies, Image, Stream;
      Account();
      Positioned();
      ClosingMeans(bits, content, start, blk, defect);
      ghost var s := Stream(bits, content);
      OverwriteTwice(orig, Base(), Output(datasz, s, start, blk), Closing(Missing(), offset - boff, crc, xor[..]));
    }

    /** And of a stream whose first write failed. */
    lemma LostFinishes(k: nat, x: seq<byte>)
      requires xor.Length == datasz + 2 == |x| && Stuck(k, offset, x)
      ensures IsDataSize(datasz) && boff <= offset && Missing() > 0 && f.pos <= |f.data|
      ensures var len := offset - Boff(datasz, k);
              && 0 < len < FullLen(datasz, k)
              && Littered(Overwrite(f.data, f.pos, Closing(Missing(), len, crc, xor[..])), f.data, k, datasz, len, x)
    {
      hide DataSize, FullCount, Times, Overwrite, BadEnd, BadXor, Closing, Scannable;
      BoffStep(datasz, k);
      BoffZero(datasz, k);
    }

    /**
     crcClose() of a stream that was written: the short block and the parity block.
     Where the first part of the block to be rewritten cannot be read back, it goes
     on all the same: without that part, and wherever reading left the file.
     */
    method CloseWriter() returns (rc: int, ghost ok: bool)
      requires Writing() || ReadyToWrite()
      modifies this, f, xor
      ensures rc == 0
      ensures !ok ==>
        && old(ReadyToWrite()) && !old(lay.Whole(f.data))
        && var k := old(Target()); var len := old(offset) - Boff(datasz, k);
        && 0 < len < FullLen(datasz, k) && Littered(f.data, old(f.data), k, datasz, len, old(xor[..]))
      ensures ok ==>
        var bodies := DataBodies(bits, content);
        && WriteShape() && start < |bodies| && Base() <= |orig|
        && f.data == Overwrite(orig, Base(),
             Image(bodies[start..] + [XorBytes(defect, Parity(bodies, datasz + 2))]))
      ensures ok && !old(didseek) ==>
        content == old(content) && start == old(start) && orig == old(orig) && defect == old(defect)
      ensures ok && old(didseek) ==>
        && content == old(lay.data[..offset])
        && start == old(Target()) && orig == old(f.data) && defect == old(lay.Defect(xto))
    {
      hide DataSize, FullCount, Times, Layout.Whole, Layout.Defect, DataBodies, Image, Overwrite, Parity, XorBytes;
      hide Emitting, Littered, Closing, GaveUp;
      // in case crcWrite not called, make sure header exists
      ghost var k, x := 0, xor[..];
      if didseek { k := Target(); }
      ok := CrcWrite([]);
      if ok { WritingFinishes(); } else { LostFinishes(k, x); }
      Finish();
      rc := 0;
    }

    // ---------------------------------------------------------------- repair

    /** One round of the scan: read block c; its body goes into `xor` unless the CRC fails. */
    method ScanBlock(ghost c: nat, ghost n: nat) returns (bad: bool)
      requires xor.Length == datasz + 2 && datasz >= 0
      requires c < n && |f.data| == Times(n, datasz + PER_BLK) && f.pos == Times(c, datasz + PER_BLK)
      requires xor[..] == Parity(GoodBodies(f.data, c, datasz + 2), datasz + 2)
      modifies f`pos, xor
      ensures f.pos == Times(c + 1, datasz + PER_BLK)
      ensures bad <==> BadBlock(f.data, c, datasz + 2)
      ensures xor[..] == Parity(GoodBodies(f.data, c + 1, datasz + 2), datasz + 2)
    {
      hide Checks, Crc32c.Crc, XorBytes, Parity, GoodBodies, Times, Raw, Slice;
      WholeBlock(f.data, n, c, datasz + 2);
      GoodBodiesStep(f.data, c, datasz + 2);
      CheckMeans(Raw(f.data, c, datasz + 2), datasz + 2);
      var buf := f.Read(datasz + 2);
      var crcField := f.Read(4);
      bad := |crcField| != 4 || FromLe32(crcField) != Crc32c.Crc(0, buf);
      if !bad {
        Absorb(xor, 0, buf);
        AbsorbedWhole(Parity(GoodBodies(f.data, c, datasz + 2), datasz + 2), buf);
      }
    }

    /**
     crcCheckVerify(): count the blocks that fail their CRC and xor the bodies of
     the others.  With one bad block, report the bytes of its body that differ from
     that xor as (offset in the file, byte found, byte expected).
     */
    method CheckVerify() returns (errors: nat, firstError: nat, report: seq<(nat, byte, byte)>)
      requires xor.Length == datasz + 2 && datasz > 0 && |f.data| % (datasz + PER_BLK) == 0
      modifies f`pos, xor
      ensures CrcRepair.Scan(errors, firstError, xor[..], report)
              == ScanOf(f.data, |f.data| / (datasz + PER_BLK), datasz + 2)
      ensures f.pos == ScanEnd(f.data, |f.data| / (datasz + PER_BLK), datasz + 2)
    {
      hide Checks, Crc32c.Crc, XorBytes, Parity, Differences, Times, GoodBodies, Slice;
      var n := |f.data| / (datasz + PER_BLK);
      BlocksInFile(f.data, n, datasz + 2);
      f.Seek(0);
      Clear(xor);
      errors, firstError, report := 0, 0, [];
      NoGoodBodies(f.data, datasz + 2);
      for c := 0 to n
        invariant f.pos == Times(c, datasz + PER_BLK)
        invariant errors == c - |GoodBodies(f.data, c, datasz + 2)|
        invariant xor[..] == Parity(GoodBodies(f.data, c, datasz + 2), datasz + 2)
        invariant firstError == LastBad(f.data, c, datasz + 2)
      {
        GoodBodiesStep(f.data, c, datasz + 2);
        TimesIsProduct(c, datasz + PER_BLK);
        var bad := ScanBlock(c, n);
        if bad {
          errors := errors + 1;
          firstError := c * (datasz + PER_BLK);
        }
      }
      if errors == 1 {
        f.Seek(firstError);
        var buf := f.Read(datasz + 2);
        report := Differences(firstError, buf, xor[..]);
      }
    }
  }

  /** n zeros, the length field, and a CRC that continues c. */
  function Padding(n: int, len: int, c: u32): seq<byte>
    requires n >= 0 && 0 <= len < 0x1_0000
  {
    Zeros(n) + Le16(len) + Le32(Crc32c.Crc(c, Zeros(n) + Le16(len)))
  }

  /** What crcClose() writes: padding, and the exclusive-or with the length in it as a block. */
  ghost function Closing(n: int, len: int, c: u32, x: seq<byte>): seq<byte>
    requires n >= 0 && 0 <= len < 0x1_0000 && |x| >= 2
  {
    Padding(n, len, c) + Seal(Absorbed(x, |x| - 2, Le16(len)))
  }

  /** It completes what was written so far. */
  lemma ClosingMeans(bits: int, data: seq<byte>, start: nat, n: nat, defect: seq<byte>)
    requires IsBits(bits) && start <= n && |defect| == DataSize(bits) + 2
    requires Times(n, DataSize(bits)) <= HDRSZ + |data| < Times(n + 1, DataSize(bits))
    ensures var d, s := DataSize(bits), Stream(bits, data); var len := |data| - Boff(d, n);
            var p, bodies := Pending(d, s, n), DataBodies(bits, data);
            && 0 <= len < 0x1_0000 && |p| <= d && start < |bodies|
            && Output(d, s, start, n) + Closing(d - |p|, len, Crc32c.Crc(0, p), Accumulated(d, s, n, defect))
               == Image(bodies[start..] + [XorBytes(defect, Parity(bodies, d + 2))])
  {
    hide Crc32c.Crc, Le16, Le32, DataSize, Times, Stream, FullCount, Output, Accumulated, Parity, XorBytes, Absorbed;
    hide DataBodies, Image, Pending, FullBodies;
    LastBodySeals(bits, data, start, n);
    LastParity(bits, data, n, defect);
    var d, s := DataSize(bits), Stream(bits, data);
    var len, p, bodies := |data| - Boff(d, n), Pending(d, s, n), DataBodies(bits, data);
    var x := XorBytes(defect, Parity(bodies, d + 2));
    Crc32c.CrcComposes(0, p, Zeros(d - |p|) + Le16(len));
    Associate(p, Zeros(d - |p|), Le16(len));
    ImageSnoc(bodies[start..], x);
    FourTogether(Output(d, s, start, n), Zeros(d - |p|), Le16(len), Le32(Crc32c.Crc(0, p + Zeros(d - |p|) + Le16(len))),
                 Seal(x));
  }

  lemma FourTogether(a: seq<byte>, b: seq<byte>, c: seq<byte>, d: seq<byte>, e: seq<byte>)
    ensures a + (b + c + d + e) == a + b + c + d + e
  {
  }

  /** Block k could not be read back: its rest and the parity block stand where that left the file position. */
  ghost predicate Littered(now: seq<byte>, was: seq<byte>, k: nat, d: int, len: int, x: seq<byte>)
    requires IsDataSize(d) && 0 <= len < FullLen(d, k) && |x| == d + 2
  {
    Scannable(was, k, d + 2) ==>
      && BadEnd(was, k, d + 2) <= |was|
      && now == Overwrite(was, BadEnd(was, k, d + 2),
                  Closing(FullLen(d, k) - len, len, 0, BadXor(was, k, d + 2, x)))
  }

  lemma CutOffEnds(file: seq<byte>, k: nat, w: nat, x: seq<byte>)
    requires |Raw(file, k, w)| < w + 4 && |x| == w
    ensures BadEnd(file, k, w) == |file| && BadXor(file, k, w, x) == x
    ensures Times(k, w + 4) <= |file| ==> Times(k, w + 4) + |Raw(file, k, w)| == |file|
  {
  }

  lemma FrontOfBlock(data: seq<byte>, at: nat, n: nat, buf: seq<byte>, len: nat)
    requires len <= n <= |buf| && at + n <= |data| && buf[..n] == data[at..at + n]
    ensures data[..at] + buf[..len] == data[..at + len]
  {
    assert buf[..len] == buf[..n][..len] == data[at..at + len];
  }

  lemma FitsWhole(file: seq<byte>, k: nat, w: nat)
    requires |Raw(file, k, w)| == w + 4
    ensures Times(k, w + 4) + w + 4 <= |file|
  {
    assert Times(k + 1, w + 4) == Times(k, w + 4) + w + 4;
  }

  lemma NotCutOff(file: seq<byte>, k: nat, w: nat, x: seq<byte>)
    requires |Raw(file, k, w)| == w + 4 && |x| == w
    ensures BadEnd(file, k, w) == ScanEnd(file, |file| / (w + 4), w)
    ensures BadXor(file, k, w, x) == ScanOf(file, |file| / (w + 4), w).xor
  {
  }

  lemma BlockIsSlice(file: seq<byte>, k: nat, w: nat)
    ensures Raw(file, k, w) == Slice(file, Times(k, w + 4), w + 4)
    ensures Times(k + 1, w + 4) == Times(k, w + 4) + w + 4
  {
  }

  /** Two reads in a row read what one longer read would. */
  lemma SliceSplit(data: seq<byte>, here: nat, a: nat, b: nat)
    ensures var first := Slice(data, here, a); var second := Slice(data, here + |first|, b);
            && Slice(data, here, a + b) == first + second
            && (|first| < a ==> second == [])
  {
    var end := |data|;
    var i, j, k := Min(here, end), Min(here + a, end), Min(here + a + b, end);
    var first := Slice(data, here, a);
    assert first == data[i..j] && |first| == j - i;
    assert Min(here + |first|, end) == j && Min(here + |first| + b, end) == k;
    assert data[i..k] == data[i..j] + data[j..k];
  }

  lemma FourParts(a: seq<byte>, b: seq<byte>, c: seq<byte>, e: seq<byte>)
    ensures var s := a + b + c + e; var i, j, k := |a|, |a| + |b|, |a| + |b| + |c|;
            |s| == k + |e| && s[..i] == a && s[i..j] == b && s[j..k] == c && s[k..] == e
  {
  }

  /** Reading a block field by field, also where the file ends inside the block. */
  lemma SliceFields(data: seq<byte>, here: nat, at: nat, d: nat)
    requires at <= d
    ensures var h := Slice(data, here, at);
            var buf := Slice(data, here + |h|, d - at);
            var len := Slice(data, here + |h| + |buf|, 2);
            var c := Slice(data, here + |h| + |buf| + |len|, 4);
            var raw := Slice(data, here, d + 6);
            && (|c| == 4 <==> |raw| == d + 6)
            && |h| + |buf| + |len| + |c| == |raw|
            && (|c| == 4 ==> h == raw[..at] && buf == raw[at..d] && len == raw[d..d + 2] && c == raw[d + 2..])
            && (at == 0 ==> h == [])
  {
    hide Slice;
    SliceSplit(data, here, at, d - at);
    SliceSplit(data, here, d, 2);
    SliceSplit(data, here, d + 2, 4);
    var h := Slice(data, here, at);
    var buf := Slice(data, here + |h|, d - at);
    var len := Slice(data, here + |h| + |buf|, 2);
    var c := Slice(data, here + |h| + |buf| + |len|, 4);
    assert Slice(data, here, d + 6) == h + buf + len + c;
    FourParts(h, buf, len, c);
  }

  lemma FieldsJoin(raw: seq<byte>, at: nat, d: nat, x: seq<byte>)
    requires at <= d && d + 2 == |x| <= |raw|
    ensures var h, buf, len := raw[..at], raw[at..d], raw[d..d + 2];
            && Crc32c.Crc(Crc32c.Crc(Crc32c.Crc(0, h), buf), len) == Crc32c.Crc(0, raw[..d + 2])
            && Absorbed(Absorbed(Absorbed(x, 0, h), at, buf), d, len) == XorBytes(x, raw[..d + 2])
            && (at == 0 ==> Crc32c.Crc(0, h) == 0 && Absorbed(x, 0, h) == x)
  {
    hide Crc32c.Crc, Absorbed, XorBytes;
    var h, buf, len := raw[..at], raw[at..d], raw[d..d + 2];
    assert raw[..d] == h + buf && raw[..d + 2] == raw[..d] + len;
    Crc32c.CrcComposes(0, h, buf);
    Crc32c.CrcComposes(0, h + buf, len);
    AbsorbedTwice(x, 0, h, buf);
    AbsorbedTwice(x, 0, h + buf, len);
    AbsorbedWhole(x, raw[..d + 2]);
    Crc32c.CrcOfNothing(0);
  }
}
