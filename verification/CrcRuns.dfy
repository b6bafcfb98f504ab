/** Whole runs of the CRC/XOR stream of utils/fopen_crc.c: writing, reading, seeking, appending. */
module CrcRuns {
  import opened Bits
  import opened CrcFormat
  import opened CrcLayout
  import opened CrcRepair
  import opened Stdio
  import opened FcrcStream
  import opened Wrappers
  import CrcBytes
  import Crc32c

  /** All chunks of a run of writes, one after the other. */
  function Join(chunks: seq<seq<byte>>): seq<byte>
  {
    if chunks == [] then [] else Join(chunks[..|chunks| - 1]) + chunks[|chunks| - 1]
  }

  /** The reader's view of an undamaged file. */
  ghost function IntactLayout(bits: int, data: seq<byte>): (lay: Layout)
    requires IsBits(bits)
    ensures lay.Valid() && lay.bits == bits && lay.data == data
  {
    Layout(bits, data, Parity(DataBodies(bits, data), DataSize(bits) + 2))
  }

  lemma IntactBodies(bits: int, data: seq<byte>)
    requires IsBits(bits)
    ensures IntactLayout(bits, data).Bodies() == AllBodies(bits, data)
    ensures Image(IntactLayout(bits, data).Bodies()) == Closed(bits, data)
  {
    hide DataSize, Parity, DataBodies, Image;
  }

  /** A reader's view of a file that begins with the image of the bodies. */
  lemma ImageIsFramed(lay: Layout, file: seq<byte>)
    requires lay.Valid() && Image(lay.Bodies()) <= file
    ensures lay.Frames(file) && lay.Good(file, 0, lay.Last() + 2) && OpeningOf(file) == Current(lay.bits)
  {
    hide DataSize, Image, Seal, Layout.Bodies, FullCount, Raw, Checks, OpeningOf;
    forall k | 0 <= k < lay.Last() + 2
      ensures lay.Block(file, k) == Seal(lay.Bodies()[k]) && lay.BlockOk(file, k)
    {
      BlockOfImage(file, lay.Bodies(), k, DataSize(lay.bits) + 2);
      SealChecks(lay.Bodies()[k]);
    }
    HeaderInFront(lay, file);
  }

  lemma WholeIsFramed(bits: int, data: seq<byte>, file: seq<byte>)
    requires IsBits(bits) && Closed(bits, data) <= file
    ensures IntactLayout(bits, data).Frames(file) && OpeningOf(file) == Current(bits)
  {
    hide Closed, IntactLayout, OpeningOf, Layout.Frames, Layout.Bodies;
    IntactBodies(bits, data);
    ImageIsFramed(IntactLayout(bits, data), file);
  }

  /** Where neither is cut off, block k of `file` has the bytes of `was`, but for four at i. */
  ghost predicate SameBut(file: seq<byte>, was: seq<byte>, k: nat, p: nat, i: nat)
  {
    forall j :: Times(k, p) <= j < Times(k, p) + p && j < |file| && j < |was| && !(i <= j < i + 4) ==>
      file[j] == was[j]
  }

  /** At most four bytes in a row of block k are changed. */
  ghost predicate Burst(file: seq<byte>, was: seq<byte>, k: nat, p: nat)
  {
    exists i: nat :: SameBut(file, was, k, p, i)
  }

  /**
   A file cut off anywhere or with anything behind it, and with at most four bytes
   in a row of every block of p bytes changed.
   */
  ghost predicate Damaged(file: seq<byte>, was: seq<byte>, p: nat)
  {
    forall k: nat :: Burst(file, was, k, p)
  }

  /** No such damage leaves a changed block that passes its CRC. */
  lemma DamageIsFramed(bits: int, data: seq<byte>, file: seq<byte>)
    requires IsBits(bits) && Damaged(file, Closed(bits, data), Pow2(bits))
    ensures IntactLayout(bits, data).Frames(file)
  {
    hide DataSize, Parity, DataBodies, Seal, Raw, Image, FullCount, Checks, Pow2, Times, SameBut;
    var lay, w := IntactLayout(bits, data), DataSize(bits) + 2;
    lay.ClosedSize();
    BlockSize(bits);
    forall k | 0 <= k < lay.Last() + 2 && lay.BlockOk(file, k)
      ensures lay.Block(file, k) == Seal(lay.Bodies()[k])
    {
      assert Burst(file, Closed(bits, data), k, w + 4);
      var i: nat :| SameBut(file, Closed(bits, data), k, w + 4, i);
      ImageBlock(AllBodies(bits, data), k, w);
      BlockFits(lay, k);
      DamagedBlock(file, Closed(bits, data), k, w, lay.Bodies()[k], i);
    }
  }

  lemma BlockFits(lay: Layout, k: nat)
    requires lay.Valid() && k < lay.Last() + 2
    ensures Times(k + 1, DataSize(lay.bits) + PER_BLK) <= |Closed(lay.bits, lay.data)|
  {
    hide DataSize, Closed;
    lay.ClosedSize();
    if k + 1 < lay.Last() + 2 { TimesGrows(k + 1, lay.Last() + 2, DataSize(lay.bits) + PER_BLK); }
  }

  lemma DamagedBlock(file: seq<byte>, was: seq<byte>, k: nat, w: nat, body: seq<byte>, i: nat)
    requires |body| == w && Times(k + 1, w + 4) <= |was| && Raw(was, k, w) == Seal(body)
    requires SameBut(file, was, k, w + 4, i)
    ensures BadBlock(file, k, w) || Raw(file, k, w) == Seal(body)
  {
    hide Crc32c.Crc, FromLe32, Le32;
    var at, raw := Times(k, w + 4), Raw(file, k, w);
    assert Times(k + 1, w + 4) == at + w + 4;
    if at + w + 4 <= |file| && raw != Seal(body) {
      assert forall j :: 0 <= j < w + 4 ==> raw[j] == file[at + j] && Seal(body)[j] == was[at + j];
      assert forall j :: 0 <= j < w + 4 && !(i <= at + j < i + 4) ==> raw[j] == Seal(body)[j];
      BurstIsBad(file, k, w, body, if i < at then 0 else if i <= at + w + 4 then i - at else w + 4);
    }
  }

  lemma FirstBody(bits: int, data: seq<byte>)
    requires IsBits(bits)
    ensures DataBodies(bits, data)[0][..HDRSZ] == Header(bits)
  {
    hide DataSize, FullCount, Header, DataBodies;
    BodyIsStream(bits, data, 0);
    TimesFromZero(DataSize(bits));
    var b := DataBodies(bits, data)[0];
    var m := if 0 < |DataBodies(bits, data)| - 1 then DataSize(bits) else HDRSZ + |data|;
    assert b[..HDRSZ] == b[..m][..HDRSZ];
    assert Stream(bits, data)[0..m][..HDRSZ] == Header(bits);
  }

  /** A sound first block begins with the header. */
  lemma HeaderInFront(lay: Layout, file: seq<byte>)
    requires lay.Valid() && lay.Frames(file) && lay.BlockOk(file, 0)
    ensures OpeningOf(file) == Current(lay.bits)
  {
    hide Header, DataSize, FullCount, DataBodies, Le32, Checks, Crc32c.Crc, ParseHeader;
    var w := DataSize(lay.bits) + 2;
    FirstBody(lay.bits, lay.data);
    TimesFromZero(w + 4);
    assert lay.Block(file, 0) == Seal(lay.Bodies()[0]) && lay.Bodies()[0] == DataBodies(lay.bits, lay.data)[0];
    assert file[..HDRSZ] == Seal(lay.Bodies()[0])[..HDRSZ] == Header(lay.bits);
    assert file == Header(lay.bits) + file[HDRSZ..];
    HeaderParses(lay.bits, file[HDRSZ..]);
  }

  lemma TimesFromZero(w: nat)
    ensures Times(0, w) == 0 && Times(1, w) == w
  {
  }

  /** What a seek that asks for the size needs of the file. */
  lemma ClosedEnds(bits: int, data: seq<byte>)
    requires IsBits(bits)
    ensures IntactLayout(bits, data).Ends(Closed(bits, data))
    ensures |Closed(bits, data)| % Pow2(bits) == 0 && |Closed(bits, data)| >= 2 * Pow2(bits)
  {
    hide DataSize, FullCount, Closed, Pow2, IntactLayout, Times;
    var lay := IntactLayout(bits, data);
    lay.ClosedSize();
    BlockSize(bits);
    WholeNumber(lay.Last() + 2, Pow2(bits));
  }

  lemma BlockSize(bits: int)
    requires IsBits(bits)
    ensures Pow2(bits) == DataSize(bits) + PER_BLK
  {
  }

  lemma WholeNumber(n: nat, p: nat)
    requires p > 0 && n >= 2
    ensures Times(n, p) % p == 0 && Times(n, p) >= 2 * p
  {
    TimesIsProduct(n, p);
    DivisionOfTimes(n, p);
    assert Times(n, p) == Times(n, p) / p * p + Times(n, p) % p;
    assert Times(2, p) == 2 * p;
    if n > 2 { TimesGrows(2, n, p); }
  }

  // ----------------------------------------------------------------- writing

  /** A new file is complete and sound, however the data is cut into writes. */
  lemma NewFile(bits: int, data: seq<byte>)
    requires IsBits(bits)
    ensures var bodies, w := DataBodies(bits, data), DataSize(bits) + 2;
            Overwrite([], 0, Image(bodies[0..] + [XorBytes(Zeros(w), Parity(bodies, w))])) == Closed(bits, data)
  {
    hide Parity, DataSize, DataBodies, Image, Zeros, XorBytes;
    var bodies, w := DataBodies(bits, data), DataSize(bits) + 2;
    XorBytesZero(Parity(bodies, w));
    assert bodies[0..] == bodies;
  }

  lemma HeaderOnly(d: int)
    requires IsDataSize(d)
    ensures FullCount(d, HDRSZ) == 0 && Times(0, d + PER_BLK) == 0
  {
    TimesFromZero(d);
    FullCountUnique(d, HDRSZ, 0);
  }

  /** A new file, written in any pieces. */
  method WriteFile(bits: int, chunks: seq<seq<byte>>) returns (f: File)
    requires IsBits(bits)
    ensures fresh(f) && f.data == Closed(bits, Join(chunks))
    ensures CrcBytes.LaidOut(f.data, bits, Join(chunks))
  {
    hide DataSize, Closed, Parity, DataBodies, Image, XorBytes, Zeros, Times, FullCount, Overwrite, Layout.Defect;
    hide Fcrc.Emitting, Fcrc.Reading;
    f := new File([]);
    var fc := new Fcrc.ForWriting(f, bits);
    assert chunks[..0] == [];
    for i := 0 to |chunks|
      invariant fc.f == f && fc.bits == bits && fresh(fc) && fresh(fc.xor)
      invariant i == 0 ==> fc.ReadyToWrite() && fc.offset == 0 && fc.lay.data == [] && f.data == []
                           && fc.lay.Defect(fc.xto) == Zeros(DataSize(bits) + 2)
      invariant i > 0 ==> fc.Writing() && fc.content == Join(chunks[..i]) && fc.start == 0 && fc.orig == []
                          && fc.defect == Zeros(DataSize(bits) + 2)
    {
      assert chunks[..i + 1][..i] == chunks[..i];
      HeaderOnly(fc.datasz);
      var ok := fc.CrcWrite(chunks[i]);
    }
    assert chunks[..|chunks|] == chunks;
    HeaderOnly(fc.datasz);
    ghost var done;
    var rc;
    rc, done := fc.CloseWriter();
    NewFile(bits, Join(chunks));
    CrcBytes.ClosedIsLaidOut(bits, Join(chunks));
  }

  // ----------------------------------------------------------------- reading

  /** An open reader whose reads return data. */
  ghost predicate Live(fc: Fcrc)
    reads fc, fc.f, fc.xor
  {
    fc.Reading() && !fc.Lost()
  }

  /** Once a read returned nothing, all later ones did. */
  predicate Tapers(got: seq<seq<byte>>)
  {
    forall i, j :: 0 <= i < j < |got| && got[i] == [] ==> got[j] == []
  }

  lemma {:induction false} TapersOn(got: seq<seq<byte>>, buf: seq<byte>)
    requires Tapers(got) && ([] in got ==> buf == [])
    ensures Tapers(got + [buf]) && Join(got + [buf]) == Join(got) + buf
  {
    var all := got + [buf];
    JoinGrows(got, buf);
    forall i, j | 0 <= i < j < |all| && all[i] == []
      ensures all[j] == []
    {
      if j == |got| && i < |got| - 1 { assert got[|got| - 1] == []; }
    }
  }

  lemma {:induction false} JoinGrows(got: seq<seq<byte>>, buf: seq<byte>)
    ensures Join(got + [buf]) == Join(got) + buf
  {
    assert (got + [buf])[..|got|] == got;
  }

  /** Reads that return something use the data up. */
  lemma {:induction false} EarlyEnd(got: seq<seq<byte>>)
    requires Tapers(got)
    ensures forall i :: |Join(got)| <= i < |got| ==> got[i] == []
    ensures |Join(got)| < |got| ==> [] in got
  {
    if got != [] {
      var init, last := got[..|got| - 1], got[|got| - 1];
      EarlyEnd(init);
      forall i | |Join(got)| <= i < |got|
        ensures got[i] == []
      {
        if i < |init| {
          assert init[i] == [];
        } else if last != [] {
          // all reads before returned something, so there is at least one byte for each
          NoneEmpty(init, last);
        }
      }
    }
  }

  lemma {:induction false} NoneEmpty(init: seq<seq<byte>>, last: seq<byte>)
    requires Tapers(init + [last]) && last != []
    ensures |Join(init)| >= |init|
  {
    if init != [] {
      var first, mid := init[..|init| - 1], init[|init| - 1];
      assert (init + [last])[|init| - 1] == mid && (init + [last])[|init|] == last;
      assert forall i :: 0 <= i < |init| ==> init[i] == (init + [last])[i];
      assert first + [mid] == init;
      NoneEmpty(first, mid);
    }
  }

  /** What a stream read from the start is in front of every bad block, or in it. */
  lemma ReadsGood(fc: Fcrc, from: nat, room: int)
    requires fc.Reading() && !fc.didseek && fc.doXor && fc.xfrom == 0
    requires from <= fc.offset && fc.blk == fc.lay.Unread(from, fc.offset, room)
    ensures fc.lay.Within(fc.f.data, fc.offset)
  {
    hide DataSize, FullCount, Layout.Last, Layout.Off, Layout.Unread, Layout.XorOf;
    hide Layout.Frames, Layout.Good, Layout.Within;
    fc.lay.UnreadCovers(from, fc.offset, room);
    fc.lay.GoodUpTo(fc.f.data, fc.blk, fc.offset);
  }

  /**
   Any run of non-empty reads returns the data from the offset on, piece by piece;
   every read makes progress until the end is reached, where every read returns 0.
   A run fails only on a file that does not begin as crcClose() left it; what it read
   before is data all the same, and lacks no more than a block of what is in front of
   the bad one.  From the start of the file nothing behind a bad block is read, and
   the end is only found in a file that begins as crcClose() left it.
   */
  method ReadRun(fc: Fcrc, sizes: seq<nat>) returns (ok: bool, got: seq<seq<byte>>)
    requires Live(fc) && forall i :: 0 <= i < |sizes| ==> sizes[i] > 0
    modifies fc, fc.f`pos, fc.xor
    ensures fc.lay == old(fc.lay)
    ensures |got| <= |sizes| && Tapers(got) && forall i :: 0 <= i < |got| ==> |got[i]| <= sizes[i]
    ensures old(fc.offset) <= |fc.lay.data| && Join(got) <= fc.lay.data[old(fc.offset)..]
    ensures [] in got ==> Join(got) == fc.lay.data[old(fc.offset)..]
    ensures !ok ==> !fc.lay.Whole(fc.f.data) && fc.lay.Stopped(fc.f.data, old(fc.offset) + |Join(got)|)
    ensures ok ==> Live(fc) && |got| == |sizes| && fc.offset == old(fc.offset) + |Join(got)|
    ensures old(fc.didseek && fc.offset == 0) ==>
      fc.lay.Within(fc.f.data, |Join(got)|) && ([] in got ==> fc.lay.Whole(fc.f.data))
  {
    hide Closed, Layout.Frames, FullCount, DataSize, Fcrc.InStep, Fcrc.XorCovers, Fcrc.XorUpToDate, Fcrc.CacheHolds;
    hide Tapers, Join, Fcrc.Near, Layout.Stopped, Layout.Within, Layout.Unread, Layout.Whole, Layout.Last;
    got := [];
    TapersNone();
    FromStart(fc.lay, fc.f.data);
    InARow(fc.lay.data, fc.offset, fc.offset, fc.offset);
    ghost var start := fc.didseek && fc.offset == 0;
    for i := 0 to |sizes|
      invariant Live(fc) && |got| == i && fc.lay == old(fc.lay) && Tapers(got)
      invariant fc.offset == old(fc.offset) + |Join(got)|
      invariant Join(got) == fc.lay.data[old(fc.offset)..fc.offset] <= fc.lay.data[old(fc.offset)..]
      invariant forall j :: 0 <= j < i ==> |got[j]| <= sizes[j]
      invariant [] in got ==> fc.offset == |fc.lay.data|
      invariant start ==> fc.lay.Within(fc.f.data, fc.offset) && if i == 0 then fc.didseek else !fc.didseek
      invariant start && i > 0 ==> fc.doXor && fc.xfrom == 0 && ([] in got ==> fc.xorchkd)
    {
      ghost var from := fc.offset;
      var n, buf := fc.CrcRead(sizes[i]);
      if n < 0 { return false, got; }
      if start { ReadsGood(fc, from, sizes[i] - n); }
      TapersOn(got, buf);
      InARow(fc.lay.data, old(fc.offset), from, fc.offset);
      got := got + [buf];
    }
    ok := true;
  }

  lemma InARow(data: seq<byte>, i: nat, j: nat, k: nat)
    requires i <= j <= k <= |data|
    ensures data[i..j] + data[j..k] == data[i..k] && data[i..k] <= data[i..]
    ensures k == |data| ==> data[i..k] == data[i..]
  {
  }

  lemma FromStart(lay: Layout, file: seq<byte>)
    requires lay.Valid()
    ensures lay.Within(file, 0) && FullCount(DataSize(lay.bits), HDRSZ) == 0
  {
    HeaderOnly(DataSize(lay.bits));
  }

  lemma TapersNone()
    ensures Tapers([]) && Join([]) == []
  {
  }

  /** Open an undamaged file, whatever may stand behind it. */
  method OpenWhole(f: File, update: bool, chkxor: bool, ghost bits: int, ghost data: seq<byte>) returns (fc: Fcrc)
    requires IsBits(bits) && Closed(bits, data) <= f.data && f.pos == 0
    modifies f`pos
    ensures fresh(fc) && fresh(fc.xor) && fc.f == f && fc.lay == IntactLayout(bits, data)
    ensures Live(fc) && fc.offset == 0 && fc.didseek && fc.write == update && fc.chkxor == chkxor
    ensures fc.filesz == -1
    ensures f.data == Closed(bits, data) ==> fc.lay.Ends(f.data)
    ensures |f.data| % Pow2(bits) == 0 ==> fc.WholeBlocks()
    ensures f.data == Closed(bits, data) ==> fc.WholeBlocks()
  {
    hide Closed, Layout.Frames, Layout.Ends, FullCount, DataSize, Pow2, OpeningOf, IntactLayout;
    hide Fcrc.InStep, Fcrc.XorCovers, Fcrc.XorUpToDate, Fcrc.CacheHolds;
    WholeIsFramed(bits, data, f.data);
    ClosedEnds(bits, data);
    BlockSize(bits);
    var r := Fcrc.FopenCrc(f, update, chkxor, IntactLayout(bits, data));
    fc := r;
  }

  /**
   Reads and the checking close, for any file and what is known to have been in it.
   Reads that come to an empty one have returned all the data of a file that begins
   as it was written; a run that fails has met a bad block or the end of the data.
   */
  method ReadAndClose(f: File, sizes: seq<nat>, ghost lay: Layout) returns (got: seq<seq<byte>>, rc: int)
    requires lay.Valid() && lay.Frames(f.data) && f.pos == 0
    requires OpeningOf(f.data).Current? ==> lay.bits == OpeningOf(f.data).bits
    requires forall i :: 0 <= i < |sizes| ==> sizes[i] > 0
    modifies f`pos
    ensures |got| <= |sizes| && Join(got) <= lay.data && forall i :: 0 <= i < |got| ==> |got[i]| <= sizes[i]
    ensures forall i :: |Join(got)| <= i < |got| ==> got[i] == []
    ensures [] in got || |got| >= |lay.data| ==> Join(got) == lay.data
    ensures [] in got ==> lay.Whole(f.data)
    ensures lay.Within(f.data, |Join(got)|)
    ensures |got| < |sizes| ==> lay.Stopped(f.data, |Join(got)|) && rc != 0
    ensures rc == 0 <==> lay.Whole(f.data) && OpeningOf(f.data).Current?
  {
    hide Layout.Frames, Layout.Whole, Layout.Within, Layout.Stopped, FullCount, DataSize, OpeningOf, Tapers, Join;
    hide Fcrc.InStep, Fcrc.XorCovers, Fcrc.XorUpToDate, Fcrc.CacheHolds, Fcrc.WholeBlocks, Fcrc.Near;
    TapersNone();
    FromStart(lay, f.data);
    got, rc := [], -1;
    var fc := Fcrc.FopenCrc(f, false, true, lay);
    if fc != null {
      var ok;
      ok, got := ReadRun(fc, sizes);
      if ok { rc := fc.CloseReader(); }
      EarlyEnd(got);
    } else {
      NotOpened(lay, f.data);
    }
  }

  lemma NotOpened(lay: Layout, file: seq<byte>)
    requires lay.Valid() && lay.Frames(file) && OpeningOf(file) != Current(lay.bits)
    ensures !lay.BlockOk(file, 0) && lay.Stopped(file, 0)
  {
    hide Layout.Frames, OpeningOf, Layout.BlockOk, FullCount, DataSize;
    if lay.BlockOk(file, 0) { HeaderInFront(lay, file); }
    assert lay.Blocked(file, 0);
  }

  /**
   From a file that begins as it was written, whatever may stand behind it: the data
   in pieces, all of it once a read returned nothing, then nothing forever; and the
   checking close finds nothing wrong.
   */
  method ReadWhole(f: File, sizes: seq<nat>, ghost bits: int, ghost data: seq<byte>)
    returns (got: seq<seq<byte>>, rc: int)
    requires IsBits(bits) && f.pos == 0 && Closed(bits, data) <= f.data
    requires forall i :: 0 <= i < |sizes| ==> sizes[i] > 0
    modifies f`pos
    ensures Join(got) <= data && |got| == |sizes| && forall i :: 0 <= i < |sizes| ==> |got[i]| <= sizes[i]
    ensures [] in got || |sizes| >= |data| ==> Join(got) == data
    ensures forall i :: |Join(got)| <= i < |sizes| ==> got[i] == []
    ensures rc == 0
  {
    hide Closed, Layout.Frames, Layout.Within, Layout.Stopped, IntactLayout, OpeningOf, Join;
    WholeIsFramed(bits, data, f.data);
    got, rc := ReadAndClose(f, sizes, IntactLayout(bits, data));
  }

  /**
   Written in any pieces and read in any pieces, the data comes back, all of it once
   a read returned nothing, then nothing forever; and the checking close finds nothing
   wrong.
   */
  method RoundTrip(bits: int, chunks: seq<seq<byte>>, sizes: seq<nat>) returns (got: seq<seq<byte>>, rc: int)
    requires IsBits(bits) && forall i :: 0 <= i < |sizes| ==> sizes[i] > 0
    ensures Join(got) <= Join(chunks) && |got| == |sizes| && forall i :: 0 <= i < |sizes| ==> |got[i]| <= sizes[i]
    ensures [] in got || |sizes| >= |Join(chunks)| ==> Join(got) == Join(chunks)
    ensures forall i :: |Join(got)| <= i < |sizes| ==> got[i] == []
    ensures rc == 0
  {
    hide Closed, Join;
    var f := WriteFile(bits, chunks);
    f.Seek(0);
    got, rc := ReadWhole(f, sizes, bits, Join(chunks));
  }

  /** A reader's view of a file whose first block is bad for its block size: there was no data. */
  ghost function AlienLayout(bits: int, file: seq<byte>): (lay: Layout)
    requires IsBits(bits)
    ensures lay.Valid() && lay.bits == bits && lay.data == []
  {
    var w := DataSize(bits) + 2;
    var raw := Raw(file, 1, w);
    Layout(bits, [], if Checks(raw, w) then raw[..w] else Zeros(w))
  }

  lemma AlienIsFramed(bits: int, file: seq<byte>)
    requires IsBits(bits) && BadBlock(file, 0, DataSize(bits) + 2)
    ensures AlienLayout(bits, file).Frames(file) && !AlienLayout(bits, file).Whole(file)
  {
    hide DataSize, Raw, FullCount, Seal, Checks, DataBodies, Layout.Whole;
    var lay, w := AlienLayout(bits, file), DataSize(bits) + 2;
    HeaderOnly(DataSize(bits));
    ChecksMeansSealed(Raw(file, 1, w), w);
    assert lay.Last() == 0 && !lay.BlockOk(file, 0);
    if lay.Whole(file) { lay.WholeIsGood(file); }
  }

  /** Another block size in the header means that the first block is bad. */
  lemma AlienReads(lay: Layout, file: seq<byte>)
    requires lay.Valid() && lay.Frames(file) && OpeningOf(file) != Current(lay.bits)
    ensures lay.Within(file, 0) && lay.Stopped(file, 0) && !lay.Whole(file)
  {
    hide Layout.Frames, OpeningOf, Layout.BlockOk, FullCount, DataSize, Layout.Stopped, Layout.Whole;
    NotOpened(lay, file);
    FromStart(lay, file);
    if lay.Whole(file) { lay.WholeIsGood(file); }
  }

  /**
   A file cut off, damaged in short bursts, or with anything behind it.  No read
   returns anything but data, and none of it is behind a bad block; a run that fails
   has read all blocks but one that are in front of the bad ones.  Reads come to an
   empty one, and the checking close returns 0, only for a file that begins as it was
   written; all the data is read then.  If the damage makes the header name another
   block size, the block it then begins with must fail its CRC.
   */
  method ReadDamaged(f: File, sizes: seq<nat>, ghost bits: int, ghost data: seq<byte>)
    returns (got: seq<seq<byte>>, rc: int)
    requires IsBits(bits) && f.pos == 0 && Damaged(f.data, Closed(bits, data), Pow2(bits))
    requires OpeningOf(f.data).Current? ==>
      var size := OpeningOf(f.data).bits; size == bits || BadBlock(f.data, 0, DataSize(size) + 2)
    requires forall i :: 0 <= i < |sizes| ==> sizes[i] > 0
    modifies f`pos
    ensures |got| <= |sizes| && Join(got) <= data && forall i :: 0 <= i < |got| ==> |got[i]| <= sizes[i]
    ensures [] in got ==> Join(got) == data && Closed(bits, data) <= f.data
    ensures IntactLayout(bits, data).Within(f.data, |Join(got)|)
    ensures |got| < |sizes| ==> IntactLayout(bits, data).Reaches(f.data, |Join(got)|) && rc != 0
    ensures rc == 0 <==> Closed(bits, data) <= f.data
  {
    hide Closed, Layout.Frames, FullCount, DataSize, Pow2, IntactLayout, AlienLayout, Damaged, OpeningOf, Join;
    hide BadBlock, Layout.Within, Layout.Stopped, Layout.Reaches;
    ghost var lay := IntactLayout(bits, data);
    ghost var h := OpeningOf(f.data);
    DamageIsFramed(bits, data, f.data);
    if Closed(bits, data) <= f.data { WholeIsFramed(bits, data, f.data); }
    if h.Current? && h.bits != bits {
      AlienIsFramed(h.bits, f.data);
      AlienReads(lay, f.data);
      lay := AlienLayout(h.bits, f.data);
    }
    got, rc := ReadAndClose(f, sizes, lay);
    if |got| < |sizes| {
      IntactLayout(bits, data).StopsLate(f.data, |Join(got)|);
    }
  }

  /** A byte behind the parity block is seen by no read and by no checking close. */
  lemma ByteBehind(bits: int, data: seq<byte>)
    requires IsBits(bits)
    ensures var file := Closed(bits, data) + [0];
            && file != Closed(bits, data) && Closed(bits, data) <= file
            && IntactLayout(bits, data).Frames(file) && OpeningOf(file) == Current(bits)
  {
    hide Closed, IntactLayout, OpeningOf;
    WholeIsFramed(bits, data, Closed(bits, data) + [0]);
  }

  /** After a seek to any offset that is not negative, reads return the data from there on. */
  method SeekAndRead(f: File, off: int, whence: Whence, before: seq<nat>, sizes: seq<nat>,
                     ghost bits: int, ghost data: seq<byte>) returns (r: Status, got: seq<seq<byte>>)
    requires IsBits(bits) && f.data == Closed(bits, data) && f.pos == 0 && whence != SeekCur
    requires forall i :: 0 <= i < |before| ==> before[i] > 0
    requires forall i :: 0 <= i < |sizes| ==> sizes[i] > 0
    modifies f`pos
    ensures var x := if whence == SeekEnd then off + |data| else off;
            && r == (if x < 0 then Einval else Ok(Min(x, |data|)))
            && (x >= 0 ==>
                 && Join(got) <= data[Min(x, |data|)..] && |got| == |sizes|
                 && ([] in got || |sizes| >= |data| - x ==> Join(got) == data[Min(x, |data|)..]))
  {
    hide Closed, Layout.Frames, FullCount, DataSize, IntactLayout, Tapers, Join;
    hide Fcrc.InStep, Fcrc.XorCovers, Fcrc.XorUpToDate, Fcrc.CacheHolds, Fcrc.WholeBlocks, Layout.SizeFound;
    var fc := OpenWhole(f, false, false, bits, data);
    var ok;
    ok, got := ReadRun(fc, before);
    r := fc.CrcSeek(off, whence);
    if r.Ok? {
      ok, got := ReadRun(fc, sizes);
      EarlyEnd(got);
    }
  }

  // --------------------------------------------------------------- appending

  /** A file rewritten from its start: a longer old file keeps its tail. */
  function Over(was: seq<byte>, now: seq<byte>): (r: seq<byte>)
    ensures r == now <==> |was| <= |now|
  {
    now + was[Min(|now|, |was|)..]
  }

  /** Append mode: what the file is when the blocks from `start` on were rewritten, whatever the parity block. */
  lemma AppendedFile(was: Layout, now: Layout, start: nat)
    requires was.Valid() && now.Valid() && was.bits == now.bits && start <= was.Last()
    requires var o := was.Off(start); o <= |was.data| && o <= |now.data| && was.data[..o] == now.data[..o]
    ensures start < |DataBodies(now.bits, now.data)|
    ensures Times(start, DataSize(was.bits) + PER_BLK) <= |Image(was.Bodies())|
    ensures Overwrite(Image(was.Bodies()), Times(start, DataSize(was.bits) + PER_BLK),
              Image(DataBodies(now.bits, now.data)[start..] + [now.parity]))
            == Over(Image(was.Bodies()), Image(now.Bodies()))
  {
    hide DataSize, Image, Parity, DataBodies, FullBodies, Times, Layout.Bodies, Overwrite;
    was.Starts(start);
    now.Starts(start);
    assert was.Bodies()[..start] == now.Bodies()[..start] by {
      if start > 0 {
        was.Prefix(start);
        now.Prefix(start);
      }
    }
    SplitImage(was, start);
    SplitImage(now, start);
    OverwriteTail(Image(was.Bodies()), Image(was.Bodies()[..start]), Image(now.Bodies()[start..]));
  }

  lemma SplitImage(lay: Layout, k: nat)
    requires lay.Valid() && k <= lay.Last()
    ensures Image(lay.Bodies()) == Image(lay.Bodies()[..k]) + Image(lay.Bodies()[k..])
    ensures |Image(lay.Bodies()[..k])| == Times(k, DataSize(lay.bits) + PER_BLK)
    ensures lay.Bodies()[k..] == DataBodies(lay.bits, lay.data)[k..] + [lay.parity]
  {
    hide DataSize, Image, Parity, DataBodies, Times;
    var bs := lay.Bodies();
    assert bs == bs[..k] + bs[k..];
    ImageConcat(bs[..k], bs[k..]);
    ImageLength(bs[..k], DataSize(lay.bits) + 2);
  }

  lemma OverwriteTail(file: seq<byte>, front: seq<byte>, back: seq<byte>)
    requires |front| <= |file| && file[..|front|] == front
    ensures Overwrite(file, |front|, back) == Over(file, front + back)
  {
  }

  /** The reader's view of a file with the blocks of some data, whose parity is off by `defect`. */
  ghost function SkewedLayout(bits: int, data: seq<byte>, defect: seq<byte>): (lay: Layout)
    requires IsBits(bits) && |defect| == DataSize(bits) + 2
    ensures lay.Valid() && lay.bits == bits && lay.data == data
  {
    Layout(bits, data, XorBytes(defect, Parity(DataBodies(bits, data), DataSize(bits) + 2)))
  }

  /** It is off: all its blocks make `defect`, and it is the closed file exactly without one. */
  lemma SkewedParity(bits: int, data: seq<byte>, defect: seq<byte>)
    requires IsBits(bits) && |defect| == DataSize(bits) + 2
    ensures var lay := SkewedLayout(bits, data, defect);
            && lay.XorOf(0, lay.Last() + 2) == defect
            && |Image(lay.Bodies())| == |Closed(bits, data)|
            && (Image(lay.Bodies()) == Closed(bits, data) <==> defect == Zeros(DataSize(bits) + 2))
  {
    hide DataSize, DataBodies, Image, Seal, FullCount, Parity, XorBytes;
    var lay, w, bs := SkewedLayout(bits, data, defect), DataSize(bits) + 2, DataBodies(bits, data);
    var good := Parity(bs, w);
    assert lay.Bodies()[0..lay.Last() + 2] == bs + [lay.parity];
    ParitySnoc(bs, lay.parity, w);
    XorBytesCommutes(defect, good);
    XorBytesAssociates(good, good, defect);
    XorBytesSelf(good);
    XorBytesZero(defect);
    XorBytesZero(good);
    ImageSnoc(bs, lay.parity);
    ImageSnoc(bs, good);
    SameImage(Image(bs), lay.parity, good);
    if lay.parity == good {
      ParityBlockUnique(bs, good, w);
    }
  }

  lemma SameImage(front: seq<byte>, x: seq<byte>, y: seq<byte>)
    requires |x| == |y|
    ensures |front + Seal(x)| == |front + Seal(y)|
    ensures front + Seal(x) == front + Seal(y) <==> x == y
  {
    hide Crc32c.Crc, Le32;
    assert Seal(x)[..|x|] == x && Seal(y)[..|y|] == y;
    assert (front + Seal(x))[|front|..] == Seal(x) && (front + Seal(y))[|front|..] == Seal(y);
  }

  /** The data is written as one piece, however it is cut. */
  method WriteChunks(fc: Fcrc, chunks: seq<seq<byte>>)
    requires fc.Writing()
    modifies fc, fc.f, fc.xor
    ensures fc.Writing() && fc.content == old(fc.content) + Join(chunks)
    ensures fc.start == old(fc.start) && fc.orig == old(fc.orig) && fc.defect == old(fc.defect)
  {
    hide Fcrc.Emitting, Fcrc.Reading, Times, FullCount, DataSize;
    assert chunks[..0] == [];
    for i := 0 to |chunks|
      invariant fc.Writing() && fc.content == old(fc.content) + Join(chunks[..i])
      invariant fc.start == old(fc.start) && fc.orig == old(fc.orig) && fc.defect == old(fc.defect)
    {
      assert chunks[..i + 1][..i] == chunks[..i];
      var ok := fc.CrcWrite(chunks[i]);
    }
    assert chunks[..|chunks|] == chunks;
  }

  /**
   `to` is the first block that reads leave unread which reach `reached`, if the last
   one asked for `size` bytes and returned `last`.
   */
  ghost predicate FirstUnread(lay: Layout, to: nat, reached: nat, last: nat, size: nat)
    requires lay.Valid()
  {
    && last <= size && last <= reached <= |lay.data|
    && to == lay.Unread(reached - last, reached, size - last)
    && (last == 0 ==> reached == |lay.data|)
  }

  /** Reads of the given sizes; the exclusive-or is kept from the block the offset is in. */
  method ReadSome(fc: Fcrc, sizes: seq<nat>) returns (total: nat, last: nat)
    requires Live(fc) && fc.didseek && fc.write && fc.lay.Whole(fc.f.data)
    requires sizes != [] && forall i :: 0 <= i < |sizes| ==> sizes[i] > 0
    modifies fc, fc.f`pos, fc.xor
    ensures Live(fc) && fc.lay == old(fc.lay) && fc.offset == old(fc.offset) + total && last <= total
    ensures fc.xfrom == old(fc.Target()) <= fc.xto
    ensures FirstUnread(fc.lay, fc.xto, fc.offset, last, sizes[|sizes| - 1])
    ensures |sizes| == 1 ==> last == total
    ensures |sizes| > |fc.lay.data| ==> last == 0
  {
    hide Layout.Whole, Layout.Frames, FullCount, DataSize, Fcrc.InStep, Fcrc.XorCovers, Fcrc.CacheHolds, Layout.XorOf;
    hide Layout.Unread, Fcrc.Near;
    var n, buf := fc.CrcRead(sizes[0]);
    total := n;
    for i := 1 to |sizes|
      invariant Live(fc) && fc.lay == old(fc.lay) && !fc.didseek && fc.doXor && fc.write
      invariant fc.xfrom == old(fc.Target()) && fc.offset == old(fc.offset) + total && 0 <= n <= total
      invariant FirstUnread(fc.lay, fc.blk, fc.offset, n, sizes[i - 1])
      invariant i == 1 ==> n == total
      invariant n == 0 || total >= i
    {
      n, buf := fc.CrcRead(sizes[i]);
      total := total + n;
    }
    last := n;
  }

  /** Seek to x, read, seek back to x: the exclusive-or of the blocks read stands for the blocks in front. */
  method Position(f: File, x: nat, sizes: seq<nat>, ghost bits: int, ghost data: seq<byte>)
    returns (fc: Fcrc, reached: nat, last: nat)
    requires IsBits(bits) && f.data == Closed(bits, data) && f.pos == 0 && x <= |data|
    requires sizes != [] && forall i :: 0 <= i < |sizes| ==> sizes[i] > 0
    modifies f`pos
    ensures fresh(fc) && fresh(fc.xor) && fc.f == f && fc.bits == bits
    ensures fc.ReadyToWrite() && fc.offset == x && fc.lay == IntactLayout(bits, data)
    ensures fc.Target() <= fc.xto <= fc.lay.Last() + 2 && fc.datasz == DataSize(bits)
    ensures x + last <= reached && FirstUnread(fc.lay, fc.xto, reached, last, sizes[|sizes| - 1])
    ensures |sizes| == 1 ==> reached == x + last
    ensures |sizes| > |data| ==> last == 0
  {
    hide Closed, Layout.Frames, FullCount, DataSize, Times, DataBodies, Parity, IntactLayout, FirstUnread;
    hide Layout.XorOf, Layout.Good, Layout.Bodies, Layout.Ends, Layout.SizeFound, Fcrc.WholeBlocks, Fcrc.Near;
    fc := OpenWhole(f, true, false, bits, data);
    var r := fc.CrcSeek(x, SeekSet);
    var total;
    total, last := ReadSome(fc, sizes);
    reached := x + total;
    r := fc.CrcSeek(x, SeekSet);
    fc.lay.SeekTarget(x);
    ReachesTarget(fc.lay, fc.Target());
  }

  lemma ReachesTarget(lay: Layout, k: nat)
    requires lay.Valid() && k <= lay.Last()
    ensures Times(k, DataSize(lay.bits) + PER_BLK) <= |Closed(lay.bits, lay.data)|
  {
    hide DataSize, Closed;
    lay.ClosedSize();
    TimesGrows(k, lay.Last() + 2, DataSize(lay.bits) + PER_BLK);
  }

  /** Of a sound file, the parity is off by the blocks that were not read. */
  lemma DefectIs(bits: int, data: seq<byte>, to: nat)
    requires IsBits(bits) && to <= IntactLayout(bits, data).Last() + 2
    ensures var lay := IntactLayout(bits, data);
            && lay.Defect(to) == lay.XorOf(to, lay.Last() + 2)
            && (to == lay.Last() + 2 ==> lay.Defect(to) == Zeros(DataSize(bits) + 2))
  {
    hide DataSize, Parity, DataBodies, FullCount;
    var lay, w := IntactLayout(bits, data), DataSize(bits) + 2;
    assert lay.Bodies()[0..lay.Last() + 2] == DataBodies(bits, data) + [lay.parity];
    ParityBlockUnique(DataBodies(bits, data), lay.parity, w);
    XorBytesZero(lay.XorOf(to, lay.Last() + 2));
    lay.XorOfNone(lay.Last() + 2);
  }

  /** Write at the offset and close: the parity is off by what the blocks read leave out. */
  method Rewrite(fc: Fcrc, first: seq<byte>, rest: seq<seq<byte>>, ghost bits: int, ghost data: seq<byte>)
    requires IsBits(bits) && fc.ReadyToWrite() && fc.lay == IntactLayout(bits, data)
    requires fc.f.data == Closed(bits, data) && fc.Target() <= fc.xto <= fc.lay.Last() + 2
    modifies fc, fc.f, fc.xor
    ensures old(fc.offset) <= |data| && old(fc.xto) <= IntactLayout(bits, data).Last() + 2
    ensures fc.f.data ==
      Over(Closed(bits, data), Image(SkewedLayout(bits, data[..old(fc.offset)] + first + Join(rest),
                                                  IntactLayout(bits, data).Defect(old(fc.xto))).Bodies()))
  {
    hide Closed, FullCount, DataSize, IntactLayout, SkewedLayout, Join, Overwrite, Over, Image, Times, DataBodies;
    hide Parity, XorBytes, Layout.Frames, Layout.Defect, Layout.Off, Layout.XorOf, Layout.Bodies;
    hide Fcrc.Emitting, Fcrc.InStep, Fcrc.XorCovers;
    ghost var x, defect := fc.offset, fc.lay.Defect(fc.xto);
    fc.lay.SeekTarget(x);
    var ok := fc.CrcWrite(first);
    WriteChunks(fc, rest);
    ghost var done;
    var rc;
    rc, done := fc.CloseWriter();
    RewriteMeans(bits, data, data[..x] + first + Join(rest), x, fc.start, defect);
  }

  /**
   An "r+" run: seek to x, read up to `reached`, seek back to x, write.  The file then
   begins with the blocks of the old data up to x and the new data; a longer old file
   keeps its tail behind them.  The parity is off by the exclusive-or of the blocks not
   read, which are those from `to` on.
   */
  method PartialAppend(f: File, x: nat, sizes: seq<nat>, first: seq<byte>, rest: seq<seq<byte>>,
                       ghost bits: int, ghost data: seq<byte>) returns (reached: nat, last: nat, ghost to: nat)
    requires IsBits(bits) && f.data == Closed(bits, data) && f.pos == 0 && x <= |data|
    requires sizes != [] && forall i :: 0 <= i < |sizes| ==> sizes[i] > 0
    modifies f
    ensures var lay, target := IntactLayout(bits, data), FullCount(DataSize(bits), HDRSZ + x);
            && x + last <= reached && FirstUnread(lay, to, reached, last, sizes[|sizes| - 1])
            && (|sizes| == 1 ==> reached == x + last) && (|sizes| > |data| ==> last == 0)
            && target <= to <= lay.Last() + 2
            && (last == 0 ==> to == lay.Last() + 2) && (reached < |data| ==> target < to < lay.Last() + 2)
    ensures var lay := IntactLayout(bits, data);
            f.data == Over(old(f.data), Image(SkewedLayout(bits, data[..x] + first + Join(rest),
                                                           lay.XorOf(to, lay.Last() + 2)).Bodies()))
  {
    hide Closed, FullCount, DataSize, IntactLayout, SkewedLayout, Join, Over, Image, Layout.Bodies;
    hide Layout.Defect, Layout.XorOf, Fcrc.ReadyToWrite, FirstUnread;
    var fc;
    fc, reached, last := Position(f, x, sizes, bits, data);
    to := fc.xto;
    UnreadIsBehind(fc.lay, x, to, reached, last, sizes[|sizes| - 1]);
    DefectIs(bits, data, to);
    Rewrite(fc, first, rest, bits, data);
  }

  lemma UnreadIsBehind(lay: Layout, x: nat, to: nat, reached: nat, last: nat, size: nat)
    requires lay.Valid() && FirstUnread(lay, to, reached, last, size) && x + last <= reached
    ensures last == 0 ==> to == lay.Last() + 2
    ensures reached < |lay.data| ==> FullCount(DataSize(lay.bits), HDRSZ + x) < to < lay.Last() + 2
  {
    hide FullCount, DataSize, Layout.Last;
    if reached < |lay.data| {
      lay.UnreadCovers(reached - last, reached, size - last);
      lay.TargetsGrow(x, reached - last);
    }
  }

  /**
   If the last read found the end, the file begins with the closed file of the old
   data up to x and the new data.
   */
  method AppendRun(f: File, x: nat, sizes: seq<nat>, first: seq<byte>, rest: seq<seq<byte>>,
                   ghost bits: int, ghost data: seq<byte>) returns (last: nat)
    requires IsBits(bits) && f.data == Closed(bits, data) && f.pos == 0 && x <= |data|
    requires sizes != [] && forall i :: 0 <= i < |sizes| ==> sizes[i] > 0
    modifies f
    ensures last == 0 ==> f.data == Over(old(f.data), Closed(bits, data[..x] + first + Join(rest)))
    ensures |sizes| > |data| ==> last == 0
  {
    hide Closed, FullCount, DataSize, IntactLayout, SkewedLayout, Join, Image, Layout.Defect, Layout.XorOf, FirstUnread;
    ghost var to;
    var reached;
    reached, last, to := PartialAppend(f, x, sizes, first, rest, bits, data);
    if last == 0 {
      IntactLayout(bits, data).XorOfNone(to);
      SkewedParity(bits, data[..x] + first + Join(rest), Zeros(DataSize(bits) + 2));
    }
  }

  lemma OverBegins(was: seq<byte>, now: seq<byte>)
    ensures now <= Over(was, now)
  {
  }

  /**
   After any append, however much was read before it, a sequential read returns the
   data up to x and the new data; and the checking close is content exactly if the
   blocks not read cancel out.  If they do not, the run fails at the end of the data.
   */
  method PartialAppendAndRead(f: File, x: nat, sizes: seq<nat>, first: seq<byte>, rest: seq<seq<byte>>, takes: seq<nat>,
                              ghost bits: int, ghost data: seq<byte>)
    returns (got: seq<seq<byte>>, rc: int, reached: nat, last: nat, ghost to: nat)
    requires IsBits(bits) && f.data == Closed(bits, data) && f.pos == 0 && x <= |data|
    requires sizes != [] && forall i :: 0 <= i < |sizes| ==> sizes[i] > 0
    requires forall i :: 0 <= i < |takes| ==> takes[i] > 0
    modifies f
    ensures var lay, target := IntactLayout(bits, data), FullCount(DataSize(bits), HDRSZ + x);
            && x + last <= reached && FirstUnread(lay, to, reached, last, sizes[|sizes| - 1])
            && (|sizes| == 1 ==> reached == x + last) && (|sizes| > |data| ==> last == 0)
            && target <= to <= lay.Last() + 2
            && (last == 0 ==> to == lay.Last() + 2) && (reached < |data| ==> target < to < lay.Last() + 2)
            && (rc == 0 <==> lay.XorOf(to, lay.Last() + 2) == Zeros(DataSize(bits) + 2))
    ensures var now := data[..x] + first + Join(rest);
            && |got| <= |takes| && Join(got) <= now
            && (forall i :: 0 <= i < |got| ==> |got[i]| <= takes[i])
            && (forall i :: |Join(got)| <= i < |got| ==> got[i] == [])
            && ([] in got || |got| < |takes| || |takes| >= |now| ==> Join(got) == now)
    ensures [] in got ==> rc == 0
    ensures |got| < |takes| ==> rc != 0
  {
    hide Closed, Join, IntactLayout, SkewedLayout, Image, Over, Layout.XorOf, Layout.Bodies, Layout.Frames, DataSize;
    hide OpeningOf, FullCount, FirstUnread, Layout.Good, Layout.Within, Layout.Stopped;
    reached, last, to := PartialAppend(f, x, sizes, first, rest, bits, data);
    ghost var now, old' := data[..x] + first + Join(rest), IntactLayout(bits, data);
    ghost var defect := old'.XorOf(to, old'.Last() + 2);
    ghost var lay := SkewedLayout(bits, now, defect);
    SkewedParity(bits, now, defect);
    OverBegins(Closed(bits, data), Image(lay.Bodies()));
    ImageIsFramed(lay, f.data);
    PrefixIs(Closed(bits, now), Image(lay.Bodies()), f.data);
    f.Seek(0);
    got, rc := ReadAndClose(f, takes, lay);
    if |got| < |takes| { lay.StopsAtEnd(f.data, |Join(got)|); }
  }

  /**
   After an append whose reads found the end, the data up to x and the new data are
   read, all of it once a read returned nothing, and the checking close is content.
   */
  method AppendAndRead(f: File, x: nat, sizes: seq<nat>, first: seq<byte>, rest: seq<seq<byte>>, takes: seq<nat>,
                       ghost bits: int, ghost data: seq<byte>) returns (got: seq<seq<byte>>, rc: int, last: nat)
    requires IsBits(bits) && f.data == Closed(bits, data) && f.pos == 0 && x <= |data|
    requires sizes != [] && forall i :: 0 <= i < |sizes| ==> sizes[i] > 0
    requires forall i :: 0 <= i < |takes| ==> takes[i] > 0
    modifies f
    ensures |sizes| > |data| ==> last == 0
    ensures var now := data[..x] + first + Join(rest);
            && Join(got) <= now && |got| <= |takes|
            && ([] in got || |takes| >= |now| ==> Join(got) == now)
            && (forall i :: |Join(got)| <= i < |got| ==> got[i] == [])
    ensures last == 0 ==> |got| == |takes| && rc == 0
  {
    hide Closed, Join, IntactLayout, Layout.XorOf, DataSize, FullCount, FirstUnread;
    ghost var to;
    var reached;
    got, rc, reached, last, to := PartialAppendAndRead(f, x, sizes, first, rest, takes, bits, data);
    if last == 0 { IntactLayout(bits, data).XorOfNone(to); }
  }

  lemma PrefixIs(a: seq<byte>, b: seq<byte>, file: seq<byte>)
    requires |a| == |b| && b <= file
    ensures a <= file <==> a == b
  {
    assert b == file[..|b|];
  }

  /**
   With data that fits into one block and only a part of it read, the checking close
   always fails, although all the data is there.
   */
  method HalfRead(f: File, size: nat, first: seq<byte>, takes: seq<nat>, ghost bits: int, ghost data: seq<byte>)
    returns (got: seq<seq<byte>>, rc: int)
    requires IsBits(bits) && f.data == Closed(bits, data) && f.pos == 0
    requires 0 < size < |data| < DataSize(bits) - HDRSZ
    requires forall i :: 0 <= i < |takes| ==> takes[i] > 0
    modifies f
    ensures Join(got) <= first && [] !in got && (|takes| >= |first| ==> Join(got) == first)
    ensures rc != 0
  {
    hide Closed, IntactLayout, DataSize, FullCount, Layout.XorOf;
    ghost var to;
    var reached, last;
    OneBlock(bits, data);
    got, rc, reached, last, to := PartialAppendAndRead(f, 0, [size], first, [], takes, bits, data);
    assert data[..0] + first + [] == first;
  }

  /** The parity block of a single data block is that block. */
  lemma OneBlock(bits: int, data: seq<byte>)
    requires IsBits(bits) && |data| < DataSize(bits) - HDRSZ
    ensures var lay := IntactLayout(bits, data);
            lay.Last() == 0 && lay.XorOf(1, 2) != Zeros(DataSize(bits) + 2)
  {
    hide DataSize, Header, DataBodies;
    var lay, d, w := IntactLayout(bits, data), DataSize(bits), DataSize(bits) + 2;
    TimesFromZero(d);
    FullCountUnique(d, HDRSZ + |data|, 0);
    FirstBody(bits, data);
    HeaderLetter(bits);
    var b := DataBodies(bits, data)[0];
    assert DataBodies(bits, data) == [] + [b] && lay.Bodies()[1..2] == [lay.parity] == [] + [lay.parity];
    ParitySnoc([], b, w);
    ParitySnoc([], lay.parity, w);
    XorBytesZero(b);
    assert b[..HDRSZ][0] == b[0];
  }

  lemma HeaderLetter(bits: int)
    requires IsBits(bits)
    ensures Header(bits)[0] == 'C' as int
  {
  }

  ghost predicate Overwrites(was: seq<byte>, at: nat, bytes: seq<byte>, now: seq<byte>)
  {
    at <= |was| && Overwrite(was, at, bytes) == now
  }

  /** AppendedFile, for a rewrite that starts in the block x is in. */
  lemma RewriteMeans(bits: int, was: seq<byte>, now: seq<byte>, x: nat, start: nat, defect: seq<byte>)
    requires IsBits(bits) && x <= |was| && was[..x] <= now && start == FullCount(DataSize(bits), HDRSZ + x)
    requires |defect| == DataSize(bits) + 2
    ensures var w, bodies := DataSize(bits) + 2, DataBodies(bits, now);
            && start < |bodies|
            && Overwrites(Closed(bits, was), Times(start, w + 4),
                 Image(bodies[start..] + [XorBytes(defect, Parity(bodies, w))]),
                 Over(Closed(bits, was), Image(SkewedLayout(bits, now, defect).Bodies())))
  {
    hide DataSize, Image, Parity, Closed, DataBodies, FullCount, Overwrite, XorBytes, Times, Layout.Bodies, Over;
    var lay := IntactLayout(bits, was);
    lay.SeekTarget(x);
    var o := lay.Off(start);
    assert was[..o] == was[..x][..o] == now[..x][..o];
    IntactBodies(bits, was);
    AppendedFile(lay, SkewedLayout(bits, now, defect), start);
  }

  lemma ClosedBlock(bits: int, data: seq<byte>, k: nat)
    requires IsBits(bits) && k < |AllBodies(bits, data)|
    ensures Raw(Closed(bits, data), k, DataSize(bits) + 2) == Seal(AllBodies(bits, data)[k])
  {
    hide Raw, Seal, DataSize, Image, AllBodies;
    ImageBlock(AllBodies(bits, data), k, DataSize(bits) + 2);
  }

  /** A block of the old file behind the new one. */
  lemma OverBlock(was: seq<byte>, now: seq<byte>, n: nat, k: nat, w: nat)
    requires |now| == Times(n, w + 4) && n <= k && Times(k + 1, w + 4) <= |was|
    ensures Raw(Over(was, now), k, w) == Raw(was, k, w)
    ensures |Over(was, now)| == |was|
  {
    if n < k { TimesGrows(n, k, w + 4); }
    assert Times(k + 1, w + 4) == Times(k, w + 4) + w + 4;
    assert Times(n, w + 4) <= Times(k, w + 4);
  }

  /** Where an append ends at least two blocks earlier than the old file, its last two blocks are the old ones. */
  lemma OldBlocks(bits: int, was: seq<byte>, now: seq<byte>)
    requires IsBits(bits) && IntactLayout(bits, now).Last() + 2 <= IntactLayout(bits, was).Last()
    ensures var w, n := DataSize(bits) + PER_BLK, IntactLayout(bits, was).Last();
            var file := Over(Closed(bits, was), Closed(bits, now));
            && |file| / w == n + 2 && |file| >= 2 * w
            && Raw(file, n, DataSize(bits) + 2) == Seal(AllBodies(bits, was)[n])
            && Raw(file, n + 1, DataSize(bits) + 2) == Seal(AllBodies(bits, was)[n + 1])
  {
    hide DataSize, Closed, Times, Over, Raw, Seal, FullCount, AllBodies;
    var d, old', new' := DataSize(bits), IntactLayout(bits, was), IntactLayout(bits, now);
    var n, file := old'.Last(), Over(Closed(bits, was), Closed(bits, now));
    old'.ClosedSize();
    new'.ClosedSize();
    WholeNumber(n + 2, d + PER_BLK);
    DivisionOfTimes(n + 2, d + PER_BLK);
    BlockFits(old', n);
    BlockFits(old', n + 1);
    OverBlock(Closed(bits, was), Closed(bits, now), new'.Last() + 2, n, d + 2);
    OverBlock(Closed(bits, was), Closed(bits, now), new'.Last() + 2, n + 1, d + 2);
    ClosedBlock(bits, was, n);
    ClosedBlock(bits, was, n + 1);
  }

  /** A short block is where fileSize() looks, with a sound one behind it. */
  lemma ShortBlockSize(lay: Layout, file: seq<byte>, k: nat, len: nat)
    requires lay.Valid() && lay.BlockOk(file, k) && lay.BlockOk(file, k + 1)
    requires lay.Len(file, k) == len < FullLen(DataSize(lay.bits), k)
    requires |file| >= 2 * (DataSize(lay.bits) + PER_BLK) && |file| / (DataSize(lay.bits) + PER_BLK) == k + 2
    ensures lay.SizeFound(file, -1) == Some(lay.Off(k) + len)
  {
    hide DataSize, Layout.BlockOk, Layout.Len, Layout.Off;
  }

  /** fileSize() then finds the old size. */
  lemma OldSize(bits: int, was: seq<byte>, now: seq<byte>)
    requires IsBits(bits) && IntactLayout(bits, now).Last() + 2 <= IntactLayout(bits, was).Last()
    ensures var file := Over(Closed(bits, was), Closed(bits, now));
            && |file| >= 2 * (DataSize(bits) + PER_BLK)
            && IntactLayout(bits, now).SizeFound(file, -1) == Some(|was|)
  {
    hide DataSize, Closed, Times, Over, Raw, Seal, Checks, FullCount, FromLe16, BlockLen, DataBodies, Parity;
    hide Layout.SizeFound;
    var d, n, file := DataSize(bits), IntactLayout(bits, was).Last(), Over(Closed(bits, was), Closed(bits, now));
    OldBlocks(bits, was, now);
    var body := AllBodies(bits, was)[n];
    SealChecks(body);
    SealChecks(AllBodies(bits, was)[n + 1]);
    assert body == DataBodies(bits, was)[n];
    assert Seal(body)[d..d + 2] == body[d..];
    DataBlockLength(bits, was, n);
    ShortBlockSize(IntactLayout(bits, now), file, n, |was| - Boff(d, n));
  }

  /** `now` bytes of data need as many blocks as `was` bytes, or more. */
  predicate AsManyBlocks(bits: int, was: nat, now: nat)
    requires IsBits(bits)
  {
    (was + HDRSZ) / DataSize(bits) <= (now + HDRSZ) / DataSize(bits)
  }

  /** An append leaves a complete and sound file exactly when the new data needs no fewer blocks than the old. */
  lemma CompleteExactly(bits: int, was: seq<byte>, now: seq<byte>)
    requires IsBits(bits)
    ensures Over(Closed(bits, was), Closed(bits, now)) == Closed(bits, now) <==> AsManyBlocks(bits, |was|, |now|)
  {
    hide DataSize, Closed, Times, Over;
    var d := DataSize(bits);
    var m, n := FullCount(d, HDRSZ + |was|), FullCount(d, HDRSZ + |now|);
    IntactLayout(bits, was).ClosedSize();
    IntactLayout(bits, now).ClosedSize();
    OverIs(Closed(bits, was), Closed(bits, now));
    if m < n { TimesGrows(m + 2, n + 2, d + PER_BLK); }
    if n < m { TimesGrows(n + 2, m + 2, d + PER_BLK); }
  }

  lemma OverIs(was: seq<byte>, now: seq<byte>)
    ensures Over(was, now) == now <==> |was| <= |now|
  {
  }

  /** In particular after an append of a tail at least as long as the old one. */
  lemma LongEnough(bits: int, was: seq<byte>, now: seq<byte>)
    requires IsBits(bits) && |was| <= |now|
    ensures Over(Closed(bits, was), Closed(bits, now)) == Closed(bits, now)
  {
    hide DataSize, Closed, Over, Times;
    CompleteExactly(bits, was, now);
    var d := DataSize(bits);
    var m, n := FullCount(d, |was| + HDRSZ), FullCount(d, |now| + HDRSZ);
    if n + 1 < m { TimesGrows(n + 1, m, d); }
  }

  lemma EndsMeans(bits: int, data: seq<byte>, file: seq<byte>)
    requires IsBits(bits) && Closed(bits, data) <= file
    ensures IntactLayout(bits, data).Ends(file) <==> file == Closed(bits, data)
  {
    hide DataSize, Closed, Times, FullCount;
    IntactLayout(bits, data).ClosedSize();
  }

  lemma OverInBlocks(bits: int, was: seq<byte>, now: seq<byte>)
    requires IsBits(bits)
    ensures var file := Over(Closed(bits, was), Closed(bits, now));
            |file| % Pow2(bits) == 0 && |file| >= 2 * Pow2(bits)
  {
    hide Closed, Pow2;
    ClosedEnds(bits, was);
    ClosedEnds(bits, now);
  }

  /** The size that fileSize() finds after an append is the right one exactly in a complete file. */
  lemma SizeAfterAppend(bits: int, was: seq<byte>, now: seq<byte>)
    requires IsBits(bits)
    ensures var lay, file := IntactLayout(bits, now), Over(Closed(bits, was), Closed(bits, now));
            && |file| % Pow2(bits) == 0 && |file| >= 2 * (DataSize(bits) + PER_BLK)
            && (lay.SizeFound(file, -1) == Some(|now|) <==> AsManyBlocks(bits, |was|, |now|))
            && (lay.Ends(file) <==> AsManyBlocks(bits, |was|, |now|))
  {
    hide Closed, DataSize, IntactLayout, Over, Pow2, Layout.Frames, Layout.Ends, Layout.SizeFound, AsManyBlocks;
    var file := Over(Closed(bits, was), Closed(bits, now));
    OverBegins(Closed(bits, was), Closed(bits, now));
    WholeIsFramed(bits, now, file);
    OverInBlocks(bits, was, now);
    BlockSize(bits);
    CompleteExactly(bits, was, now);
    EndsMeans(bits, now, file);
    IntactLayout(bits, now).SizeExactly(file);
  }

  /**
   After an append, a seek to the end of the data goes to it exactly when the new data
   needs no fewer blocks than the old; with two blocks less it goes by the old size.
   */
  method SeekEndAfterAppend(f: File, ghost bits: int, ghost was: seq<byte>, ghost now: seq<byte>) returns (r: Status)
    requires IsBits(bits) && f.data == Over(Closed(bits, was), Closed(bits, now)) && f.pos == 0
    modifies f`pos
    ensures r == Ok(|now|) <==> AsManyBlocks(bits, |was|, |now|)
    ensures IntactLayout(bits, now).Last() + 2 <= IntactLayout(bits, was).Last() ==> r == Ok(|was|)
  {
    hide Closed, DataSize, FullCount, IntactLayout, Over, Pow2, Layout.Frames, Layout.Ends, Layout.SizeFound;
    hide Fcrc.InStep, Fcrc.XorCovers, Fcrc.XorUpToDate, Fcrc.CacheHolds, Fcrc.WholeBlocks, Layout.Last, AsManyBlocks;
    OverBegins(Closed(bits, was), Closed(bits, now));
    SizeAfterAppend(bits, was, now);
    if IntactLayout(bits, now).Last() + 2 <= IntactLayout(bits, was).Last() { OldSize(bits, was, now); }
    var fc := OpenWhole(f, false, false, bits, now);
    r := fc.CrcSeek(0, SeekEnd);
  }
}
