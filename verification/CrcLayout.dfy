/**
 What a reader of utils/fopen_crc.c relies on: a file that was made from some
 data, in which every block that still passes its CRC is unchanged.
 */
module CrcLayout {
  import opened Bits
  import opened CrcFormat
  import opened CrcOutput
  import opened Wrappers
  import Crc32c

  /** What readBlock() comes to: -1, or `len` bytes, the next block, and what is known of the size. */
  datatype Step = Fails | Reads(len: nat, next: nat, size: int)

  /** Block size, data, and the body found in place of the parity block. */
  datatype Layout = Layout(bits: int, data: seq<byte>, parity: seq<byte>) {

    ghost predicate Valid()
    {
      IsBits(bits) && |parity| == DataSize(bits) + 2
    }

    /** Index of the short block; the parity block is the next one, and the last. */
    ghost function Last(): nat
      requires Valid()
    {
      FullCount(DataSize(bits), HDRSZ + |data|)
    }

    ghost function Bodies(): (bs: seq<seq<byte>>)
      requires Valid()
      ensures |bs| == Last() + 2 && Uniform(bs, DataSize(bits) + 2)
    {
      DataBodies(bits, data) + [parity]
    }

    ghost function Block(file: seq<byte>, k: nat): seq<byte>
      requires Valid()
    {
      Raw(file, k, DataSize(bits) + 2)
    }

    ghost predicate BlockOk(file: seq<byte>, k: nat)
      requires Valid()
    {
      Checks(Block(file, k), DataSize(bits) + 2)
    }

    /**
     Every block of the file up to the parity block that passes its CRC is the one
     written; others are damaged or cut off.  What may follow is of no concern.
     */
    ghost predicate Frames(file: seq<byte>)
      requires Valid()
    {
      forall k :: 0 <= k < Last() + 2 && BlockOk(file, k) ==> Block(file, k) == Seal(Bodies()[k])
    }

    /** The file begins with what crcClose() wrote. */
    ghost predicate Whole(file: seq<byte>)
    {
      IsBits(bits) && Closed(bits, data) <= file
    }

    /** Nothing stands behind the parity block. */
    ghost predicate Ends(file: seq<byte>)
      requires Valid()
    {
      |file| <= Times(Last() + 2, DataSize(bits) + PER_BLK)
    }

    /** Blocks i up to j of the file pass their CRCs. */
    ghost predicate Good(file: seq<byte>, i: nat, j: nat)
      requires Valid()
    {
      forall k :: i <= k < j ==> BlockOk(file, k)
    }

    /** The exclusive-or of the bodies from block i up to block j. */
    ghost function XorOf(i: nat, j: nat): (x: seq<byte>)
      requires Valid() && i <= j <= Last() + 2
      ensures |x| == DataSize(bits) + 2
    {
      Parity(Bodies()[i..j], DataSize(bits) + 2)
    }

    ghost function Off(k: nat): nat
      requires Valid()
    {
      Boff(DataSize(bits), k)
    }

    /** How far into the data the blocks before block k reach. */
    ghost function Consumed(k: nat): nat
      requires Valid()
    {
      if k <= Last() then Off(k) else |data|
    }

    /** What a successful readBlock() at block k yields: `len` bytes of data, and the next block. */
    ghost predicate Yields(k: nat, len: int, buf: seq<byte>, next: nat)
      requires Valid()
    {
      if k <= Last() then
        && 0 <= len <= |buf| && Off(k) + len <= |data|
        && buf[..len] == data[Off(k)..Off(k) + len]
        && Off(k) + len == Consumed(k + 1)
        && (len < FullLen(DataSize(bits), k) <==> k == Last())
        && next == if len == 0 then Last() + 2 else k + 1
      else
        len == 0 && next == Last() + 2
    }

    /** The length field of block k. */
    ghost function Len(file: seq<byte>, k: nat): int
      requires Valid() && BlockOk(file, k)
    {
      FromLe16(Block(file, k)[DataSize(bits)..DataSize(bits) + 2])
    }

    /**
     readBlock() at block k, with the size of the data if it is known: behind the data
     it reads the parity block and then nothing more, and an empty block makes it read
     the next one as well.
     */
    ghost function Step(file: seq<byte>, k: nat, size: int): Step
      requires Valid()
    {
      if 0 <= size < Off(k) then
        if Off(k) > size + DataSize(bits) then Reads(0, k, size)
        else if BlockOk(file, k) then Reads(0, k + 1, size) else Fails
      else if !BlockOk(file, k) then
        Fails
      else
        var len := Len(file, k);
        var now := if len < FullLen(DataSize(bits), k) && size < 0 then Off(k) + len else size;
        if len != 0 then Reads(len, k + 1, now)
        else if BlockOk(file, k + 1) then Reads(0, k + 2, now) else Fails
    }

    /** The size fileSize() finds, if any, in the block before the last of a file of whole blocks. */
    ghost function SizeFound(file: seq<byte>, size: int): Option<nat>
      requires Valid()
    {
      var n := BlockCount(file);
      if n < 2 then None
      else match Step(file, n - 2, size)
           case Fails => None
           case Reads(_, _, now) => if now >= 0 then Some(now) else None
    }

    ghost function BlockCount(file: seq<byte>): int
      requires Valid()
    {
      |file| / (DataSize(bits) + PER_BLK)
    }

    /** The data bytes of block k. */
    ghost function Payload(file: seq<byte>, k: nat): seq<byte>
      requires Valid() && BlockOk(file, k)
    {
      Block(file, k)[if k == 0 then HDRSZ else 0..DataSize(bits)]
    }

    /** readBlock() at block k fails: the block is bad, or behind an empty last block the parity block is. */
    ghost predicate Blocked(file: seq<byte>, k: nat)
      requires Valid()
    {
      && k <= Last() + 1
      && (!BlockOk(file, k) || (k == Last() && Off(k) == |data| && !BlockOk(file, k + 1)))
    }

    /** Where a read can fail: at the end of the data, or with no more than one block in front of it to the bad one. */
    ghost predicate Stopped(file: seq<byte>, p: nat)
      requires Valid()
    {
      p == |data| || exists k: nat :: Blocked(file, k) && (k > 0 ==> Consumed(k - 1) <= p)
    }

    /** The first n bytes of the data are in front of every bad block, or in it. */
    ghost predicate Within(file: seq<byte>, n: nat)
      requires Valid()
    {
      forall b :: 0 <= b < Last() + 2 && !BlockOk(file, b) ==> n <= Consumed(b)
    }

    /** The first n bytes of the data have all blocks but one that are in front of every bad one. */
    ghost predicate Reaches(file: seq<byte>, n: nat)
      requires Valid()
    {
      forall b :: 0 < b <= Last() && Good(file, 0, b) ==> Consumed(b - 1) <= n
    }

    /** Block k is the first one behind the first p bytes of the data. */
    ghost predicate Behind(k: nat, p: nat)
      requires Valid()
    {
      k > 0 && Consumed(k - 1) < p <= Consumed(k)
    }

    /**
     A read that starts inside the last full block, ends with it, and has room for a
     whole block left: it goes on and finds an empty last block, and the parity block.
     */
    ghost predicate Overruns(from: nat, to: nat, room: int)
      requires Valid()
    {
      && to == |data| == Off(Last()) && room >= DataSize(bits)
      && Last() > 0 && Off(Last() - 1) < from
    }

    /** The next block after a read of the bytes `from` up to `to` that had room for `room` more. */
    ghost predicate Follows(k: nat, from: nat, to: nat, room: int)
      requires Valid()
    {
      if Overruns(from, to, room) then k == Last() + 2 else Behind(k, to)
    }

    /** The same, from the offsets: a read of nothing reads all, and others go up to the block of their last byte. */
    ghost function Unread(from: nat, to: nat, room: int): nat
      requires Valid() && from <= to
    {
      if from == to || Overruns(from, to, room) then Last() + 2 else FullCount(DataSize(bits), HDRSZ + to - 1) + 1
    }

    /** readBlock()'s test for "at or past the parity block", from offsets alone. */
    lemma Starts(k: nat)
      requires Valid()
      ensures Off(k) <= |data| <==> k <= Last()
      ensures Off(k) <= |data| + DataSize(bits) <==> k <= Last() + 1
      ensures Off(k) == 0 <==> k == 0
      ensures Off(k + 1) == Off(k) + FullLen(DataSize(bits), k)
    {
      BlockStarts(DataSize(bits), |data|, k);
      BoffZero(DataSize(bits), k);
      BoffStep(DataSize(bits), k);
    }

    /** The fields of a block that passes its CRC. */
    lemma GoodBlock(file: seq<byte>, k: nat)
      requires Valid() && Frames(file) && k < Last() + 2 && BlockOk(file, k)
      ensures var d := DataSize(bits); var raw := Block(file, k);
              && |raw| == d + PER_BLK && raw[..d + 2] == Bodies()[k]
      ensures k <= Last() ==>
        var d := DataSize(bits); var raw := Block(file, k); var len := FromLe16(raw[d..d + 2]);
        && len <= FullLen(d, k) && Off(k) + len <= |data|
        && (len < FullLen(d, k) <==> k == Last())
        && Off(k) + len == Consumed(k + 1)
        && raw[if k == 0 then HDRSZ else 0..d][..len] == data[Off(k)..Off(k) + len]
    {
      hide Crc32c.Crc, Checks, Le32, FromLe16, BlockLen, FullLen, Raw, Times, DataBodies, DataSize;
      if k <= Last() {
        var d := DataSize(bits);
        DataBlockLength(bits, data, k);
        DataBlock(bits, data, k);
        BoffStep(d, k);
        var skip, len := if k == 0 then HDRSZ else 0, BlockLen(d, |data|, k);
        assert Bodies()[k] == DataBodies(bits, data)[k];
        FullLenFits(d, k);
        assert Block(file, k)[skip..d][..len] == Bodies()[k][skip..skip + len];
        assert Block(file, k)[d..d + 2] == Bodies()[k][d..];
      }
    }

    /** What the length field of a good block says. */
    lemma GoodLen(file: seq<byte>, k: nat)
      requires Valid() && Frames(file) && k <= Last() && BlockOk(file, k)
      ensures var len := Len(file, k);
              && (len < FullLen(DataSize(bits), k) <==> k == Last())
              && Off(k) + len == Consumed(k + 1) <= |data|
              && (len == 0 ==> k == Last() && Off(k) == |data|)
              && len <= |Payload(file, k)| && Payload(file, k)[..len] == data[Off(k)..Off(k) + len]
    {
      hide Bodies, Block, BlockOk, Off, Last, DataSize, FromLe16;
      GoodBlock(file, k);
      FullLenPositive(k);
    }

    lemma FullLenPositive(k: nat)
      requires Valid()
      ensures FullLen(DataSize(bits), k) > 0
    {
    }

    /** A step among the blocks of the data and the parity block. */
    lemma StepKnown(file: seq<byte>, k: nat, size: int)
      requires Valid() && Frames(file) && k <= Last() + 2
      requires (size < 0 && k <= Last()) || size == |data|
      ensures match Step(file, k, size)
              case Fails => Blocked(file, k) && !Good(file, 0, Last() + 2)
              case Reads(len, next, now) =>
                && next <= Last() + 2 && now == (if k == Last() then |data| else size)
                && Good(file, k, next) && (now < 0 ==> next <= Last())
                && (len > 0 ==> BlockOk(file, k) && Yields(k, len, Payload(file, k), next))
                && (len == 0 ==> forall buf :: Yields(k, 0, buf, next))
    {
      hide Bodies, BlockOk, Block, Payload, Len, Off, Last, DataSize, FullLen, Frames;
      Starts(k);
      if k <= Last() && BlockOk(file, k) { GoodLen(file, k); }
    }

    lemma XorStep(i: nat, k: nat)
      requires Valid() && i <= k < Last() + 2
      ensures XorOf(i, k + 1) == XorBytes(XorOf(i, k), Bodies()[k])
    {
      hide Parity, Bodies, XorBytes, DataSize;
      assert Bodies()[i..k + 1] == Bodies()[i..k] + [Bodies()[k]];
      ParitySnoc(Bodies()[i..k], Bodies()[k], DataSize(bits) + 2);
    }

    lemma GoodMakesClosed(file: seq<byte>)
      requires Valid() && Frames(file) && Good(file, 0, Last() + 2)
      requires parity == Parity(DataBodies(bits, data), DataSize(bits) + 2)
      ensures Whole(file)
    {
      hide Crc32c.Crc, Checks, Le32, DataSize, Times, DataBodies, Raw, Seal, Image, FullCount;
      var w, n := DataSize(bits) + 2, Last() + 2;
      assert BlockOk(file, n - 1);
      CheckedLength(file, n - 1, w);
      var front := file[..Times(n, w + 4)];
      forall k | 0 <= k < n
        ensures Raw(front, k, w) == Seal(Bodies()[k])
      {
        if k + 1 < n { TimesGrows(k + 1, n, w + 4); }
        RawOfPrefix(file, |front|, k, w);
      }
      BlocksMakeImage(front, Bodies(), w);
    }

    lemma WholeIsGood(file: seq<byte>)
      requires Valid() && Frames(file) && Whole(file)
      ensures Good(file, 0, Last() + 2)
      ensures parity == Parity(DataBodies(bits, data), DataSize(bits) + 2)
    {
      hide Crc32c.Crc, Checks, Le32, DataSize, Times, DataBodies, Raw, Seal, Image, FullCount, Parity;
      var w, all := DataSize(bits) + 2, AllBodies(bits, data);
      forall k | 0 <= k < Last() + 2
        ensures BlockOk(file, k)
      {
        BlockOfImage(file, all, k, w);
        SealChecks(all[k]);
      }
      assert BlockOk(file, Last() + 1);
      BlockOfImage(file, all, Last() + 1, w);
      SealChecks(parity);
      SealChecks(all[Last() + 1]);
    }

    /** If all blocks pass and cancel out, the file begins as crcClose() left it; and conversely. */
    lemma AllGoodMeansClosed(file: seq<byte>)
      requires Valid() && Frames(file)
      ensures Good(file, 0, Last() + 2) && XorOf(0, Last() + 2) == Zeros(DataSize(bits) + 2)
              <==> Whole(file)
    {
      hide DataSize, Parity, Good, Frames, FullCount, DataBodies, Whole;
      var w, bs := DataSize(bits) + 2, DataBodies(bits, data);
      assert Bodies()[0..Last() + 2] == Bodies();
      ParityBlockUnique(bs, parity, w);
      if Good(file, 0, Last() + 2) && parity == Parity(bs, w) { GoodMakesClosed(file); }
      if Whole(file) { WholeIsGood(file); }
    }

    lemma ConsumedGrows(i: nat, j: nat)
      requires Valid() && i <= j
      ensures Consumed(i) <= Consumed(j) <= |data|
      ensures i < j && i <= Last() && Off(i) < |data| ==> Consumed(i) < Consumed(j)
    {
      hide DataSize, Last, Off;
      Starts(i);
      Starts(j);
      if i < j && j <= Last() { OffGrows(i, j); }
    }

    lemma OffGrows(i: nat, j: nat)
      requires Valid() && i < j
      ensures Off(i) < Off(j)
    {
      BoffGrows(DataSize(bits), i, j);
    }

    /** A read that ends in the saved block k - 1, and not at its end with room for one more. */
    lemma FollowsSaved(k: nat, from: nat, to: nat, room: int)
      requires Valid() && k > 0 && Consumed(k - 1) <= from < to <= Consumed(k)
      requires !(to == Off(k) && room >= DataSize(bits))
      ensures Follows(k, from, to, room)
    {
      hide DataSize, Last, Off;
      if to == |data| == Off(Last()) {
        if k < Last() { OffGrows(k, Last()); }
        if Last() < k { ConsumedGrows(Last(), k - 1); }
      }
    }

    /** A read whose last part is the whole of block k. */
    lemma FollowsDirect(k: nat, from: nat, to: nat, room: int)
      requires Valid() && k <= Last() && from <= Off(k) < to == Consumed(k + 1)
      ensures Follows(k + 1, from, to, room)
    {
      hide DataSize, Last, Off;
      if to == |data| == Off(Last()) && Last() > 0 && k < Last() - 1 {
        OffGrows(k + 1, Last());
      }
    }

    lemma UnreadIs(k: nat, from: nat, to: nat, room: int)
      requires Valid() && from < to <= |data|
      ensures Follows(k, from, to, room) <==> k == Unread(from, to, room)
    {
      hide DataSize, FullCount, Last, Off;
      SeekTarget(to - 1);
      var n := FullCount(DataSize(bits), HDRSZ + to - 1);
      Starts(n + 1);
      if Behind(k, to) {
        if n + 1 < k { ConsumedGrows(n + 1, k - 1); }
        if k < n + 1 { ConsumedGrows(k, n); }
      }
    }

    /** All bytes read are in front of that block. */
    lemma UnreadCovers(from: nat, to: nat, room: int)
      requires Valid() && from <= to <= |data|
      ensures to <= Consumed(Unread(from, to, room))
      ensures from < to < |data| ==>
        FullCount(DataSize(bits), HDRSZ + from) < Unread(from, to, room) < Last() + 2
    {
      hide DataSize, FullCount, Last, Off;
      if from < to {
        var k := Unread(from, to, room);
        UnreadIs(k, from, to, room);
        SeekTarget(from);
        var n := FullCount(DataSize(bits), HDRSZ + from);
        if to < |data| && k <= n { ConsumedGrows(k, n); }
      }
    }

    /** What a reader is told about the blocks in front of a bad one. */
    lemma StopsLate(file: seq<byte>, p: nat)
      requires Valid() && Stopped(file, p) && p <= |data|
      ensures Reaches(file, p)
    {
      hide DataSize, Last, Off, BlockOk;
      forall b | 0 < b <= Last() && Good(file, 0, b)
        ensures Consumed(b - 1) <= p
      {
        ConsumedGrows(b - 1, Last());
        if p < |data| {
          var k: nat :| Blocked(file, k) && (k > 0 ==> Consumed(k - 1) <= p);
          ConsumedGrows(b - 1, if k < b then b - 1 else k - 1);
        }
      }
    }

    /** Without a bad block only the end of the data stops a read. */
    lemma StopsAtEnd(file: seq<byte>, p: nat)
      requires Valid() && Stopped(file, p) && Good(file, 0, Last() + 2)
      ensures p == |data|
    {
      hide DataSize, Last, Off, BlockOk;
    }

    lemma TargetsGrow(x: nat, y: nat)
      requires Valid() && x <= y <= |data|
      ensures FullCount(DataSize(bits), HDRSZ + x) <= FullCount(DataSize(bits), HDRSZ + y)
    {
      hide DataSize, FullCount, Last, Off;
      SeekTarget(x);
      SeekTarget(y);
      var m, n := FullCount(DataSize(bits), HDRSZ + x), FullCount(DataSize(bits), HDRSZ + y);
      if n + 1 < m { OffGrows(n + 1, m); }
    }

    lemma BlockedStops(file: seq<byte>, k: nat, p: nat)
      requires Valid() && Blocked(file, k) && p <= |data|
      requires Consumed(k) <= p || (k > 0 && Consumed(k - 1) <= p)
      ensures Stopped(file, p)
    {
      hide DataSize, Last, Off, Blocked, Consumed;
      if k > 0 { ConsumedGrows(k - 1, k); }
    }

    lemma GoodUpTo(file: seq<byte>, k: nat, p: nat)
      requires Valid() && Good(file, 0, k) && p <= Consumed(k)
      ensures Within(file, p)
    {
      hide DataSize, Last, Off, BlockOk, Consumed;
      forall b | 0 <= b < Last() + 2 && !BlockOk(file, b)
        ensures p <= Consumed(b)
      {
        ConsumedGrows(k, b);
      }
    }

    lemma OffInjective(i: nat, j: nat)
      requires Valid() && Off(i) == Off(j)
      ensures i == j
    {
      if i < j { BoffGrows(DataSize(bits), i, j); }
      if j < i { BoffGrows(DataSize(bits), j, i); }
    }

    /** seekBlock()'s arithmetic: the block an offset falls in, and where that block starts. */
    lemma SeekTarget(offset: nat)
      requires Valid() && offset <= |data|
      ensures var d := DataSize(bits); var n := (offset + HDRSZ) / d;
              && n == FullCount(d, HDRSZ + offset) <= Last()
              && Off(n) <= offset < Off(n + 1)
              && Off(n) == (if n == 0 then 0 else n * d - HDRSZ)
              && Times(n, d + PER_BLK) == n * (d + PER_BLK)
    {
      var d := DataSize(bits);
      var n := FullCount(d, HDRSZ + offset);
      TimesIsProduct(n, d);
      TimesIsProduct(n, d + PER_BLK);
      BlockStarts(d, offset, n);
      BlockStarts(d, offset, n + 1);
      BlockStarts(d, |data|, n);
    }

    /** An offset that is itself a block start falls in that block. */
    lemma SeekStart(k: nat)
      requires Valid() && Off(k) <= |data|
      ensures FullCount(DataSize(bits), HDRSZ + Off(k)) == k
    {
      SeekTarget(Off(k));
      var n := FullCount(DataSize(bits), HDRSZ + Off(k));
      BoffStep(DataSize(bits), n);
      if n < k { BoffGrows(DataSize(bits), n, k); }
      if k < n { BoffGrows(DataSize(bits), k, n); }
    }

    lemma BlockOffset(n: nat)
      requires Valid()
      ensures var d := DataSize(bits);
              && Off(n) == (if n == 0 then 0 else n * d - HDRSZ)
              && Times(n, d + PER_BLK) == n * (d + PER_BLK)
    {
      TimesIsProduct(n, DataSize(bits));
      TimesIsProduct(n, DataSize(bits) + PER_BLK);
    }

    lemma ClosedSize()
      requires Valid()
      ensures |Closed(bits, data)| == Times(Last() + 2, DataSize(bits) + PER_BLK)
    {
      hide DataSize, Image, Parity, FullCount;
      ImageLength(AllBodies(bits, data), DataSize(bits) + 2);
    }

    /** fileSize()'s guess at the number of blocks: `size` divided by the block size. */
    lemma SizeInBlocks(file: seq<byte>, n: nat)
      requires Valid() && Ends(file) && n == |file| / (DataSize(bits) + PER_BLK)
      requires |file| % (DataSize(bits) + PER_BLK) == 0
      ensures n <= Last() + 2
      ensures Whole(file) ==> n == Last() + 2
      ensures |file| >= 2 * (DataSize(bits) + PER_BLK) ==> n >= 2
    {
      hide DataSize, Closed, FullCount, Times;
      var w := DataSize(bits) + PER_BLK;
      assert |file| == n * w;
      TimesIsProduct(n, w);
      if Last() + 2 < n { TimesGrows(Last() + 2, n, w); }
      if n < Last() + 2 { TimesGrows(n, Last() + 2, w); }
      ClosedSize();
      if n < 2 { assert n * w <= w; }
    }

    /** It is the size of the data exactly if nothing stands behind the parity block. */
    lemma SizeExactly(file: seq<byte>)
      requires Valid() && Frames(file) && Whole(file)
      requires |file| % (DataSize(bits) + PER_BLK) == 0 && |file| >= 2 * (DataSize(bits) + PER_BLK)
      ensures SizeFound(file, -1) == Some(|data|) <==> Ends(file)
      ensures Ends(file) <==> |file| / (DataSize(bits) + PER_BLK) == Last() + 2
    {
      hide DataSize, FullCount, Times, Step, Frames, Whole, Last, Off;
      var w := DataSize(bits) + PER_BLK;
      var n := |file| / w;
      InBlocks(file, n);
      if Ends(file) {
        SizeInBlocks(file, n);
        WholeIsGood(file);
        StepKnown(file, n - 2, -1);
      } else {
        StepBehind(file, n - 2);
      }
    }

    lemma InBlocks(file: seq<byte>, n: nat)
      requires Valid() && Whole(file) && n == |file| / (DataSize(bits) + PER_BLK)
      requires |file| % (DataSize(bits) + PER_BLK) == 0
      ensures n >= Last() + 2 && (Ends(file) <==> n == Last() + 2)
    {
      hide DataSize, FullCount, Times, Closed;
      var w := DataSize(bits) + PER_BLK;
      assert |file| == n * w;
      TimesIsProduct(n, w);
      ClosedSize();
      if n < Last() + 2 { TimesGrows(n, Last() + 2, w); }
      if Last() + 2 < n { TimesGrows(Last() + 2, n, w); }
    }

    /** A size found behind the data is too large. */
    lemma StepBehind(file: seq<byte>, k: nat)
      requires Valid() && k > Last()
      ensures var step := Step(file, k, -1); step.Reads? && step.size >= 0 ==> step.size > |data|
    {
      hide BlockOk, Last, Off, Len;
      Starts(k);
      LenNat(file, k);
    }

    lemma LenNat(file: seq<byte>, k: nat)
      requires Valid()
      ensures BlockOk(file, k) ==> Len(file, k) >= 0
    {
    }

    lemma XorSplits(i: nat, j: nat, k: nat)
      requires Valid() && i <= j <= k <= Last() + 2
      ensures XorOf(i, k) == XorBytes(XorOf(i, j), XorOf(j, k))
    {
      hide Parity, Bodies, XorBytes, DataSize;
      assert Bodies()[i..k] == Bodies()[i..j] + Bodies()[j..k];
      ParityConcat(Bodies()[i..j], Bodies()[j..k], DataSize(bits) + 2);
    }

    /** The blocks in front of block k, from the data in front of it. */
    lemma Prefix(k: nat)
      requires Valid() && 0 < k <= Last()
      ensures Off(k) <= |data|
      ensures var d, s := DataSize(bits), Stream(bits, data[..Off(k)]);
              |s| == Times(k, d) && FullBodies(d, s, k) == Bodies()[..k]
    {
      hide DataSize, FullBodies, Header;
      Starts(k);
      var d, s, all := DataSize(bits), Stream(bits, data[..Off(k)]), Stream(bits, data);
      assert all == s + data[Off(k)..];
      FullBodiesPrefix(d, s, data[Off(k)..], k);
      FullBodiesTake(d, all, Last(), k);
      assert Bodies()[..k] == FullBodies(d, all, Last())[..k];
    }

    /** What `xor` is off by when blocks from `to` on were not read, or the file's parity is bad. */
    ghost function Defect(to: nat): (x: seq<byte>)
      requires Valid() && to <= Last() + 2
      ensures |x| == DataSize(bits) + 2
    {
      XorBytes(XorOf(0, Last() + 2), XorOf(to, Last() + 2))
    }

    /** Append mode: the exclusive-or of the blocks from k on stands for that of the blocks before k. */
    lemma AppendXor(k: nat, to: nat)
      requires Valid() && k <= Last() && k <= to <= Last() + 2
      ensures k == 0 ==> Defect(to) == XorOf(0, to)
      ensures k > 0 ==>
        && Off(k) <= |data|
        && var d, s := DataSize(bits), Stream(bits, data[..Off(k)]);
        && |s| == Times(k, d) < Times(k + 1, d)
        && Pending(d, s, k) == [] && Output(d, s, k, k) == []
        && Accumulated(d, s, k, Defect(to)) == XorOf(k, to)
    {
      hide DataSize, XorOf, XorBytes, Absorbed, FullBodies, Header, Stream;
      var end := Last() + 2;
      var a, b, c := XorOf(0, k), XorOf(k, to), XorOf(to, end);
      XorSplits(0, to, end);
      XorBytesCancels(XorOf(0, to), c);
      if k > 0 {
        Prefix(k);
        var d, s := DataSize(bits), Stream(bits, data[..Off(k)]);
        assert Times(k + 1, d) == Times(k, d) + d;
        XorSplits(0, k, to);
        XorBytesCommutes(a, b);
        XorBytesCancels(b, a);
        FromFront(k);
        AbsorbedWhole(XorBytes(Defect(to), a), Zeros(d + 2));
      }
    }

    lemma FromFront(k: nat)
      requires Valid() && k <= Last()
      ensures XorOf(0, k) == Parity(Bodies()[..k], DataSize(bits) + 2)
    {
      hide Parity, DataSize;
      assert Bodies()[0..k] == Bodies()[..k];
    }

    /** Reading to the end of a good file leaves nothing to correct. */
    lemma NoDefect(to: nat)
      requires Valid() && to == Last() + 2
      requires parity == Parity(DataBodies(bits, data), DataSize(bits) + 2)
      ensures Defect(to) == Zeros(DataSize(bits) + 2)
    {
      hide Parity, DataSize;
      assert Bodies()[0..Last() + 2] == Bodies();
      ParityBlockUnique(DataBodies(bits, data), parity, DataSize(bits) + 2);
      XorOfNone(to);
      XorBytesZero(Zeros(DataSize(bits) + 2));
    }

    /** A new file: nothing read, nothing off. */
    lemma NothingRead(file: seq<byte>)
      requires Valid() && data == [] && file == []
      ensures Frames(file) && Defect(0) == Zeros(DataSize(bits) + 2)
    {
      hide DataSize, Bodies, Parity, Seal, FullCount, XorOf, XorBytes;
      XorBytesSelf(XorOf(0, Last() + 2));
    }

    lemma XorOfNone(k: nat)
      requires Valid() && k <= Last() + 2
      ensures XorOf(k, k) == Zeros(DataSize(bits) + 2)
    {
    }
  }

  lemma SealChecks(body: seq<byte>)
    ensures Checks(Seal(body), |body|)
    ensures Seal(body)[..|body|] == body
  {
    assert Seal(body)[..|body|] == body;
    ChecksMeansSealed(Seal(body), |body|);
  }

  /** A file in which block k is complete is at least that long. */
  lemma CheckedLength(file: seq<byte>, k: nat, w: nat)
    requires Checks(Raw(file, k, w), w)
    ensures Times(k + 1, w + 4) <= |file|
  {
    assert Times(k + 1, w + 4) == Times(k, w + 4) + w + 4;
  }
}
