/**
 A closed file of utils/fopen_crc.c byte by byte, in numbers: what a program in
 another language would have to write.
 */
module CrcBytes {
  import opened Bits
  import opened CrcFormat
  import Crc32c

  /** Byte m of block k of a file in blocks of p bytes; 0 behind the end. */
  function ByteAt(file: seq<byte>, p: nat, k: nat, m: nat): byte
  {
    var i := k * p + m;
    if 0 <= i < |file| then file[i] else 0
  }

  /** Byte j of "CRc 0dd\n", the data and zeros. */
  function StreamByte(bits: int, data: seq<byte>, j: nat): int
  {
    if j < 8 then [0x43, 0x52, 0x63, 0x20, 0x30, 0x30 + bits / 10, 0x30 + bits % 10, 0x0A][j]
    else if j - 8 < |data| then data[j - 8]
    else 0
  }

  /** Byte m of block k of the stream, cut into pieces of d bytes. */
  function StreamAt(bits: int, data: seq<byte>, d: nat, k: nat, m: nat): int
  {
    StreamByte(bits, data, k * d + m)
  }

  /** How many blocks of d bytes the header and `total` bytes fill. */
  function Filled(total: nat, d: nat): nat
    requires d > 0
  {
    (total + 8) / d
  }

  /** How many of `total` data bytes are in block k of d bytes, eight of which the header takes from block 0. */
  function Held(total: nat, d: nat, k: nat): int
  {
    (if (k + 1) * d <= total + 8 then d else total + 8 - k * d) - if k == 0 then 8 else 0
  }

  /** The exclusive-or of byte m of the first n blocks. */
  function Column(file: seq<byte>, p: nat, m: nat, n: nat): nat
  {
    if n == 0 then 0 else Xor(Column(file, p, m, n - 1), ByteAt(file, p, n - 1, m))
  }

  /** What the CRC of block k is about, and the CRC as it is stored: lowest byte first. */
  function Body(file: seq<byte>, p: nat, k: nat): seq<byte>
    requires p >= 4
  {
    seq(p - 4, m requires 0 <= m < p - 4 => ByteAt(file, p, k, m))
  }

  function StoredCrc(file: seq<byte>, p: nat, k: nat): int
    requires p >= 4
  {
    FourBytes(ByteAt(file, p, k, p - 4), ByteAt(file, p, k, p - 3),
              ByteAt(file, p, k, p - 2), ByteAt(file, p, k, p - 1))
  }

  /** Block k holds its part of the stream, padded with zeros, and its length, low byte first. */
  ghost predicate DataBlock(file: seq<byte>, bits: int, data: seq<byte>, p: nat, d: nat, k: nat)
  {
    && (forall m: nat :: m < d ==> ByteAt(file, p, k, m) == StreamAt(bits, data, d, k, m))
    && ByteAt(file, p, k, d) == Held(|data|, d, k) % 256
    && ByteAt(file, p, k, d + 1) == Held(|data|, d, k) / 256
  }

  ghost predicate ParityBlock(file: seq<byte>, p: nat, k: nat)
    requires p >= 4
  {
    forall m: nat :: m < p - 4 ==> ByteAt(file, p, k, m) == Column(file, p, m, k)
  }

  /** Blocks 0 up to n are data blocks, the next is the parity block, and each has its CRC. */
  ghost predicate Blocks(file: seq<byte>, bits: int, data: seq<byte>, p: nat, d: nat, n: nat)
    requires p >= 4
  {
    && (forall k: nat :: k < n ==> DataBlock(file, bits, data, p, d, k))
    && ParityBlock(file, p, n)
    && (forall k: nat :: k <= n ==> StoredCrc(file, p, k) == Crc32c.Crc(0, Body(file, p, k)))
  }

  /**
   The file holds `data` in blocks of 2^bits bytes: as many data blocks as it takes
   for the last one not to be full, and the parity block, each with its CRC.
   */
  ghost predicate LaidOut(file: seq<byte>, bits: int, data: seq<byte>)
    requires IsBits(bits)
  {
    var p := Pow2(bits);
    && p >= 64
    && var n := Filled(|data|, p - 6);
    && |file| == (n + 2) * p
    && Blocks(file, bits, data, p, p - 6, n + 1)
  }

  // -------------------------------------------------- the closed file is laid out

  lemma BlockSize(bits: int)
    requires IsBits(bits)
    ensures Pow2(bits) == DataSize(bits) + 6 >= 64
  {
  }

  lemma BytesOfRaw(file: seq<byte>, w: nat, k: nat, m: nat)
    requires |Raw(file, k, w)| == w + 4 && m < w + 4
    ensures ByteAt(file, w + 4, k, m) == Raw(file, k, w)[m]
  {
    TimesIsProduct(k, w + 4);
    assert Times(k + 1, w + 4) == Times(k, w + 4) + w + 4;
  }

  /** Block k of a closed file is its sealed body. */
  lemma ClosedBytes(bits: int, data: seq<byte>, k: nat)
    requires IsBits(bits) && k < |AllBodies(bits, data)|
    ensures forall m: nat :: m < Pow2(bits) ==>
      ByteAt(Closed(bits, data), Pow2(bits), k, m) == Seal(AllBodies(bits, data)[k])[m]
  {
    hide AllBodies, Image, Raw, Seal, ByteAt, DataSize, Pow2;
    BlockSize(bits);
    var w := DataSize(bits) + 2;
    ImageBlock(AllBodies(bits, data), k, w);
    forall m: nat | m < Pow2(bits)
      ensures ByteAt(Closed(bits, data), Pow2(bits), k, m) == Seal(AllBodies(bits, data)[k])[m]
    {
      BytesOfRaw(Closed(bits, data), w, k, m);
    }
  }

  lemma StreamBytes(bits: int, data: seq<byte>)
    requires IsBits(bits)
    ensures forall j: nat :: j < |Stream(bits, data)| ==> StreamByte(bits, data, j) == Stream(bits, data)[j]
    ensures forall j: nat :: j >= |Stream(bits, data)| ==> StreamByte(bits, data, j) == 0
  {
  }

  lemma LengthBytes(len: int)
    requires 0 <= len < 0x1_0000
    ensures Le16(len)[0] == len % 256 && Le16(len)[1] == len / 256
  {
  }

  /** The body of a data block, byte by byte. */
  lemma FullBodyBytes(bits: int, data: seq<byte>, k: nat)
    requires IsBits(bits) && k < FullCount(DataSize(bits), HDRSZ + |data|)
    ensures var d := DataSize(bits); var b := AllBodies(bits, data)[k];
      && (forall m: nat :: m < d ==> b[m] == StreamAt(bits, data, d, k, m))
      && b[d] == Held(|data|, d, k) % 256 && b[d + 1] == Held(|data|, d, k) / 256
  {
    hide DataSize, Stream, StreamByte, FullBodies, LastBody, Le16;
    var d, s := DataSize(bits), Stream(bits, data);
    var n := FullCount(d, |s|);
    StreamBytes(bits, data);
    FullBodiesAt(d, s, n, k);
    TimesGrows(k, n, d);
    TimesIsProduct(k, d);
    TimesIsProduct(k + 1, d);
    assert AllBodies(bits, data)[k] == FullBody(d, s, k);
    LengthBytes(FullLen(d, k));
    assert Held(|data|, d, k) == FullLen(d, k);
  }

  lemma LastBodyBytes(bits: int, data: seq<byte>)
    requires IsBits(bits)
    ensures var d := DataSize(bits); var n := FullCount(d, HDRSZ + |data|); var b := AllBodies(bits, data)[n];
      && (forall m: nat :: m < d ==> b[m] == StreamAt(bits, data, d, n, m))
      && b[d] == Held(|data|, d, n) % 256 && b[d + 1] == Held(|data|, d, n) / 256
  {
    hide DataSize, Stream, StreamByte, FullBodies, Le16, FullCount;
    var d, s := DataSize(bits), Stream(bits, data);
    var n := FullCount(d, |s|);
    StreamBytes(bits, data);
    TimesIsProduct(n, d);
    TimesIsProduct(n + 1, d);
    var frag := s[Times(n, d)..];
    var len := if n == 0 then |frag| - HDRSZ else |frag|;
    assert AllBodies(bits, data)[n] == frag + Zeros(d - |frag|) + Le16(len);
    LengthBytes(len);
    assert Held(|data|, d, n) == len;
  }

  lemma {:induction false} ColumnIsParity(file: seq<byte>, p: nat, bodies: seq<seq<byte>>, w: nat, m: nat, n: nat)
    requires Uniform(bodies, w) && m < w && n <= |bodies|
    requires forall k: nat :: k < n ==> ByteAt(file, p, k, m) == bodies[k][m]
    ensures Column(file, p, m, n) == Parity(bodies[..n], w)[m]
  {
    hide Xor, ByteAt;
    if n > 0 {
      ColumnIsParity(file, p, bodies, w, m, n - 1);
      assert bodies[..n] == bodies[..n - 1] + [bodies[n - 1]];
      ParitySnoc(bodies[..n - 1], bodies[n - 1], w);
    }
  }

  /** The CRC of a sealed body, lowest byte first. */
  lemma SealBytes(body: seq<byte>)
    ensures var s, w := Seal(body), |body|;
      && FourBytes(s[w], s[w + 1], s[w + 2], s[w + 3]) == Crc32c.Crc(0, body)
      && forall m: nat :: m < w ==> s[m] == body[m]
  {
    hide Crc32c.Crc, Le32;
    var crc := Crc32c.Crc(0, body);
    Le32RoundTrip(crc);
    assert Seal(body)[|body|..] == Le32(crc);
  }

  lemma ClosedCrc(bits: int, data: seq<byte>, k: nat)
    requires IsBits(bits) && k < |AllBodies(bits, data)| && Pow2(bits) >= 64
    ensures var p, file := Pow2(bits), Closed(bits, data);
      && Body(file, p, k) == AllBodies(bits, data)[k]
      && StoredCrc(file, p, k) == Crc32c.Crc(0, Body(file, p, k))
  {
    hide Pow2, DataSize, Seal, AllBodies, ByteAt, Closed, Crc32c.Crc;
    BlockSize(bits);
    var body := AllBodies(bits, data)[k];
    ClosedBytes(bits, data, k);
    SealBytes(body);
    assert Body(Closed(bits, data), Pow2(bits), k) == body;
  }

  lemma BodyIsData(file: seq<byte>, bits: int, data: seq<byte>, p: nat, d: nat, k: nat, b: seq<byte>)
    requires |b| == d + 2 && forall m: nat :: m < d + 2 ==> ByteAt(file, p, k, m) == b[m]
    requires forall m: nat :: m < d ==> b[m] == StreamAt(bits, data, d, k, m)
    requires b[d] == Held(|data|, d, k) % 256 && b[d + 1] == Held(|data|, d, k) / 256
    ensures DataBlock(file, bits, data, p, d, k)
  {
    hide ByteAt, StreamAt, Held;
  }

  lemma ClosedData(bits: int, data: seq<byte>, k: nat)
    requires IsBits(bits) && Pow2(bits) >= 64 && k <= FullCount(DataSize(bits), HDRSZ + |data|)
    ensures DataBlock(Closed(bits, data), bits, data, Pow2(bits), DataSize(bits), k)
  {
    hide Pow2, DataSize, Seal, AllBodies, ByteAt, Closed, StreamAt, Held, FullCount, DataBlock;
    BlockSize(bits);
    ClosedBytes(bits, data, k);
    SealBytes(AllBodies(bits, data)[k]);
    if k < FullCount(DataSize(bits), HDRSZ + |data|) {
      FullBodyBytes(bits, data, k);
    } else {
      LastBodyBytes(bits, data);
    }
    BodyIsData(Closed(bits, data), bits, data, Pow2(bits), DataSize(bits), k, AllBodies(bits, data)[k]);
  }

  lemma ClosedParity(bits: int, data: seq<byte>)
    requires IsBits(bits) && Pow2(bits) >= 64
    ensures ParityBlock(Closed(bits, data), Pow2(bits), FullCount(DataSize(bits), HDRSZ + |data|) + 1)
  {
    hide Pow2, DataSize, Seal, ByteAt, Closed, Column, DataBodies, Parity, FullCount;
    BlockSize(bits);
    var d, all := DataSize(bits), AllBodies(bits, data);
    var n, file := FullCount(d, HDRSZ + |data|) + 1, Closed(bits, data);
    forall m: nat | m < d + 2
      ensures ByteAt(file, Pow2(bits), n, m) == Column(file, Pow2(bits), m, n)
    {
      forall k: nat | k <= n
        ensures ByteAt(file, Pow2(bits), k, m) == all[k][m]
      {
        ClosedBytes(bits, data, k);
        SealBytes(all[k]);
      }
      ColumnIsParity(file, Pow2(bits), all, d + 2, m, n);
      assert all[..n] == DataBodies(bits, data);
    }
  }

  lemma ClosedIsLaidOut(bits: int, data: seq<byte>)
    requires IsBits(bits)
    ensures LaidOut(Closed(bits, data), bits, data)
  {
    hide Pow2, DataSize, Closed, AllBodies, ByteAt, StoredCrc, Body, DataBlock, ParityBlock, Crc32c.Crc;
    BlockSize(bits);
    assert Filled(|data|, DataSize(bits)) == FullCount(DataSize(bits), HDRSZ + |data|);
    var n := FullCount(DataSize(bits), HDRSZ + |data|) + 1;
    ClosedLength(bits, data);
    ClosedParity(bits, data);
    forall k: nat | k < n
      ensures DataBlock(Closed(bits, data), bits, data, Pow2(bits), DataSize(bits), k)
    {
      ClosedData(bits, data, k);
    }
    forall k: nat | k <= n
      ensures StoredCrc(Closed(bits, data), Pow2(bits), k) == Crc32c.Crc(0, Body(Closed(bits, data), Pow2(bits), k))
    {
      ClosedCrc(bits, data, k);
    }
  }

  // ----------------------------------------------- and the only file that is

  lemma {:induction false} SameColumn(f: seq<byte>, g: seq<byte>, p: nat, m: nat, n: nat)
    requires forall k: nat :: k < n ==> ByteAt(f, p, k, m) == ByteAt(g, p, k, m)
    ensures Column(f, p, m, n) == Column(g, p, m, n)
  {
    hide ByteAt, Xor;
    if n > 0 { SameColumn(f, g, p, m, n - 1); }
  }

  lemma LowSame(a: byte, hi: int, a': byte, hi': int)
    requires a + 0x100 * hi == a' + 0x100 * hi'
    ensures a == a' && hi == hi'
  {
  }

  lemma FourSame(a: byte, b: byte, c: byte, d: byte, a': byte, b': byte, c': byte, d': byte)
    requires FourBytes(a, b, c, d) == FourBytes(a', b', c', d')
    ensures a == a' && b == b' && c == c' && d == d'
  {
    LowSame(a, b + 0x100 * c + 0x1_0000 * d, a', b' + 0x100 * c' + 0x1_0000 * d');
    LowSame(b, c + 0x100 * d, b', c' + 0x100 * d');
    LowSame(c, d, c', d');
  }

  lemma SameBody(f: seq<byte>, g: seq<byte>, bits: int, data: seq<byte>, p: nat, n: nat, k: nat, m: nat)
    requires p >= 6 && Blocks(f, bits, data, p, p - 6, n) && Blocks(g, bits, data, p, p - 6, n)
    requires k <= n && m < p - 4
    ensures ByteAt(f, p, k, m) == ByteAt(g, p, k, m)
  {
    hide ByteAt, StreamAt, Held, StoredCrc, Body, Column;
    if k < n {
      assert DataBlock(f, bits, data, p, p - 6, k) && DataBlock(g, bits, data, p, p - 6, k);
      if m >= p - 6 { assert m == p - 6 || m == p - 6 + 1; }
    } else {
      forall j: nat | j < n
        ensures ByteAt(f, p, j, m) == ByteAt(g, p, j, m)
      {
        SameBody(f, g, bits, data, p, n, j, m);
      }
      SameColumn(f, g, p, m, n);
    }
  }

  lemma SameBlock(f: seq<byte>, g: seq<byte>, bits: int, data: seq<byte>, p: nat, n: nat, k: nat, m: nat)
    requires p >= 6 && Blocks(f, bits, data, p, p - 6, n) && Blocks(g, bits, data, p, p - 6, n)
    requires k <= n && m < p
    ensures ByteAt(f, p, k, m) == ByteAt(g, p, k, m)
  {
    hide ByteAt, StreamAt, Held, Column, Crc32c.Crc, DataBlock, ParityBlock, FourBytes;
    forall j: nat | j < p - 4
      ensures ByteAt(f, p, k, j) == ByteAt(g, p, k, j)
    {
      SameBody(f, g, bits, data, p, n, k, j);
    }
    assert Body(f, p, k) == Body(g, p, k);
    FourSame(ByteAt(f, p, k, p - 4), ByteAt(f, p, k, p - 3), ByteAt(f, p, k, p - 2), ByteAt(f, p, k, p - 1),
             ByteAt(g, p, k, p - 4), ByteAt(g, p, k, p - 3), ByteAt(g, p, k, p - 2), ByteAt(g, p, k, p - 1));
    if m >= p - 4 { assert m == p - 4 || m == p - 3 || m == p - 2 || m == p - 1; }
  }

  lemma Place(i: nat, p: nat, n: nat) returns (k: nat, m: nat)
    requires p > 0 && i < (n + 1) * p
    ensures k <= n && m < p && i == k * p + m
  {
    k, m := i / p, i % p;
  }

  /** These bytes make up the closed file and no other. */
  lemma LaidOutExactly(file: seq<byte>, bits: int, data: seq<byte>)
    requires IsBits(bits)
    ensures LaidOut(file, bits, data) <==> file == Closed(bits, data)
  {
    hide Closed, Blocks, Filled, Pow2;
    ClosedIsLaidOut(bits, data);
    if LaidOut(file, bits, data) {
      var p, g := Pow2(bits), Closed(bits, data);
      var n := Filled(|data|, p - 6) + 1;
      forall i | 0 <= i < |file|
        ensures file[i] == g[i]
      {
        var k, m := Place(i, p, n);
        SameBlock(file, g, bits, data, p, n, k, m);
      }
    }
  }
}
