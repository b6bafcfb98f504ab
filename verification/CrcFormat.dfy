/**
 The file format of utils/fopen_crc.c, as functions of the data it holds.

 With the 8-byte header put in front of the data, the file is that stream cut
 into pieces of `d` bytes.  Every piece gets a length and a CRC, the last piece
 is short (possibly empty) and zero-padded, and one parity block follows.
 */
module CrcFormat {
  import opened Wrappers
  import opened Bits
  import Crc32c

  const HDRSZ := 8
  const PER_BLK := 6

  /** The sizes best_datasz() can choose from. */
  predicate IsBits(bits: int) { 6 <= bits <= 16 }

  /** Data bytes in every block but the first: 2^bits - PER_BLK. */
  function DataSize(bits: int): (d: int)
    requires IsBits(bits)
    ensures 58 <= d <= 65530
  {
    Pow2Grows(6, bits);
    Pow2Grows(bits, 16);
    assert Pow2(6) == 64;
    assert Pow2(16) == 65536;
    Pow2(bits) - PER_BLK
  }

  /** n * w, by repeated addition. */
  function Times(n: nat, w: nat): (r: nat)
    decreases n
  {
    if n == 0 then 0 else Times(n - 1, w) + w
  }

  lemma {:induction false} TimesIsProduct(n: nat, w: nat)
    ensures Times(n, w) == n * w
    decreases n
  {
    if n != 0 {
      TimesIsProduct(n - 1, w);
      assert n * w == (n - 1) * w + w;
    }
  }

  lemma {:induction false} TimesGrows(j: nat, k: nat, w: nat)
    requires j < k
    ensures Times(j, w) + w <= Times(k, w)
    decreases k
  {
    if j < k - 1 { TimesGrows(j, k - 1, w); }
  }

  lemma DivisionOfTimes(n: nat, p: nat)
    requires p > 0
    ensures Times(n, p) / p == n
  {
    var q := Times(n, p) / p;
    TimesIsProduct(q, p);
    if q < n { TimesGrows(q, n, p); }
    if n < q { TimesGrows(n, q, p); }
  }

  predicate IsDataSize(d: int) { 58 <= d <= 65530 }

  // ------------------------------------------------------------ byte strings

  function Zeros(n: nat): (s: seq<byte>)
    ensures |s| == n
  {
    seq(n, _ => 0)
  }

  function XorBytes(a: seq<byte>, b: seq<byte>): (r: seq<byte>)
    requires |a| == |b|
    ensures |r| == |a|
    ensures forall i :: 0 <= i < |r| ==> r[i] == XorByte(a[i], b[i])
  {
    seq(|a|, i requires 0 <= i < |a| => XorByte(a[i], b[i]))
  }

  lemma XorBytesAssociates(a: seq<byte>, b: seq<byte>, c: seq<byte>)
    requires |a| == |b| == |c|
    ensures XorBytes(XorBytes(a, b), c) == XorBytes(a, XorBytes(b, c))
  {
    forall i | 0 <= i < |a|
      ensures XorByte(XorByte(a[i], b[i]), c[i]) == XorByte(a[i], XorByte(b[i], c[i]))
    {
      XorAssociates(a[i], b[i], c[i]);
    }
  }

  lemma XorBytesCommutes(a: seq<byte>, b: seq<byte>)
    requires |a| == |b|
    ensures XorBytes(a, b) == XorBytes(b, a)
  {
    forall i | 0 <= i < |a|
      ensures XorByte(a[i], b[i]) == XorByte(b[i], a[i])
    {
      XorCommutes(a[i], b[i]);
    }
  }

  lemma XorBytesZero(a: seq<byte>)
    ensures XorBytes(a, Zeros(|a|)) == a
    ensures XorBytes(Zeros(|a|), a) == a
  {
    forall i | 0 <= i < |a|
      ensures XorByte(a[i], 0) == a[i] && XorByte(0, a[i]) == a[i]
    {
      XorZero(a[i]);
    }
  }

  lemma XorBytesSelf(a: seq<byte>)
    ensures XorBytes(a, a) == Zeros(|a|)
  {
    forall i | 0 <= i < |a|
      ensures XorByte(a[i], a[i]) == 0
    {
      XorSelf(a[i]);
    }
  }

  lemma XorBytesCancels(a: seq<byte>, b: seq<byte>)
    requires |a| == |b|
    ensures XorBytes(XorBytes(a, b), b) == a
  {
    XorBytesAssociates(a, b, b);
    XorBytesSelf(b);
    XorBytesZero(a);
  }

  /** x with b xor-ed in from index `at` on. */
  ghost function Absorbed(x: seq<byte>, at: nat, b: seq<byte>): (r: seq<byte>)
    requires at + |b| <= |x|
    ensures |r| == |x|
  {
    XorBytes(x, Zeros(at) + b + Zeros(|x| - at - |b|))
  }

  lemma AbsorbedTwice(x: seq<byte>, at: nat, a: seq<byte>, b: seq<byte>)
    requires at + |a| + |b| <= |x|
    ensures Absorbed(Absorbed(x, at, a), at + |a|, b) == Absorbed(x, at, a + b)
  {
    var y := Absorbed(x, at, a);
    var z := Absorbed(y, at + |a|, b);
    forall i | 0 <= i < |x|
      ensures z[i] == Absorbed(x, at, a + b)[i]
    {
      XorZero(x[i]);
      XorZero(y[i]);
    }
  }

  lemma AbsorbedWhole(x: seq<byte>, b: seq<byte>)
    requires |x| == |b|
    ensures Absorbed(x, 0, b) == XorBytes(x, b)
    ensures Absorbed(x, 0, []) == x
  {
    assert Zeros(0) + b + Zeros(0) == b;
    assert Zeros(0) + [] + Zeros(|x|) == Zeros(|x|);
    XorBytesZero(x);
  }

  // ------------------------------------------------------- blocks and parity

  /** The part of a block under its CRC, with the CRC appended. */
  function Seal(body: seq<byte>): (s: seq<byte>)
    ensures |s| == |body| + 4
  {
    body + Le32(Crc32c.Crc(0, body))
  }

  /** What readBlock() and crcCheckVerify() accept as a block of body width w. */
  predicate Checks(raw: seq<byte>, w: nat)
  {
    |raw| == w + 4 && Crc32c.Crc(0, raw[..w]) == FromLe32(raw[w..])
  }

  lemma ChecksMeansSealed(raw: seq<byte>, w: nat)
    ensures Checks(raw, w) <==> |raw| == w + 4 && raw == Seal(raw[..w])
  {
    if |raw| == w + 4 {
      assert raw == raw[..w] + raw[w..];
      var crc := Crc32c.Crc(0, raw[..w]);
      assert Seal(raw[..w])[w..] == Le32(crc);
      Le32RoundTrip(crc);
      Le32OfFrom(raw[w..]);
    }
  }

  predicate Uniform(bodies: seq<seq<byte>>, w: nat)
  {
    forall k :: 0 <= k < |bodies| ==> |bodies[k]| == w
  }

  /** The bytes of a file made of the given blocks. */
  function Image(bodies: seq<seq<byte>>): seq<byte>
  {
    if bodies == [] then [] else Image(bodies[..|bodies| - 1]) + Seal(bodies[|bodies| - 1])
  }

  /** Exclusive-or of all bodies. */
  function Parity(bodies: seq<seq<byte>>, w: nat): (x: seq<byte>)
    requires Uniform(bodies, w)
    ensures |x| == w
  {
    if bodies == [] then Zeros(w)
    else XorBytes(Parity(bodies[..|bodies| - 1], w), bodies[|bodies| - 1])
  }

  lemma ImageSnoc(bodies: seq<seq<byte>>, b: seq<byte>)
    ensures Image(bodies + [b]) == Image(bodies) + Seal(b)
  {
    assert (bodies + [b])[..|bodies|] == bodies;
  }

  lemma ParitySnoc(bodies: seq<seq<byte>>, b: seq<byte>, w: nat)
    requires Uniform(bodies, w) && |b| == w
    ensures Uniform(bodies + [b], w)
    ensures Parity(bodies + [b], w) == XorBytes(Parity(bodies, w), b)
  {
    assert (bodies + [b])[..|bodies|] == bodies;
  }

  lemma {:induction false} ImageConcat(a: seq<seq<byte>>, b: seq<seq<byte>>)
    ensures Image(a + b) == Image(a) + Image(b)
  {
    hide Seal;
    if b == [] {
      assert a + b == a;
    } else {
      var init, last := b[..|b| - 1], b[|b| - 1];
      assert b == init + [last] && a + b == (a + init) + [last];
      ImageConcat(a, init);
      ImageSnoc(a + init, last);
    }
  }

  lemma {:induction false} ParityConcat(a: seq<seq<byte>>, b: seq<seq<byte>>, w: nat)
    requires Uniform(a, w) && Uniform(b, w)
    ensures Uniform(a + b, w)
    ensures Parity(a + b, w) == XorBytes(Parity(a, w), Parity(b, w))
  {
    if b == [] {
      assert a + b == a;
      XorBytesZero(Parity(a, w));
    } else {
      var init, last := b[..|b| - 1], b[|b| - 1];
      assert b == init + [last] && a + b == (a + init) + [last];
      ParityConcat(a, init, w);
      ParitySnoc(a + init, last, w);
      XorBytesAssociates(Parity(a, w), Parity(init, w), last);
    }
  }

  lemma {:induction false} ImageLength(bodies: seq<seq<byte>>, w: nat)
    requires Uniform(bodies, w)
    ensures |Image(bodies)| == Times(|bodies|, w + 4)
  {
    hide Crc32c.Crc, Le32;
    if bodies != [] {
      ImageLength(bodies[..|bodies| - 1], w);
    }
  }

  /** Block k of a file, or whatever is left of it when the file is too short. */
  function Raw(file: seq<byte>, k: nat, w: nat): seq<byte>
  {
    var from, to := Times(k, w + 4), Times(k + 1, w + 4);
    if to <= |file| then file[from..to] else if from <= |file| then file[from..] else []
  }

  lemma {:induction false} ImageBlock(bodies: seq<seq<byte>>, k: nat, w: nat)
    requires Uniform(bodies, w) && k < |bodies|
    ensures Raw(Image(bodies), k, w) == Seal(bodies[k])
  {
    hide Crc32c.Crc, Le32;
    var init, last := bodies[..|bodies| - 1], bodies[|bodies| - 1];
    ImageLength(init, w);
    ImageLength(bodies, w);
    if k < |init| {
      ImageBlock(init, k, w);
      TimesGrows(k, |init|, w + 4);
    }
  }

  lemma RawOfPrefix(file: seq<byte>, n: nat, k: nat, w: nat)
    requires n <= |file| && Times(k + 1, w + 4) <= n
    ensures Raw(file[..n], k, w) == Raw(file, k, w)
  {
  }

  /** Block k of a file that begins with the image of some bodies. */
  lemma BlockOfImage(file: seq<byte>, bodies: seq<seq<byte>>, k: nat, w: nat)
    requires Uniform(bodies, w) && Image(bodies) <= file && k < |bodies|
    ensures Raw(file, k, w) == Seal(bodies[k])
  {
    hide Raw, Times, Image, Seal;
    var n := |Image(bodies)|;
    ImageLength(bodies, w);
    if k + 1 < |bodies| { TimesGrows(k + 1, |bodies|, w + 4); }
    assert file[..n] == Image(bodies);
    RawOfPrefix(file, n, k, w);
    ImageBlock(bodies, k, w);
  }

  lemma LastRaw(file: seq<byte>, m: nat, w: nat)
    requires |file| == Times(m + 1, w + 4)
    ensures Times(m, w + 4) <= |file| && Raw(file, m, w) == file[Times(m, w + 4)..]
  {
  }

  lemma NoImage()
    ensures Image([]) == []
  {
  }

  /** A file whose blocks are all the sealed bodies is the image of the bodies. */
  lemma {:induction false} BlocksMakeImage(file: seq<byte>, bodies: seq<seq<byte>>, w: nat)
    requires Uniform(bodies, w)
    requires |file| == Times(|bodies|, w + 4)
    requires forall k :: 0 <= k < |bodies| ==> Raw(file, k, w) == Seal(bodies[k])
    ensures file == Image(bodies)
  {
    hide Seal, Raw, Image;
    if bodies == [] {
      NoImage();
    } else {
      var m := |bodies| - 1;
      var init, n := bodies[..m], Times(m, w + 4);
      LastRaw(file, m, w);
      forall k | 0 <= k < m
        ensures Raw(file[..n], k, w) == Seal(init[k])
      {
        TimesGrows(k, m, w + 4);
        RawOfPrefix(file, n, k, w);
      }
      BlocksMakeImage(file[..n], init, w);
      assert bodies == init + [bodies[m]];
      ImageSnoc(init, bodies[m]);
      assert file == file[..n] + file[n..];
    }
  }

  // ------------------------------------------------------------- whole files

  /** "CRc %03d\n" */
  function Header(bits: int): (h: seq<byte>)
    requires IsBits(bits)
    ensures |h| == HDRSZ
  {
    ['C' as int, 'R' as int, 'c' as int, ' ' as int,
     '0' as int, '0' as int + bits / 10, '0' as int + bits % 10, '\n' as int]
  }

  /** Offset in the data of the start of block k; the header skews all but block 0. */
  function Boff(d: int, k: nat): (o: nat)
    requires IsDataSize(d)
  {
    if k == 0 then 0 else Times(k, d) - HDRSZ
  }

  /** Data bytes in a block that is followed by more data. */
  function FullLen(d: int, k: nat): int { if k == 0 then d - HDRSZ else d }

  lemma BoffStep(d: int, k: nat)
    requires IsDataSize(d)
    ensures Boff(d, k + 1) == Boff(d, k) + FullLen(d, k)
  {
    assert Times(k + 1, d) == Times(k, d) + d;
  }

  lemma BoffZero(d: int, k: nat)
    requires IsDataSize(d)
    ensures Boff(d, k) == 0 <==> k == 0
  {
    if k != 0 { TimesGrows(0, k, d); }
  }

  lemma FullLenFits(d: int, k: nat)
    ensures (if k == 0 then HDRSZ else 0) + FullLen(d, k) == d
  {
  }

  lemma CheckMeans(raw: seq<byte>, w: nat)
    ensures Checks(raw, w) <==> |raw| == w + 4 && Crc32c.Crc(0, raw[..w]) == FromLe32(raw[w..])
  {
  }

  lemma {:induction false} BoffGrows(d: int, j: nat, k: nat)
    requires IsDataSize(d) && j < k
    ensures Boff(d, j) + FullLen(d, j) <= Boff(d, k)
    decreases k
  {
    BoffStep(d, k - 1);
    if j < k - 1 { BoffGrows(d, j, k - 1); } else { BoffStep(d, j); }
  }

  /** The body of block k < n of the stream s, all of it data. */
  function FullBody(d: int, s: seq<byte>, k: nat): (b: seq<byte>)
    requires IsDataSize(d) && Times(k + 1, d) <= |s|
    ensures |b| == d + 2
  {
    s[Times(k, d)..Times(k + 1, d)] + Le16(FullLen(d, k))
  }

  function FullBodies(d: int, s: seq<byte>, n: nat): (bs: seq<seq<byte>>)
    requires IsDataSize(d) && Times(n, d) <= |s|
    ensures |bs| == n && Uniform(bs, d + 2)
  {
    if n == 0 then [] else FullBodies(d, s, n - 1) + [FullBody(d, s, n - 1)]
  }

  /** The short, zero-padded body that marks the end of the data. */
  function LastBody(d: int, s: seq<byte>, n: nat): (b: seq<byte>)
    requires IsDataSize(d) && Times(n, d) <= |s| < Times(n + 1, d) && HDRSZ <= |s|
    ensures |b| == d + 2
  {
    var frag := s[Times(n, d)..];
    frag + Zeros(d - |frag|) + Le16(if n == 0 then |frag| - HDRSZ else |frag|)
  }

  /** Number of blocks before the short one: how many times d goes into the stream. */
  function FullCount(d: int, len: nat): (n: nat)
    requires IsDataSize(d)
    ensures Times(n, d) <= len < Times(n + 1, d)
  {
    TimesIsProduct(len / d, d);
    len / d
  }

  lemma FullCountUnique(d: int, len: nat, n: nat)
    requires IsDataSize(d) && Times(n, d) <= len < Times(n + 1, d)
    ensures FullCount(d, len) == n
  {
    var m := FullCount(d, len);
    if m < n { TimesGrows(m, n, d); }
    if n < m { TimesGrows(n, m, d); }
  }

  /** Header and data. */
  function Stream(bits: int, data: seq<byte>): (s: seq<byte>)
    requires IsBits(bits)
    ensures |s| == HDRSZ + |data|
  {
    Header(bits) + data
  }

  function DataBodies(bits: int, data: seq<byte>): (bs: seq<seq<byte>>)
    requires IsBits(bits)
    ensures Uniform(bs, DataSize(bits) + 2)
    ensures |bs| == FullCount(DataSize(bits), HDRSZ + |data|) + 1
  {
    var d, s := DataSize(bits), Stream(bits, data);
    var n := FullCount(d, |s|);
    FullBodies(d, s, n) + [LastBody(d, s, n)]
  }

  /** All bodies of a file, the parity block included. */
  function AllBodies(bits: int, data: seq<byte>): (bs: seq<seq<byte>>)
    requires IsBits(bits)
    ensures Uniform(bs, DataSize(bits) + 2)
    ensures |bs| == FullCount(DataSize(bits), HDRSZ + |data|) + 2
  {
    var bs := DataBodies(bits, data);
    bs + [Parity(bs, DataSize(bits) + 2)]
  }

  /** The file that holds `data`. */
  function Closed(bits: int, data: seq<byte>): seq<byte>
    requires IsBits(bits)
  {
    Image(AllBodies(bits, data))
  }

  // --------------------------------------------------------- format theorems

  /** All blocks of a file, parity block included, cancel out. */
  lemma ParityIsZero(bits: int, data: seq<byte>)
    requires IsBits(bits)
    ensures Parity(AllBodies(bits, data), DataSize(bits) + 2) == Zeros(DataSize(bits) + 2)
  {
    var bs, w := DataBodies(bits, data), DataSize(bits) + 2;
    ParitySnoc(bs, Parity(bs, w), w);
    XorBytesSelf(Parity(bs, w));
  }

  /** A block appended to the data blocks makes the parity zero only if it is the parity block. */
  lemma ParityBlockUnique(bodies: seq<seq<byte>>, q: seq<byte>, w: nat)
    requires Uniform(bodies, w) && |q| == w
    ensures Uniform(bodies + [q], w)
    ensures Parity(bodies + [q], w) == Zeros(w) <==> q == Parity(bodies, w)
  {
    var p := Parity(bodies, w);
    ParitySnoc(bodies, q, w);
    XorBytesSelf(q);
    if XorBytes(p, q) == Zeros(w) {
      XorBytesCancels(p, q);
      XorBytesZero(q);
    }
  }

  /** A closed file has floor((len + 8) / datasz) + 2 blocks of 2^bits bytes. */
  lemma {:induction false} ClosedLength(bits: int, data: seq<byte>)
    requires IsBits(bits)
    ensures |Closed(bits, data)| == ((|data| + 8) / DataSize(bits) + 2) * Pow2(bits)
  {
    hide Pow2, DataBodies, FullBodies, Parity;
    var bs := AllBodies(bits, data);
    ImageLength(bs, DataSize(bits) + 2);
    TimesIsProduct(|bs|, Pow2(bits));
  }

  /**
   The exclusive-or of the blocks from `cut` to the end of a file, parity block
   included, is the exclusive-or of the blocks before `cut`.
   */
  lemma SuffixIsPrefix(bodies: seq<seq<byte>>, cut: nat, w: nat)
    requires Uniform(bodies, w) && cut <= |bodies|
    requires Parity(bodies, w) == Zeros(w)
    ensures Parity(bodies[cut..], w) == Parity(bodies[..cut], w)
  {
    var a, b := bodies[..cut], bodies[cut..];
    assert bodies == a + b;
    ParityConcat(a, b, w);
    XorBytesCancels(Parity(a, w), Parity(b, w));
    XorBytesZero(Parity(b, w));
  }

  /** Any one body is the exclusive-or of all the others. */
  lemma OthersGiveTheMissingBody(bodies: seq<seq<byte>>, k: nat, w: nat)
    requires Uniform(bodies, w) && k < |bodies|
    requires Parity(bodies, w) == Zeros(w)
    ensures Parity(bodies[..k] + bodies[k + 1..], w) == bodies[k]
  {
    var a, x, b := bodies[..k], bodies[k], bodies[k + 1..];
    assert bodies == a + [x] + b;
    var pa, pb := Parity(a, w), Parity(b, w);
    ParityConcat(a, b, w);
    ParitySnoc(a, x, w);
    ParityConcat(a + [x], b, w);
    XorBytesAssociates(pa, x, pb);
    XorBytesCommutes(x, pb);
    XorBytesAssociates(pa, pb, x);
    XorBytesCancels(XorBytes(pa, pb), x);
    XorBytesZero(x);
  }

  lemma {:induction false} FullBodiesPrefix(d: int, s: seq<byte>, t: seq<byte>, n: nat)
    requires IsDataSize(d) && Times(n, d) <= |s|
    ensures FullBodies(d, s + t, n) == FullBodies(d, s, n)
  {
    if n != 0 {
      hide Le16;
      FullBodiesPrefix(d, s, t, n - 1);
      assert (s + t)[Times(n - 1, d)..Times(n, d)] == s[Times(n - 1, d)..Times(n, d)];
    }
  }

  lemma {:induction false} FullBodiesAt(d: int, s: seq<byte>, n: nat, k: nat)
    requires IsDataSize(d) && Times(n, d) <= |s| && k < n
    ensures Times(k + 1, d) <= |s|
    ensures FullBodies(d, s, n)[k] == FullBody(d, s, k)
    decreases n
  {
    TimesGrows(k, n, d);
    assert FullBodies(d, s, n) == FullBodies(d, s, n - 1) + [FullBody(d, s, n - 1)];
    if k < n - 1 { FullBodiesAt(d, s, n - 1, k); }
  }

  lemma {:induction false} FullBodiesTake(d: int, s: seq<byte>, n: nat, k: nat)
    requires IsDataSize(d) && Times(n, d) <= |s| && k <= n
    ensures Times(k, d) <= |s|
    ensures FullBodies(d, s, n)[..k] == FullBodies(d, s, k)
    decreases n
  {
    if k < n { FullBodiesTake(d, s, n - 1, k); }
  }

  predicate White(c: byte) { c == ' ' as int || 0x09 <= c <= 0x0D }

  predicate Digit(c: byte) { '0' as int <= c <= '9' as int }

  /** The number that the digits at the front of s make, at most `width` of them, behind those of n. */
  function Digits(s: seq<byte>, width: nat, n: nat): nat
  {
    if width == 0 || s == [] || !Digit(s[0]) then n
    else Digits(s[1..], width - 1, 10 * n + (s[0] as int - '0' as int))
  }

  /** "%03d" of fscanf(): white space, then three characters at most, of which the first may be a sign. */
  function Number(s: seq<byte>): Option<int>
  {
    if s == [] then None
    else if White(s[0]) then Number(s[1..])
    else if s[0] == '+' as int || s[0] == '-' as int then
      if |s| == 1 || !Digit(s[1]) then None
      else
        var n: int := Digits(s[1..], 2, 0);
        Some(if s[0] == '-' as int then -n else n)
    else if !Digit(s[0]) then None
    else Some(Digits(s, 3, 0))
  }

  /** fscanf("CR%c %03d\n") at the front of a file: the letter and the number, or a failure. */
  function ParseHeader(file: seq<byte>): Option<(byte, int)>
  {
    if |file| < 3 || file[0] != 'C' as int || file[1] != 'R' as int then None
    else
      var n := Number(file[3..]);
      if n.None? then None else Some((file[2], n.value))
  }

  /**
   What fopen_crc() makes of a file: no header, the old format, an assertion that
   fails, or the current format with a size.
   */
  datatype Opening = NoHeader | OldFormat | Stopped | Current(bits: int)

  function OpeningOf(file: seq<byte>): (r: Opening)
    ensures r.Current? ==> IsBits(r.bits) && ParseHeader(file) == Some(('c' as int, r.bits))
  {
    var h := ParseHeader(file);
    if h.None? then NoHeader
    else if h.value.0 == 'C' as int then OldFormat
    else if h.value.0 == 'c' as int && IsBits(h.value.1) then Current(h.value.1)
    else Stopped
  }

  /** The header of a block size is read as that size, whatever follows it. */
  lemma {:induction false} HeaderParses(bits: int, rest: seq<byte>)
    requires IsBits(bits)
    ensures ParseHeader(Header(bits) + rest) == Some(('c' as int, bits))
  {
    var file := Header(bits) + rest;
    var s := file[4..];
    assert file[3..][1..] == s;
    assert s[0] == '0' as int && s[1] == '0' as int + bits / 10 && s[2] == '0' as int + bits % 10;
    assert Digit(s[0]) && Digit(s[1]) && Digit(s[2]);
    ThreeDigits(s);
    assert Number(file[3..]) == Number(s);
  }

  /** What becomes of a file by the letter and the three digits of its header. */
  lemma Openings(letter: byte, a: int, b: int, c: int, rest: seq<byte>)
    requires 0 <= a < 10 && 0 <= b < 10 && 0 <= c < 10
    ensures var n := 100 * a + 10 * b + c;
            OpeningOf([0x43, 0x52, letter, 0x20, 0x30 + a, 0x30 + b, 0x30 + c] + rest) ==
              if letter == 0x43 then OldFormat
              else if letter == 0x63 && 6 <= n <= 16 then Current(n)
              else Stopped
  {
    hide Digits;
    var file := [0x43, 0x52, letter, 0x20, 0x30 + a, 0x30 + b, 0x30 + c] + rest;
    var s := file[4..];
    assert file[3..][1..] == s && s[0] == 0x30 + a && s[1] == 0x30 + b && s[2] == 0x30 + c;
    assert Digit(s[0]) && Digit(s[1]) && Digit(s[2]);
    ThreeDigits(s);
    assert Number(file[3..]) == Number(s);
  }

  lemma {:induction false} ThreeDigits(s: seq<byte>)
    requires |s| >= 3 && Digit(s[0]) && Digit(s[1]) && Digit(s[2])
    ensures Digits(s, 3, 0)
         == 100 * (s[0] as int - '0' as int) + 10 * (s[1] as int - '0' as int) + (s[2] as int - '0' as int)
  {
    var a, b, c := s[0] - '0' as int, s[1] - '0' as int, s[2] - '0' as int;
    assert s[1..][1..] == s[2..] && s[2..][1..] == s[3..];
    assert Digits(s, 3, 0) == Digits(s[1..], 2, a);
    assert Digits(s[1..], 2, a) == Digits(s[2..], 1, 10 * a + b);
    assert Digits(s[2..], 1, 10 * a + b) == Digits(s[3..], 0, 100 * a + 10 * b + c);
  }

  /** Data bytes in block k of a file with `total` bytes of data. */
  function BlockLen(d: int, total: nat, k: nat): int
    requires IsDataSize(d)
  {
    if Boff(d, k + 1) <= total then FullLen(d, k) else total - Boff(d, k)
  }

  /** Where blocks start relative to the end of the data: the test readBlock() relies on. */
  lemma BlockStarts(d: int, total: nat, k: nat)
    requires IsDataSize(d)
    ensures var n := FullCount(d, HDRSZ + total);
            && (Boff(d, k) <= total <==> k <= n)
            && (Boff(d, k) <= total + d <==> k <= n + 1)
  {
    var n := FullCount(d, HDRSZ + total);
    assert Times(n + 2, d) == Times(n + 1, d) + d;
    if k < n { TimesGrows(k, n, d); }
    if k < n + 1 { TimesGrows(k, n + 1, d); }
    if n + 1 < k { TimesGrows(n + 1, k, d); }
    if n + 2 < k { TimesGrows(n + 2, k, d); }
  }

  /** How many data bytes are in data block k, and what its length field says. */
  lemma DataBlockLength(bits: int, data: seq<byte>, k: nat)
    requires IsBits(bits) && k < |DataBodies(bits, data)|
    ensures var d := DataSize(bits); var len := BlockLen(d, |data|, k);
            && Boff(d, k) <= |data|
            && 0 <= len <= FullLen(d, k) && Boff(d, k) + len <= |data|
            && len == (if k == |DataBodies(bits, data)| - 1 then |data| - Boff(d, k) else FullLen(d, k))
            && (len < FullLen(d, k) <==> k == |DataBodies(bits, data)| - 1)
            && FromLe16(DataBodies(bits, data)[k][d..]) == len
  {
    var d, s := DataSize(bits), Stream(bits, data);
    var n := FullCount(d, |s|);
    BlockStarts(d, |data|, k);
    BlockStarts(d, |data|, k + 1);
    BoffStep(d, k);
    assert Times(1, d) == d;
    if k < n {
      FullBodiesAt(d, s, n, k);
    } else {
      assert DataBodies(bits, data)[k] == LastBody(d, s, n);
    }
  }

  /** The data part of data block k is its piece of the stream. */
  lemma BodyIsStream(bits: int, data: seq<byte>, k: nat)
    requires IsBits(bits) && k < |DataBodies(bits, data)|
    ensures var d := DataSize(bits); var n := |DataBodies(bits, data)| - 1; var t := Times(k, d);
            var m := if k < n then d else HDRSZ + |data| - t;
            && 0 <= m <= d && t + m <= HDRSZ + |data|
            && DataBodies(bits, data)[k][..m] == Stream(bits, data)[t..t + m]
  {
    hide Le16, DataSize, Stream;
    var d, s := DataSize(bits), Stream(bits, data);
    var n, t := FullCount(d, |s|), Times(k, d);
    assert Times(k + 1, d) == t + d;
    if k < n {
      FullBodiesAt(d, s, n, k);
    } else {
      assert DataBodies(bits, data)[k] == LastBody(d, s, n);
    }
  }

  lemma BehindFront(s: seq<byte>, i: nat, j: nat, skip: nat)
    requires i + skip <= j <= |s|
    ensures s[i..j][skip..] == s[i + skip..j]
  {
  }

  /** What readBlock() finds in data block k behind the header, if there is one. */
  lemma DataBlock(bits: int, data: seq<byte>, k: nat)
    requires IsBits(bits) && k < |DataBodies(bits, data)|
    ensures var d := DataSize(bits);
            var skip := if k == 0 then HDRSZ else 0; var len := BlockLen(d, |data|, k);
            && Boff(d, k) <= |data| && 0 <= len <= FullLen(d, k) && Boff(d, k) + len <= |data|
            && DataBodies(bits, data)[k][skip..skip + len] == data[Boff(d, k)..Boff(d, k) + len]
  {
    hide DataBodies, DataSize, Header, BlockLen, Stream, FullCount, FromLe16;
    DataBlockLength(bits, data, k);
    BodyIsStream(bits, data, k);
    var d, s := DataSize(bits), Stream(bits, data);
    var skip, len, o, t := if k == 0 then HDRSZ else 0, BlockLen(d, |data|, k), Boff(d, k), Times(k, d);
    assert t + skip == HDRSZ + o;
    var body, m := DataBodies(bits, data)[k], skip + len;
    BehindFront(body, 0, m, skip);
    assert body[0..m] == body[..m];
    BehindFront(s, t, t + m, skip);
    StreamSlice(bits, data, o, o + len);
  }

  lemma StreamSlice(bits: int, data: seq<byte>, i: nat, j: nat)
    requires IsBits(bits) && i <= j <= |data|
    ensures Stream(bits, data)[HDRSZ + i..HDRSZ + j] == data[i..j]
  {
  }
}
