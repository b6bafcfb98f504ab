/**
 The software CRC-32C of utils/crc32c.c (little-endian branch): a table-driven
 slicing-by-8 loop, proved equal to the bit-serial reflected Castagnoli CRC of
 section 12.1 of RFC 3720.
 */
module Crc32c {
  import opened Bits

  // ---------------------------------------------------------------- reference

  /** The reflected generator polynomial 0x11EDC6F41. */
  const POLY: u32 := 0x82F63B78

  /** One step of the shift register without input. */
  function ShiftBit(c: nat): nat
  {
    Xor(c / 2, if c % 2 == 1 then POLY else 0)
  }

  /** Feed the n low bits of b, least significant first, one at a time. */
  function FeedBits(c: nat, b: nat, n: nat): nat
    decreases n
  {
    if n == 0 then c else FeedBits(ShiftBit(Xor(c, b % 2)), b / 2, n - 1)
  }

  /** The register after all bytes of `data`. */
  function Register(c: nat, data: seq<byte>): nat
  {
    if data == [] then c
    else FeedBits(Register(c, data[..|data| - 1]), data[|data| - 1], 8)
  }

  function Not32(x: u32): u32 { 0xFFFF_FFFF - x }

  lemma {:induction false} RegisterBound(c: nat, data: seq<byte>)
    requires c < 0x1_0000_0000
    ensures Register(c, data) < 0x1_0000_0000
  {
    if data != [] {
      RegisterBound(c, data[..|data| - 1]);
      FeedBitsBound(Register(c, data[..|data| - 1]), data[|data| - 1], 8);
    }
  }

  /** CRC-32C of `data`, continuing from the CRC `crc` of what precedes it. */
  function Crc(crc: u32, data: seq<byte>): u32
  {
    RegisterBound(Not32(crc), data);
    Not32(Register(Not32(crc), data))
  }

  // ------------------------------------------------------- the shift register

  function ShiftBits(c: nat, n: nat): nat
    decreases n
  {
    if n == 0 then c else ShiftBits(ShiftBit(c), n - 1)
  }

  lemma ShiftBitBound(c: nat)
    requires c < 0x1_0000_0000
    ensures ShiftBit(c) < 0x1_0000_0000
  {
    Pow2Of32();
    XorBound(c / 2, if c % 2 == 1 then POLY else 0, 32);
  }

  lemma {:induction false} ShiftBitsBound(c: nat, n: nat)
    requires c < 0x1_0000_0000
    ensures ShiftBits(c, n) < 0x1_0000_0000
    decreases n
  {
    hide Xor, ShiftBit;
    if n != 0 {
      ShiftBitBound(c);
      ShiftBitsBound(ShiftBit(c), n - 1);
    }
  }

  lemma {:induction false} FeedBitsBound(c: nat, b: nat, n: nat)
    requires c < 0x1_0000_0000
    ensures FeedBits(c, b, n) < 0x1_0000_0000
    decreases n
  {
    hide Xor, ShiftBit, Pow2;
    if n != 0 {
      Pow2Of32();
      XorBound(c, b % 2, 32);
      ShiftBitBound(Xor(c, b % 2));
      FeedBitsBound(ShiftBit(Xor(c, b % 2)), b / 2, n - 1);
    }
  }

  lemma ShiftBitLinear(a: nat, b: nat)
    ensures ShiftBit(Xor(a, b)) == Xor(ShiftBit(a), ShiftBit(b))
  {
    XorDigits(a, b);
    var pa, pb := if a % 2 == 1 then POLY else 0, if b % 2 == 1 then POLY else 0;
    XorExchange(a / 2, pa, b / 2, pb);
    XorSelf(POLY);
    XorZero(POLY);
  }

  lemma ShiftBitOfEven(y: nat)
    ensures ShiftBit(2 * y) == y
  {
    XorZero(y);
  }

  lemma {:induction false} ShiftBitsLinear(a: nat, b: nat, n: nat)
    ensures ShiftBits(Xor(a, b), n) == Xor(ShiftBits(a, n), ShiftBits(b, n))
    decreases n
  {
    hide Xor, ShiftBit;
    if n != 0 {
      ShiftBitLinear(a, b);
      ShiftBitsLinear(ShiftBit(a), ShiftBit(b), n - 1);
    }
  }

  lemma NoShift(c: nat)
    ensures ShiftBits(c, 0) == c
  {
  }

  lemma {:induction false} ShiftBitsSum(c: nat, m: nat, n: nat)
    ensures ShiftBits(c, m + n) == ShiftBits(ShiftBits(c, m), n)
    decreases m
  {
    if m != 0 {
      ShiftBitsSum(ShiftBit(c), m - 1, n);
    }
  }

  lemma {:induction false} ShiftBitsOfMultiple(y: nat, n: nat)
    ensures ShiftBits(Pow2(n) * y, n) == y
  {
    if n != 0 {
      var h := Pow2(n - 1) * y;
      assert Pow2(n) * y == 2 * h;
      XorZero(h);
      ShiftBitsOfMultiple(y, n - 1);
    }
  }

  lemma {:induction false} ShiftBitsOfZero(n: nat)
    ensures ShiftBits(0, n) == 0
  {
    if n != 0 {
      XorZero(0);
      ShiftBitsOfZero(n - 1);
    }
  }

  lemma ShiftBitInjective(a: nat, b: nat)
    requires a < 0x1_0000_0000 && b < 0x1_0000_0000
    requires ShiftBit(a) == ShiftBit(b)
    ensures a == b
  {
    hide Xor, Pow2;
    ShiftBitLinear(a, b);
    XorSelf(ShiftBit(a));
    Pow2Of32();
    XorBound(a, b, 32);
    var d := Xor(a, b);
    XorZeroMeansEqual(d / 2, if d % 2 == 1 then POLY else 0);
    XorZeroMeansEqual(a, b);
  }

  /** No step of the register loses information. */
  lemma {:induction false} ShiftBitsInjective(a: nat, b: nat, n: nat)
    requires a < 0x1_0000_0000 && b < 0x1_0000_0000
    requires ShiftBits(a, n) == ShiftBits(b, n)
    ensures a == b
    decreases n
  {
    if n != 0 {
      ShiftBitBound(a);
      ShiftBitBound(b);
      hide Xor, ShiftBit;
      ShiftBitsInjective(ShiftBit(a), ShiftBit(b), n - 1);
      ShiftBitInjective(a, b);
    }
  }

  /** Exclusive-or of y * 256 into the register passes through eight shifts. */
  lemma ShiftByteAhead(c: nat, y: nat)
    ensures ShiftBits(Xor(c, 256 * y), 8) == Xor(ShiftBits(c, 8), y)
  {
    hide Xor, ShiftBits;
    assert Pow2(8) == 256;
    ShiftBitsLinear(c, 256 * y, 8);
    ShiftBitsOfMultiple(y, 8);
  }

  /** Feeding bits is shifting the register with the input mixed in up front. */
  lemma {:induction false} FeedIsShift(c: nat, b: nat, n: nat)
    requires b < Pow2(n)
    ensures FeedBits(c, b, n) == ShiftBits(Xor(c, b), n)
    decreases n
  {
    hide Xor, ShiftBit;
    if n == 0 {
      XorZero(c);
    } else {
      var bit, rest := b % 2, b / 2;
      FeedIsShift(ShiftBit(Xor(c, bit)), rest, n - 1);
      assert Pow2(1) == 2;
      XorDisjoint(bit, rest, 1);
      XorAssociates(c, bit, 2 * rest);
      ShiftBitLinear(Xor(c, bit), 2 * rest);
      ShiftBitOfEven(rest);
    }
  }

  lemma FeedByteIsShift(c: nat, b: byte)
    ensures FeedBits(c, b, 8) == ShiftBits(Xor(c, b), 8)
  {
    assert Pow2(8) == 256;
    FeedIsShift(c, b, 8);
  }

  // ------------------------------------------------------------- composition

  lemma EmptyRegister(c: nat)
    ensures Register(c, []) == c
  {
  }

  lemma {:induction false} RegisterComposes(c: nat, a: seq<byte>, b: seq<byte>)
    ensures Register(c, a + b) == Register(Register(c, a), b)
  {
    if b == [] {
      assert a + b == a;
    } else {
      assert (a + b)[..|a + b| - 1] == a + b[..|b| - 1];
      RegisterComposes(c, a, b[..|b| - 1]);
    }
  }

  lemma CrcOfNothing(c: u32)
    ensures Crc(c, []) == c
  {
  }

  /** Checksumming in pieces gives the checksum of the whole. */
  lemma CrcComposes(c: u32, a: seq<byte>, b: seq<byte>)
    ensures Crc(Crc(c, a), b) == Crc(c, a + b)
  {
    hide Register;
    RegisterComposes(Not32(c), a, b);
  }

  // --------------------------------------------------------- words of 4 bytes

  /** The number whose little-endian digits are the bytes of s. */
  function LittleEndian(s: seq<byte>): nat
  {
    if s == [] then 0 else s[0] as nat + 256 * LittleEndian(s[1..])
  }

  lemma {:induction false} LittleEndianInjective(s: seq<byte>, t: seq<byte>)
    requires |s| == |t| && LittleEndian(s) == LittleEndian(t)
    ensures s == t
  {
    if s != [] {
      LittleEndianInjective(s[1..], t[1..]);
      assert s == [s[0]] + s[1..] && t == [t[0]] + t[1..];
    }
  }

  lemma {:induction false} LittleEndianBound(s: seq<byte>)
    ensures LittleEndian(s) < Pow2(8 * |s|)
  {
    if s != [] {
      LittleEndianBound(s[1..]);
      var k := 8 * |s[1..]|;
      assert Pow2(k + 8) == 256 * Pow2(k) by {
        assert Pow2(k + 8) == 2 * Pow2(k + 7);
        assert Pow2(k + 7) == 2 * Pow2(k + 6);
        assert Pow2(k + 6) == 2 * Pow2(k + 5);
        assert Pow2(k + 5) == 2 * Pow2(k + 4);
        assert Pow2(k + 4) == 2 * Pow2(k + 3);
        assert Pow2(k + 3) == 2 * Pow2(k + 2);
        assert Pow2(k + 2) == 2 * Pow2(k + 1);
      }
    }
  }

  /** Feeding the bytes of s is one shift with all of them mixed in up front. */
  lemma {:induction false} RegisterOfWord(c: nat, s: seq<byte>)
    ensures Register(c, s) == ShiftBits(Xor(c, LittleEndian(s)), 8 * |s|)
    decreases |s|
  {
    hide Xor, ShiftBits, FeedBits;
    if s == [] {
      XorZero(c);
      NoShift(c);
    } else {
      var b, t := s[0], s[1..];
      var y := LittleEndian(t);
      var c1 := ShiftBits(Xor(c, b), 8);
      assert Register(c, [b]) == c1 by {
        assert [b][..0] == [];
        FeedByteIsShift(c, b);
      }
      assert s == [b] + t;
      RegisterComposes(c, [b], t);
      RegisterOfWord(c1, t);
      assert Xor(c1, y) == ShiftBits(Xor(Xor(c, b), 256 * y), 8) by { ShiftByteAhead(Xor(c, b), y); }
      assert Xor(Xor(c, b), 256 * y) == Xor(c, b as nat + 256 * y) by {
        assert Pow2(8) == 256;
        XorDisjoint(b, y, 8);
        XorAssociates(c, b, 256 * y);
      }
      ShiftBitsSum(Xor(c, LittleEndian(s)), 8, 8 * |t|);
    }
  }

  // ------------------------------------------------------------------ tables

  /** g_crc_slicing[k][b], by the recurrence that generates the tables. */
  function Table(k: nat, b: byte): (t: u32)
    decreases k
  {
    if k == 0 then
      ShiftBitsBound(b, 8);
      ShiftBits(b, 8)
    else
      var t := Table(k - 1, b);
      Xor32(Table(0, t % 256), t / 256)
  }

  /** One byte by table: T0[c & 0xff] ^ (c >> 8). */
  lemma TableStep(c: nat)
    ensures Xor(Table(0, c % 256), c / 256) == ShiftBits(c, 8)
  {
    hide Xor, ShiftBits;
    assert Pow2(8) == 256;
    XorDisjoint(c % 256, c / 256, 8);
    ShiftByteAhead(c % 256, c / 256);
  }

  /** Table k is a byte followed by k zero bytes. */
  lemma {:induction false} TableIsShift(k: nat, b: byte)
    ensures Table(k, b) == ShiftBits(b, 8 * k + 8)
  {
    hide Xor, ShiftBits;
    if k != 0 {
      TableIsShift(k - 1, b);
      TableStep(Table(k - 1, b));
      ShiftBitsSum(b, 8 * k, 8);
    }
  }

  /** One byte of a register peels off as one table look-up. */
  lemma PeelByte(x: nat, k: nat)
    ensures ShiftBits(x, 8 * k + 8) == Xor(Table(k, x % 256), ShiftBits(x / 256, 8 * k))
  {
    hide Xor, ShiftBits, Table;
    var low, y := x % 256, x / 256;
    assert Pow2(8) == 256;
    XorDisjoint(low, y, 8);
    ShiftBitsLinear(low, 256 * y, 8 * k + 8);
    TableIsShift(k, low);
    ShiftBitsSum(256 * y, 8, 8 * k);
    ShiftBitsOfMultiple(y, 8);
  }

  /** Four look-ups for the four bytes of x, followed by k zero bytes. */
  lemma PeelWord(x: u32, k: nat)
    ensures ShiftBits(x, 8 * k + 32) ==
            Xor(Xor(Xor(Table(k + 3, x % 256), Table(k + 2, x / 256 % 256)),
                    Table(k + 1, x / 0x1_0000 % 256)), Table(k, x / 0x100_0000))
  {
    hide Xor, ShiftBits, Table;
    var x1, x2, x3 := x / 256, x / 0x1_0000, x / 0x100_0000;
    assert x1 / 256 == x2 && x2 / 256 == x3 && x3 / 256 == 0 && x3 % 256 == x3;
    var t3, t2, t1, t0 := Table(k + 3, x % 256), Table(k + 2, x1 % 256), Table(k + 1, x2 % 256), Table(k, x3);
    assert ShiftBits(x3, 8 * k + 8) == t0 by {
      PeelByte(x3, k);
      ShiftBitsOfZero(8 * k);
      XorZero(t0);
    }
    assert ShiftBits(x2, 8 * k + 16) == Xor(t1, t0) by { PeelByte(x2, k + 1); }
    assert ShiftBits(x1, 8 * k + 24) == Xor(t2, Xor(t1, t0)) by { PeelByte(x1, k + 2); }
    assert ShiftBits(x, 8 * k + 32) == Xor(t3, Xor(t2, Xor(t1, t0))) by { PeelByte(x, k + 3); }
    XorAssociates(t2, t1, t0);
    XorAssociates(t3, Xor(t2, t1), t0);
    XorAssociates(t3, t2, t1);
  }

  /** The value the 8-byte loop body assigns to crc, given both words. */
  function Slice8(x: u32, next: u32): u32
  {
    hide Table, Xor;
    Xor32(Xor32(Xor32(Xor32(Xor32(Xor32(Xor32(
      Table(7, x % 256),
      Table(6, x / 256 % 256)),
      Table(5, x / 0x1_0000 % 256)),
      Table(4, x / 0x100_0000)),
      Table(3, next % 256)),
      Table(2, next / 256 % 256)),
      Table(1, next / 0x1_0000 % 256)),
      Table(0, next / 0x100_0000))
  }

  /** Eight table look-ups consume eight message bytes. */
  lemma Slice8IsRegister(c: u32, w: seq<byte>)
    requires |w| == 8
    ensures Slice8(Xor32(c, FromLe32(w[..4])), FromLe32(w[4..])) == Register(c, w)
  {
    hide Xor, ShiftBits, Table, Register, FromLe32, LittleEndian;
    var x, next := Xor32(c, FromLe32(w[..4])), FromLe32(w[4..]);
    WordValue(w[..4]);
    WordValue(w[4..]);
    assert w == w[..4] + w[4..];
    RegisterComposes(c, w[..4], w[4..]);
    RegisterOfWord(c, w[..4]);
    var r := ShiftBits(x, 32);
    RegisterOfWord(r, w[4..]);
    ShiftBitsLinear(r, next, 32);
    ShiftBitsSum(x, 32, 32);
    PeelWord(x, 4);
    PeelWord(next, 0);
    var a := ShiftBits(x, 64);
    var n3, n2, n1, n0 := Table(3, next % 256), Table(2, next / 256 % 256),
                          Table(1, next / 0x1_0000 % 256), Table(0, next / 0x100_0000);
    XorAssociates(a, Xor(Xor(n3, n2), n1), n0);
    XorAssociates(a, Xor(n3, n2), n1);
    XorAssociates(a, n3, n2);
  }

  lemma WordValue(s: seq<byte>)
    requires |s| == 4
    ensures LittleEndian(s) == FromLe32(s)
  {
    assert s[1..][1..] == s[2..] && s[2..][1..] == s[3..] && s[3..][1..] == [];
    assert LittleEndian(s[3..]) == s[3] as nat;
    assert LittleEndian(s[2..]) == s[2] as nat + 256 * LittleEndian(s[3..]);
    assert LittleEndian(s[1..]) == s[1] as nat + 256 * LittleEndian(s[2..]);
  }

  lemma RegisterAppend(c: nat, data: seq<byte>, p: nat, q: nat)
    requires p <= q <= |data|
    ensures Register(c, data[..q]) == Register(Register(c, data[..p]), data[p..q])
  {
    assert data[..q] == data[..p] + data[p..q];
    RegisterComposes(c, data[..p], data[p..q]);
  }

  /** T0[(crc ^ *p) & 0xff] ^ (crc >> 8) consumes the byte *p. */
  lemma ByteStep(c: u32, data: seq<byte>, p: nat, start: u32)
    requires p < |data| && c == Register(start, data[..p])
    ensures Xor32(Table(0, XorByte(c % 256, data[p])), c / 256) == Register(start, data[..p + 1])
  {
    hide Xor, ShiftBits, FeedBits, Table;
    var b := data[p];
    RegisterAppend(start, data, p, p + 1);
    assert data[p..p + 1] == [b];
    assert Register(c, [b]) == FeedBits(c, b, 8) by { assert [b][..0] == []; }
    FeedByteIsShift(c, b);
    TableStep(Xor(c, b));
    XorSplit(c, b);
  }

  lemma XorSplit(c: nat, b: byte)
    ensures Xor(c, b) % 256 == Xor(c % 256, b)
    ensures Xor(c, b) / 256 == c / 256
  {
    hide Xor;
    assert Pow2(8) == 256;
    var low, high := c % 256, c / 256;
    XorDisjoint(low, high, 8);
    XorAssociates(low, 256 * high, b);
    XorCommutes(256 * high, b);
    XorAssociates(low, b, 256 * high);
    XorDisjoint(XorByte(low, b), high, 8);
  }

  // -------------------------------------------------------------- the method

  /**
   The three loops of the C function.  `address` is the machine address of the
   first byte; it only decides how long the alignment prologue runs.
   */
  method SoftwareCrc32c(crc0: u32, chunk: seq<byte>, address: nat) returns (r: u32)
    ensures r == Crc(crc0, chunk)
  {
    hide Xor, Table, Register, Slice8, FromLe32;
    var crc: u32 := Not32(crc0);
    ghost var start := crc;
    var p, len := 0, |chunk|;
    EmptyRegister(start);

    // one byte at a time to the first 4-byte boundary
    while (address + p) % 4 != 0 && len > 0
      invariant 0 <= p && 0 <= len && p + len == |chunk|
      invariant crc == Register(start, chunk[..p])
      decreases len
    {
      ByteStep(crc, chunk, p, start);
      crc := Xor32(Table(0, XorByte(crc % 256, chunk[p])), crc / 256);
      p, len := p + 1, len - 1;
    }

    // 8-byte chunks
    ghost var aligned := p;
    var nqwords := len / 8;
    while nqwords > 0
      invariant 0 <= nqwords && p == aligned + 8 * (len / 8 - nqwords)
      invariant crc == Register(start, chunk[..p])
    {
      ghost var c := crc;
      ghost var q := p;
      assert p + 8 <= |chunk|;
      crc := Xor32(crc, FromLe32(chunk[p..p + 4]));
      p := p + 4;
      var next := FromLe32(chunk[p..p + 4]);
      p := p + 4;
      crc := Slice8(crc, next);
      assert chunk[q..q + 8][..4] == chunk[q..q + 4] && chunk[q..q + 8][4..] == chunk[q + 4..q + 8];
      Slice8IsRegister(c, chunk[q..q + 8]);
      RegisterAppend(start, chunk, q, q + 8);
      nqwords := nqwords - 1;
    }

    // trailing bytes
    len := len % 8;
    while len > 0
      invariant 0 <= p && 0 <= len && p + len == |chunk|
      invariant crc == Register(start, chunk[..p])
    {
      ByteStep(crc, chunk, p, start);
      crc := Xor32(Table(0, XorByte(crc % 256, chunk[p])), crc / 256);
      p, len := p + 1, len - 1;
    }
    assert chunk[..p] == chunk;
    r := Not32(crc);
  }

  // -------------------------------------------------------- damage detection

  lemma {:induction false} RegisterInjective(c: nat, d: nat, data: seq<byte>)
    requires c < 0x1_0000_0000 && d < 0x1_0000_0000
    requires Register(c, data) == Register(d, data)
    ensures c == d
  {
    hide Xor, ShiftBits, FeedBits, Pow2;
    if data != [] {
      var init, b := data[..|data| - 1], data[|data| - 1];
      var x, y := Register(c, init), Register(d, init);
      RegisterBound(c, init);
      RegisterBound(d, init);
      FeedByteIsShift(x, b);
      FeedByteIsShift(y, b);
      Pow2Of32();
      XorBound(x, b, 32);
      XorBound(y, b, 32);
      ShiftBitsInjective(Xor(x, b), Xor(y, b), 8);
      XorCancels(x, b);
      XorCancels(y, b);
      RegisterInjective(c, d, init);
    }
  }

  lemma WordDetected(c: nat, w: seq<byte>, v: seq<byte>)
    requires c < 0x1_0000_0000 && |w| == |v| <= 4
    requires Register(c, w) == Register(c, v)
    ensures w == v
  {
    hide Xor, ShiftBits, Register, LittleEndian, Pow2;
    RegisterOfWord(c, w);
    RegisterOfWord(c, v);
    var x, y := LittleEndian(w), LittleEndian(v);
    LittleEndianBound(w);
    LittleEndianBound(v);
    Pow2Grows(8 * |w|, 32);
    Pow2Of32();
    XorBound(c, x, 32);
    XorBound(c, y, 32);
    ShiftBitsInjective(Xor(c, x), Xor(c, y), 8 * |w|);
    XorCommutes(c, x);
    XorCommutes(c, y);
    XorCancels(x, c);
    XorCancels(y, c);
    LittleEndianInjective(w, v);
  }

  /** The bytes of m before i, in the window of four at i, and after it. */
  function Window(m: seq<byte>, i: nat): (seq<byte>, seq<byte>, seq<byte>)
    requires i <= |m|
  {
    var j := if i + 4 <= |m| then i + 4 else |m|;
    (m[..i], m[i..j], m[j..])
  }

  /** Damage confined to four consecutive bytes always changes the CRC. */
  lemma BurstDetected(crc: u32, m: seq<byte>, n: seq<byte>, i: nat)
    requires |m| == |n| && i <= |m|
    requires forall k :: 0 <= k < |m| && !(i <= k < i + 4) ==> m[k] == n[k]
    ensures Crc(crc, m) == Crc(crc, n) <==> m == n
  {
    hide Register;
    if Crc(crc, m) == Crc(crc, n) {
      var (a, w, z) := Window(m, i);
      var (a', v, z') := Window(n, i);
      assert a == a' && z == z';
      assert m == a + w + z && n == a + v + z;
      var c := Register(Not32(crc), a);
      RegisterBound(Not32(crc), a);
      RegisterComposes(Not32(crc), a + w, z);
      RegisterComposes(Not32(crc), a + v, z);
      RegisterComposes(Not32(crc), a, w);
      RegisterComposes(Not32(crc), a, v);
      RegisterBound(c, w);
      RegisterBound(c, v);
      RegisterInjective(Register(c, w), Register(c, v), z);
      WordDetected(c, w, v);
    }
  }

  /** Followed by its own CRC, every message leaves the same register. */
  lemma Residue(m: seq<byte>, crc: seq<byte>)
    requires |crc| == 4 && FromLe32(crc) == Crc(0, m)
    ensures Register(0xFFFF_FFFF, m + crc) == ShiftBits(0xFFFF_FFFF, 32)
  {
    hide Xor, ShiftBits, Register, LittleEndian, Pow2, FromLe32;
    var c := Register(0xFFFF_FFFF, m);
    RegisterBound(0xFFFF_FFFF, m);
    RegisterComposes(0xFFFF_FFFF, m, crc);
    RegisterOfWord(c, crc);
    WordValue(crc);
    Pow2Of32();
    XorComplement(c, 32);
  }

  /**
   The same for a message with its CRC behind it: of two that differ only within
   four consecutive bytes, CRC bytes included, at most one has the right CRC.
   */
  lemma SealedBurstDetected(m: seq<byte>, crc: seq<byte>, n: seq<byte>, crc': seq<byte>, i: nat)
    requires |m| == |n| && |crc| == |crc'| == 4 && i <= |m| + 4
    requires FromLe32(crc) == Crc(0, m) && FromLe32(crc') == Crc(0, n)
    requires forall k :: 0 <= k < |m| + 4 && !(i <= k < i + 4) ==> (m + crc)[k] == (n + crc')[k]
    ensures m + crc == n + crc'
  {
    hide Register, ShiftBits, FromLe32;
    Residue(m, crc);
    Residue(n, crc');
    BurstDetected(0, m + crc, n + crc', i);
  }
}
