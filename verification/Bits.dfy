/**
 Fixed-width unsigned integers as ranges of `int`, with bitwise exclusive-or
 defined bit by bit.  Shifts are divisions and multiplications by powers of
 two, masks are remainders, and an `|` of operands without common bits is a sum.
 */
module Bits {

  type byte = x: int | 0 <= x < 256

  type u32 = x: int | 0 <= x < 0x1_0000_0000

  /** Exclusive-or of two naturals. */
  function Xor(a: nat, b: nat): (r: nat)
    decreases a + b
  {
    if a == 0 && b == 0 then 0
    else (if a % 2 == b % 2 then 0 else 1) + 2 * Xor(a / 2, b / 2)
  }

  lemma XorDigits(a: nat, b: nat)
    ensures Xor(a, b) % 2 == if a % 2 == b % 2 then 0 else 1
    ensures Xor(a, b) / 2 == Xor(a / 2, b / 2)
  {
  }

  lemma XorZero(a: nat)
    ensures Xor(a, 0) == a
    ensures Xor(0, a) == a
  {
  }

  lemma XorSelf(a: nat)
    ensures Xor(a, a) == 0
  {
  }

  lemma XorCommutes(a: nat, b: nat)
    ensures Xor(a, b) == Xor(b, a)
    decreases a + b
  {
  }

  lemma {:induction false} XorAssociates(a: nat, b: nat, c: nat)
    ensures Xor(Xor(a, b), c) == Xor(a, Xor(b, c))
    decreases a + b + c
  {
    if a + b + c != 0 {
      var l, r := Xor(Xor(a, b), c), Xor(a, Xor(b, c));
      assert l / 2 == r / 2 by {
        XorDigits(a, b);
        XorDigits(b, c);
        XorDigits(Xor(a, b), c);
        XorDigits(a, Xor(b, c));
        XorAssociates(a / 2, b / 2, c / 2);
      }
      assert l % 2 == r % 2 by {
        XorDigits(a, b);
        XorDigits(b, c);
        XorDigits(Xor(a, b), c);
        XorDigits(a, Xor(b, c));
      }
    }
  }

  /** (a ^ b) ^ (c ^ d) == (a ^ c) ^ (b ^ d) */
  lemma XorExchange(a: nat, b: nat, c: nat, d: nat)
    ensures Xor(Xor(a, b), Xor(c, d)) == Xor(Xor(a, c), Xor(b, d))
  {
    XorAssociates(a, b, Xor(c, d));
    XorAssociates(b, c, d);
    XorCommutes(b, c);
    XorAssociates(c, b, d);
    XorAssociates(a, c, Xor(b, d));
  }

  /** Exclusive-or with the same value twice is the identity. */
  lemma XorCancels(a: nat, b: nat)
    ensures Xor(Xor(a, b), b) == a
  {
    XorAssociates(a, b, b);
    XorSelf(b);
    XorZero(a);
  }

  lemma XorZeroMeansEqual(a: nat, b: nat)
    requires Xor(a, b) == 0
    ensures a == b
  {
    XorCancels(a, b);
    XorZero(b);
  }

  function Pow2(k: nat): (r: nat)
    ensures r > 0
  {
    if k == 0 then 1 else 2 * Pow2(k - 1)
  }

  lemma {:induction false} XorBound(a: nat, b: nat, k: nat)
    requires a < Pow2(k) && b < Pow2(k)
    ensures Xor(a, b) < Pow2(k)
  {
    if k != 0 {
      XorDigits(a, b);
      XorBound(a / 2, b / 2, k - 1);
    }
  }

  /** A number and its complement in k bits make k ones. */
  lemma {:induction false} XorComplement(a: nat, k: nat)
    requires a < Pow2(k)
    ensures Xor(a, Pow2(k) - 1 - a) == Pow2(k) - 1
  {
    if k != 0 {
      var b := Pow2(k) - 1 - a;
      XorDigits(a, b);
      assert b / 2 == Pow2(k - 1) - 1 - a / 2;
      XorComplement(a / 2, k - 1);
    }
  }

  lemma XorDouble(a: nat, h: nat)
    ensures Xor(a, 2 * h) == a % 2 + 2 * Xor(a / 2, h)
  {
    XorDigits(a, 2 * h);
  }

  lemma Pow2Times(k: nat, h: nat)
    requires k > 0
    ensures Pow2(k) * h == 2 * (Pow2(k - 1) * h)
  {
  }

  /** Operands without common bits: the exclusive-or is the sum. */
  lemma {:induction false} XorDisjoint(low: nat, high: nat, k: nat)
    requires low < Pow2(k)
    ensures Xor(low, Pow2(k) * high) == low + Pow2(k) * high
  {
    if k == 0 {
      XorZero(high);
    } else {
      hide Xor;
      Pow2Times(k, high);
      XorDouble(low, Pow2(k - 1) * high);
      XorDisjoint(low / 2, high, k - 1);
    }
  }

  function XorByte(a: byte, b: byte): (r: byte)
  {
    assert Pow2(8) == 256;
    XorBound(a, b, 8);
    Xor(a, b)
  }

  lemma Pow2Of32()
    ensures Pow2(32) == 0x1_0000_0000
  {
    assert Pow2(8) == 256;
    assert Pow2(16) == 0x1_0000;
    assert Pow2(24) == 0x100_0000;
  }

  function Xor32(a: u32, b: u32): (r: u32)
  {
    Pow2Of32();
    XorBound(a, b, 32);
    Xor(a, b)
  }

  /** The two bytes of a u16 in file order. */
  function Le16(n: int): (s: seq<byte>)
    requires 0 <= n < 0x1_0000
    ensures |s| == 2
  {
    [n % 256, n / 256]
  }

  function FromLe16(s: seq<byte>): (n: int)
    requires |s| == 2
    ensures 0 <= n < 0x1_0000
  {
    s[0] as int + 256 * s[1] as int
  }

  /** The four bytes of a u32 in file order. */
  function Le32(n: u32): (s: seq<byte>)
    ensures |s| == 4
  {
    [n % 256, n / 256 % 256, n / 0x1_0000 % 256, n / 0x100_0000]
  }

  function FromLe32(s: seq<byte>): (n: u32)
    requires |s| == 4
  {
    s[0] as int + 256 * s[1] as int + 0x1_0000 * s[2] as int + 0x100_0000 * s[3] as int
  }

  /** The number that four bytes make, the lowest first. */
  function FourBytes(a: int, b: int, c: int, d: int): int { a + 0x100 * b + 0x1_0000 * c + 0x100_0000 * d }

  lemma Le32RoundTrip(n: u32)
    ensures FromLe32(Le32(n)) == n
  {
    assert n / 0x1_0000 == n / 256 / 256;
    assert n / 0x100_0000 == n / 256 / 256 / 256;
  }

  lemma Le32OfFrom(s: seq<byte>)
    requires |s| == 4
    ensures Le32(FromLe32(s)) == s
  {
    var n := FromLe32(s);
    assert n / 256 == s[1] as int + 256 * s[2] as int + 0x1_0000 * s[3] as int;
    assert n / 0x1_0000 == s[2] as int + 256 * s[3] as int;
  }

  predicate PowerOfTwo(n: nat) { n == 1 || (n % 2 == 0 && n > 0 && PowerOfTwo(n / 2)) }

  lemma Doubled(n: nat)
    requires PowerOfTwo(n)
    ensures PowerOfTwo(2 * n)
  {
  }

  lemma {:induction false} Pow2Grows(j: nat, k: nat)
    requires j <= k
    ensures Pow2(j) <= Pow2(k)
    decreases k
  {
    if j < k { Pow2Grows(j, k - 1); }
  }
}
