/** The text of base64 in characters: its alphabet, its groups of bits and its lines. */
module Base64Text {
  import opened Bits
  import opened Base64

  const CAPITALS: string := "ABCDEFGHIJKLMNOPQRSTUVWXYZ"
  const SMALL: string := "abcdefghijklmnopqrstuvwxyz"
  const DIGITS: string := "0123456789"

  /** The character that stands for six bits. */
  function Letter(d: int): char
    requires 0 <= d < 64
  {
    var alphabet := CAPITALS + SMALL + DIGITS + "+/";
    if d < |alphabet| then alphabet[d] else '?'
  }

  lemma SymbolIs(d: int)
    requires 0 <= d < 64
    ensures Symbol(d) == Letter(d) as int
  {
    if d < 26 {
      assert Letter(d) == CAPITALS[d];
    } else if d < 52 {
      assert Letter(d) == SMALL[d - 26];
    } else if d < 62 {
      assert Letter(d) == DIGITS[d - 52];
    }
  }

  function Together(x: byte, y: byte, z: byte): nat { 0x1_0000 * x as int + 0x100 * y as int + z as int }

  /** Three bytes, missing ones zero, as a number of 24 bits, the first byte highest. */
  function Number(s: seq<byte>, g: nat): nat
  {
    Together(Byte(s, 3 * g), Byte(s, 3 * g + 1), Byte(s, 3 * g + 2))
  }

  function Byte(s: seq<byte>, i: nat): byte { if i < |s| then s[i] else 0 }

  /** Its j-th digit of six bits, the first highest. */
  function Digit(v: nat, j: nat): (d: int)
    ensures 0 <= d < 64
  {
    if j == 0 then v / 0x4_0000 % 64 else if j == 1 then v / 0x1000 % 64 else if j == 2 then v / 64 % 64 else v % 64
  }

  /** Character j of group g of the symbols: a digit, or padding for a digit without a byte of its own. */
  predicate SymbolAt(s: seq<byte>, g: nat, j: nat, c: byte)
  {
    c == (if 3 * g + j <= |s| then Letter(Digit(Number(s, g), j)) else '=') as int
  }

  /** v / 64 and v % 64 */
  lemma LowDigit(v: nat, hi: nat, lo: nat)
    requires v == 64 * hi + lo && lo < 64
    ensures v / 64 == hi && v % 64 == lo
  {
  }

  lemma FourDigits(v: nat, a: nat, b: nat, c: nat, d: nat)
    requires a < 64 && b < 64 && c < 64 && d < 64
    requires v == 0x4_0000 * a + 0x1000 * b + 64 * c + d
    ensures Digit(v, 0) == a && Digit(v, 1) == b && Digit(v, 2) == c && Digit(v, 3) == d
  {
    LowDigit(v, 0x1000 * a + 64 * b + c, d);
    LowDigit(0x1000 * a + 64 * b + c, 64 * a + b, c);
    LowDigit(64 * a + b, a, b);
    assert v / 0x1000 == v / 64 / 64;
    assert v / 0x4_0000 == v / 64 / 64 / 64;
  }

  lemma DigitsAre(x: byte, y: byte, z: byte)
    ensures var v := Together(x, y, z);
      && Digit(v, 0) == x / 4 && Digit(v, 1) == x % 4 * 16 + y / 16
      && Digit(v, 2) == y % 16 * 4 + z / 64 && Digit(v, 3) == z % 64
  {
    hide Digit;
    FourDigits(Together(x, y, z), x / 4, x % 4 * 16 + y / 16, y % 16 * 4 + z / 64, z % 64);
  }

  /** The first four symbols, with zeros for missing bytes. */
  lemma FirstSymbols(s: seq<byte>)
    requires |s| > 0
    ensures var x, y, z, q := Byte(s, 0), Byte(s, 1), Byte(s, 2), Symbols(s);
      && |q| >= 4 && q[0] == Symbol(x / 4) && q[1] == Symbol(x % 4 * 16 + y / 16)
      && q[2] == (if |s| == 1 then '=' as int else Symbol(y % 16 * 4 + z / 64))
      && q[3] == (if |s| <= 2 then '=' as int else Symbol(z % 64))
  {
    hide Symbol;
    assert PAD == '=' as int;
    if |s| >= 3 {
      assert Symbols(s)[..4] == Quad(s[0], s[1], s[2]);
    }
  }

  lemma FirstGroup(s: seq<byte>, j: nat)
    requires |s| > 0 && j < 4
    ensures j < |Symbols(s)| && SymbolAt(s, 0, j, Symbols(s)[j])
  {
    hide Symbol, Digit, Letter, Together, Symbols;
    var x, y, z := Byte(s, 0), Byte(s, 1), Byte(s, 2);
    FirstSymbols(s);
    DigitsAre(x, y, z);
    assert Number(s, 0) == Together(x, y, z);
    if j == 0 {
      SymbolIs(x / 4);
    } else if j == 1 {
      SymbolIs(x % 4 * 16 + y / 16);
    } else if j == 2 {
      SymbolIs(y % 16 * 4 + z / 64);
    } else {
      SymbolIs(z % 64);
    }
  }

  /** Every character of the text without its line breaks. */
  lemma {:induction false} SymbolsAre(s: seq<byte>, g: nat, j: nat)
    requires j < 4 && 4 * g + j < |Symbols(s)|
    ensures SymbolAt(s, g, j, Symbols(s)[4 * g + j])
    decreases |s|
  {
    hide SymbolAt;
    if g == 0 {
      FirstGroup(s, j);
    } else {
      SymbolsAre(s[3..], g - 1, j);
      NextGroup(s, g, j, Symbols(s)[4 * g + j]);
    }
  }

  lemma NextGroup(s: seq<byte>, g: nat, j: nat, c: byte)
    requires |s| >= 3 && g >= 1
    ensures SymbolAt(s, g, j, c) <==> SymbolAt(s[3..], g - 1, j, c)
  {
    hide Digit, Letter, Together;
    assert Byte(s, 3 * g) == Byte(s[3..], 3 * (g - 1));
    assert Byte(s, 3 * g + 1) == Byte(s[3..], 3 * (g - 1) + 1);
    assert Byte(s, 3 * g + 2) == Byte(s[3..], 3 * (g - 1) + 2);
  }

  // ------------------------------------------------------------------ line breaks

  /** Line breaks in a text of n characters that begins with `col` characters on its line. */
  function Breaks(n: nat, col: nat): nat { (col + n + 71) / 72 }

  /** Where character i goes, and how many characters of q are in front of the l-th line break. */
  function Place(i: nat, col: nat): nat { i + (col + i) / 72 }

  function Before(n: nat, l: nat, col: nat): int { if 72 * (l + 1) - col < n then 72 * (l + 1) - col else n }

  /** The characters of q in lines of 72, the first shorter by `col`, each with a newline behind it. */
  ghost predicate InLines(t: seq<byte>, q: seq<byte>, col: nat)
  {
    && |t| == |q| + Breaks(|q|, col)
    && (forall i: nat :: i < |q| ==> Place(i, col) < |t| && t[Place(i, col)] == q[i])
    && (forall l: nat :: l < Breaks(|q|, col) ==> IsBreak(t, Before(|q|, l, col) + l))
  }

  predicate IsBreak(t: seq<byte>, p: int) { 0 <= p < |t| && t[p] == '\n' as int }

  /** Four more characters in front, on the same line. */
  lemma LineGoesOn(q: seq<byte>, t: seq<byte>, rest: seq<byte>, col: nat)
    requires |q| == 4 && col + 4 < 72 && InLines(t, rest, col + 4)
    ensures InLines(q + t, q + rest, col)
  {
    hide IsBreak;
    var t', q' := q + t, q + rest;
    forall i: nat | i < |q'|
      ensures Place(i, col) < |t'| && t'[Place(i, col)] == q'[i]
    {
      if i >= 4 { assert Place(i, col) == 4 + Place(i - 4, col + 4) && rest[i - 4] == q'[i]; }
    }
    forall l: nat | l < Breaks(|q'|, col)
      ensures IsBreak(t', Before(|q'|, l, col) + l)
    {
      var p := Before(|rest|, l, col + 4) + l;
      assert IsBreak(t, p);
      BreakShifts(q, t, p);
      assert Before(|q'|, l, col) == 4 + Before(|rest|, l, col + 4);
    }
  }

  lemma BreakShifts(front: seq<byte>, t: seq<byte>, p: int)
    requires IsBreak(t, p)
    ensures IsBreak(front + t, |front| + p)
  {
  }

  /** Four more characters in front that complete a line. */
  lemma LineEnds(q: seq<byte>, t: seq<byte>, rest: seq<byte>)
    requires |q| == 4 && InLines(t, rest, 0)
    ensures InLines(q + ['\n' as int] + t, q + rest, 68)
  {
    hide IsBreak;
    var front := q + ['\n' as int];
    var t', q' := front + t, q + rest;
    forall i: nat | i < |q'|
      ensures Place(i, 68) < |t'| && t'[Place(i, 68)] == q'[i]
    {
      if i >= 4 { assert Place(i, 68) == 5 + Place(i - 4, 0) && rest[i - 4] == q'[i]; }
    }
    forall l: nat | l < Breaks(|q'|, 68)
      ensures IsBreak(t', Before(|q'|, l, 68) + l)
    {
      if l == 0 {
        EndOfLine(q, t);
        assert Before(|q'|, 0, 68) == 4;
      } else {
        var p := Before(|rest|, l - 1, 0) + l - 1;
        assert IsBreak(t, p);
        BreakShifts(front, t, p);
        assert Before(|q'|, l, 68) == 4 + Before(|rest|, l - 1, 0);
      }
    }
  }

  lemma EndOfLine(q: seq<byte>, t: seq<byte>)
    requires |q| == 4
    ensures IsBreak(q + ['\n' as int] + t, 4)
  {
  }

  lemma LastLine(q: seq<byte>, col: nat)
    requires |q| == 4 && col <= 68
    ensures InLines(q + ['\n' as int], q, col)
  {
    EndOfLine(q, []);
    assert q + ['\n' as int] + [] == q + ['\n' as int];
  }

  lemma NoLine(col: nat)
    requires col < 72
    ensures InLines(if col > 0 then ['\n' as int] else [], [], col)
  {
  }

  /** The text has its characters in lines of 72, the last ended as well. */
  lemma {:induction false} EncodeInLines(s: seq<byte>, col: nat)
    requires col % 4 == 0 && col < 72
    ensures InLines(Encode(s, col), Symbols(s), col)
    decreases |s|
  {
    hide InLines, Quad, LastQuad;
    if |s| == 0 {
      NoLine(col);
    } else if |s| < 3 {
      LastLine(LastQuad(s), col);
    } else {
      var q := Quad(s[0], s[1], s[2]);
      if col + 4 >= 72 {
        EncodeInLines(s[3..], 0);
        LineEnds(q, Encode(s[3..], 0), Symbols(s[3..]));
      } else {
        EncodeInLines(s[3..], col + 4);
        LineGoesOn(q, Encode(s[3..], col + 4), Symbols(s[3..]), col);
      }
    }
  }
}
