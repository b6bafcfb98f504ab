/** base64_encode() and base64_decode() of utils/base64.c (section 5.2 of RFC 1341). */
module Base64 {
  import opened Wrappers
  import opened Bits

  const NEWLINE: byte := 0x0A
  const PAD: byte := 0x3D
  const PLUS: byte := 0x2B
  const SLASH: byte := 0x2F

  /** base64_table: A-Z, a-z, 0-9, + and /. */
  function Symbol(d: int): (c: byte)
    requires 0 <= d < 64
  {
    if d < 26 then 0x41 + d
    else if d < 52 then 0x61 + d - 26
    else if d < 62 then 0x30 + d - 52
    else if d == 62 then PLUS
    else SLASH
  }

  /** dtable: the value of a character, 0 for the padding, -1 for what is skipped. */
  function Value(c: byte): (d: int)
    ensures -1 <= d < 64
  {
    if 0x41 <= c <= 0x5A then c - 0x41
    else if 0x61 <= c <= 0x7A then c - 0x61 + 26
    else if 0x30 <= c <= 0x39 then c - 0x30 + 52
    else if c == PLUS then 62
    else if c == SLASH then 63
    else if c == PAD then 0
    else -1
  }

  lemma ValueOfSymbol(d: int)
    requires 0 <= d < 64
    ensures Value(Symbol(d)) == d && Symbol(d) != PAD && Symbol(d) != NEWLINE
  {
  }

  // ----------------------------------------------------------------- encoding

  /** Three bytes in four characters. */
  function Quad(x: byte, y: byte, z: byte): (q: seq<byte>)
    ensures |q| == 4
  {
    [Symbol(x / 4), Symbol(x % 4 * 16 + y / 16), Symbol(y % 16 * 4 + z / 64), Symbol(z % 64)]
  }

  /** The last one or two bytes, padded. */
  function LastQuad(s: seq<byte>): (q: seq<byte>)
    requires 1 <= |s| <= 2
    ensures |q| == 4
  {
    if |s| == 1 then [Symbol(s[0] / 4), Symbol(s[0] % 4 * 16), PAD, PAD]
    else [Symbol(s[0] / 4), Symbol(s[0] % 4 * 16 + s[1] / 16), Symbol(s[1] % 16 * 4), PAD]
  }

  /** The text without its line breaks. */
  function Symbols(s: seq<byte>): (q: seq<byte>)
    ensures |q| == (|s| + 2) / 3 * 4
  {
    if |s| == 0 then []
    else if |s| < 3 then LastQuad(s)
    else Quad(s[0], s[1], s[2]) + Symbols(s[3..])
  }

  /** The text, with a line break after every 72 characters and at the end; `col` of them are on the line. */
  function Encode(s: seq<byte>, col: nat): (t: seq<byte>)
  {
    if |s| == 0 then if col > 0 then [NEWLINE] else []
    else if |s| < 3 then LastQuad(s) + [NEWLINE]
    else if col + 4 >= 72 then Quad(s[0], s[1], s[2]) + [NEWLINE] + Encode(s[3..], 0)
    else Quad(s[0], s[1], s[2]) + Encode(s[3..], col + 4)
  }

  /** The size that base64_encode() computes for its output, with the NUL. */
  function Olen(n: nat): nat
  {
    var t := n * 4 / 3 + 4;
    t + t / 72 + 1
  }

  /** The text never has more characters than the computed size has room for. */
  lemma {:induction false} EncodedLength(s: seq<byte>, col: nat)
    requires col < 72 && col % 4 == 0
    ensures 72 * |Encode(s, col)| <= 73 * ((|s| + 2) / 3 * 4) + col + (if |s| > 0 || col > 0 then 71 else 0)
    decreases |s|
  {
    if |s| >= 3 {
      assert (|s[3..]| + 2) / 3 == (|s| + 2) / 3 - 1;
      EncodedLength(s[3..], if col + 4 >= 72 then 0 else col + 4);
    }
  }

  /** Text and NUL fit into the computed size, and for a single byte they fill it. */
  lemma SizeSuffices(s: seq<byte>)
    ensures |Encode(s, 0)| + 1 <= Olen(|s|)
    ensures |s| == 1 ==> |Encode(s, 0)| + 1 == Olen(|s|)
  {
    EncodedLength(s, 0);
    var q := (|s| + 2) / 3;
    SizeOf(|s|, q, |Encode(s, 0)|);
  }

  lemma SizeOf(n: nat, q: nat, e: nat)
    requires 3 * q <= n + 2 < 3 * q + 3 && 72 * e <= 73 * (4 * q) + 71 && (n == 0 ==> e == 0) && (n == 1 ==> e == 5)
    ensures e + 1 <= Olen(n) && (n == 1 ==> e + 1 == Olen(n))
  {
    var t := n * 4 / 3 + 4;
    assert t >= 4 * q + 1;
    var k := t / 72;
    assert t <= 72 * k + 71;
    assert 72 * e <= 72 * t + 72 * k + 71;
  }

  // ----------------------------------------------------------------- decoding

  /** The characters that are not skipped. */
  function Filter(t: seq<byte>): (f: seq<byte>)
    ensures |f| <= |t|
  {
    if t == [] then []
    else Filter(t[..|t| - 1]) + if Value(t[|t| - 1]) == -1 then [] else [t[|t| - 1]]
  }

  function Pads(q: seq<byte>): nat
    requires |q| == 4
  {
    (if q[0] == PAD then 1 else 0) + (if q[1] == PAD then 1 else 0)
    + (if q[2] == PAD then 1 else 0) + (if q[3] == PAD then 1 else 0)
  }

  /** Four values in three bytes. */
  function Bytes(a: int, b: int, c: int, d: int): (r: seq<byte>)
    requires 0 <= a < 64 && 0 <= b < 64 && 0 <= c < 64 && 0 <= d < 64
    ensures |r| == 3
  {
    [a * 4 + b / 16, b % 16 * 16 + c / 4, c % 4 * 64 + d]
  }

  predicate Legal(f: seq<byte>) { forall i :: 0 <= i < |f| ==> Value(f[i]) >= 0 }

  function QuadBytes(q: seq<byte>): (r: seq<byte>)
    requires |q| == 4 && Legal(q)
    ensures |r| == 3
  {
    Bytes(Value(q[0]), Value(q[1]), Value(q[2]), Value(q[3]))
  }

  /** Block by block up to the first that has padding; more than two pads are an error. */
  function Blocks(f: seq<byte>, acc: seq<byte>): (r: Option<seq<byte>>)
    requires Legal(f)
    decreases |f|
  {
    if |f| < 4 then Some(acc)
    else
      var q, r := f[..4], QuadBytes(f[..4]);
      if Pads(q) == 0 then Blocks(f[4..], acc + r)
      else if Pads(q) > 2 then None
      else Some(acc + r[..3 - Pads(q)])
  }

  /** base64_decode() into room for `room` bytes. */
  function Decode(t: seq<byte>, room: nat): Option<seq<byte>>
  {
    FilterLegal(t);
    var f := Filter(t);
    if |f| == 0 || |f| % 4 != 0 || |f| / 4 * 3 > room then None else Blocks(f, [])
  }

  lemma {:induction false} FilterLegal(t: seq<byte>)
    ensures Legal(Filter(t))
  {
    if t != [] { FilterLegal(t[..|t| - 1]); }
  }

  lemma {:induction false} FilterSplits(t: seq<byte>, u: seq<byte>)
    ensures Filter(t + u) == Filter(t) + Filter(u)
    decreases |u|
  {
    if u == [] {
      assert t + u == t;
    } else {
      assert (t + u)[..|t + u| - 1] == t + u[..|u| - 1];
      FilterSplits(t, u[..|u| - 1]);
    }
  }

  lemma QuadKept(q: seq<byte>)
    requires |q| == 4 && Legal(q)
    ensures Filter(q) == q
  {
    assert q[..3][..2] == q[..2] && q[..2][..1] == q[..1] && q[..1][..0] == [];
    assert Filter(q[..1]) == [q[0]];
    assert Filter(q[..2]) == [q[0], q[1]];
    assert Filter(q[..3]) == [q[0], q[1], q[2]];
  }

  lemma QuadLegal(x: byte, y: byte, z: byte)
    ensures Legal(Quad(x, y, z)) && Pads(Quad(x, y, z)) == 0 && QuadBytes(Quad(x, y, z)) == [x, y, z]
  {
    ValueOfSymbol(x / 4);
    ValueOfSymbol(x % 4 * 16 + y / 16);
    ValueOfSymbol(y % 16 * 4 + z / 64);
    ValueOfSymbol(z % 64);
    hide Symbol, Value;
    Shifts(x, y, z);
  }

  lemma Shifts(x: byte, y: byte, z: byte)
    ensures Bytes(x / 4, x % 4 * 16 + y / 16, y % 16 * 4 + z / 64, z % 64) == [x, y, z]
  {
    assert (x % 4 * 16 + y / 16) / 16 == x % 4 && (x % 4 * 16 + y / 16) % 16 == y / 16;
    assert (y % 16 * 4 + z / 64) / 4 == y % 16 && (y % 16 * 4 + z / 64) % 4 == z / 64;
  }

  lemma LastQuadLegal(s: seq<byte>)
    requires 1 <= |s| <= 2
    ensures Legal(LastQuad(s)) && Pads(LastQuad(s)) == 3 - |s| && QuadBytes(LastQuad(s))[..|s|] == s
  {
    var y: byte := if |s| == 2 then s[1] else 0;
    ValueOfSymbol(s[0] / 4);
    ValueOfSymbol(s[0] % 4 * 16 + y / 16);
    ValueOfSymbol(y % 16 * 4);
    Shifts(s[0], y, 0);
    assert Value(PAD) == 0;
    hide Symbol, Value;
  }

  /** Skipping the line breaks leaves the symbols. */
  lemma {:induction false} EncodeFiltered(s: seq<byte>, col: nat)
    ensures Filter(Encode(s, col)) == Symbols(s)
    decreases |s|
  {
    hide Quad, LastQuad, Filter;
    NewlineSkipped();
    if |s| == 0 {
    } else if |s| < 3 {
      LastQuadLegal(s);
      QuadKept(LastQuad(s));
      FilterSplits(LastQuad(s), [NEWLINE]);
    } else {
      var q := Quad(s[0], s[1], s[2]);
      QuadLegal(s[0], s[1], s[2]);
      QuadKept(q);
      var nl := if col + 4 >= 72 then [NEWLINE] else [];
      var col' := if col + 4 >= 72 then 0 else col + 4;
      EncodeFiltered(s[3..], col');
      FilterSplits(q, nl);
      FilterSplits(q + nl, Encode(s[3..], col'));
      assert Encode(s, col) == q + nl + Encode(s[3..], col');
    }
  }

  lemma NewlineSkipped()
    ensures Filter([NEWLINE]) == [] && Filter([]) == []
  {
    assert [NEWLINE][..0] == [];
  }

  lemma {:induction false} SymbolsLegal(s: seq<byte>)
    ensures Legal(Symbols(s))
  {
    if |s| >= 3 {
      QuadLegal(s[0], s[1], s[2]);
      SymbolsLegal(s[3..]);
    } else if |s| > 0 {
      LastQuadLegal(s);
    }
  }

  /** The blocks give the bytes back. */
  lemma {:induction false} BlocksOfSymbols(s: seq<byte>, acc: seq<byte>)
    requires Legal(Symbols(s))
    ensures Blocks(Symbols(s), acc) == Some(acc + s)
    decreases |s|
  {
    hide Quad, LastQuad, QuadBytes, Pads;
    var f := Symbols(s);
    if |s| == 0 {
      assert acc + s == acc;
    } else if |s| < 3 {
      LastQuadLegal(s);
      assert f[..4] == LastQuad(s);
    } else {
      var q := Quad(s[0], s[1], s[2]);
      QuadLegal(s[0], s[1], s[2]);
      SymbolsLegal(s[3..]);
      assert f[..4] == q && f[4..] == Symbols(s[3..]);
      BlocksOfSymbols(s[3..], acc + [s[0], s[1], s[2]]);
      assert (acc + [s[0], s[1], s[2]]) + s[3..] == acc + s;
    }
  }

  /**
   base64_decode() gives back what base64_encode() was given, whatever line
   breaks and other foreign characters are added or removed, exactly when the
   bytes are not empty and there is room for the last, padded block as a whole.
   */
  lemma RoundTrip(s: seq<byte>, t: seq<byte>, room: nat)
    requires Filter(t) == Filter(Encode(s, 0))
    ensures Decode(t, room) == if s != [] && (|s| + 2) / 3 * 3 <= room then Some(s) else None
  {
    hide Filter, Symbols, Encode, Blocks;
    EncodeFiltered(s, 0);
    SymbolsLegal(s);
    BlocksOfSymbols(s, []);
    assert [] + s == s;
    var q := (|s| + 2) / 3;
    assert |Symbols(s)| == q * 4;
    WholeBlocks(q);
    assert q == 0 <==> s == [];
  }

  /** What fits into one line has no line break but the one at its end. */
  lemma {:induction false} OneLine(s: seq<byte>, col: nat)
    requires col % 4 == 0 && col + (|s| + 2) / 3 * 4 < 72 && (s != [] || col > 0)
    ensures Encode(s, col) == Symbols(s) + [NEWLINE]
    decreases |s|
  {
    if |s| >= 3 {
      assert (|s[3..]| + 2) / 3 == (|s| + 2) / 3 - 1;
      OneLine(s[3..], col + 4);
      assert Quad(s[0], s[1], s[2]) + (Symbols(s[3..]) + [NEWLINE]) == Symbols(s) + [NEWLINE];
    }
  }

  predicate Plain(c: byte) { c != 0 && c != NEWLINE && c != 0x40 }

  lemma {:induction false} SymbolsPlain(s: seq<byte>)
    ensures forall i :: 0 <= i < |Symbols(s)| ==> Plain(Symbols(s)[i])
    ensures s != [] ==> Symbols(s) != []
  {
    if |s| >= 3 { SymbolsPlain(s[3..]); }
  }

  /** Nothing of the symbols is skipped. */
  lemma {:induction false} SymbolsKept(s: seq<byte>)
    ensures Filter(Symbols(s)) == Filter(Encode(s, 0))
  {
    hide Encode;
    EncodeFiltered(s, 0);
    SymbolsLegal(s);
    LegalKept(Symbols(s));
  }

  lemma {:induction false} LegalKept(f: seq<byte>)
    requires Legal(f)
    ensures Filter(f) == f
  {
    if f != [] {
      LegalKept(f[..|f| - 1]);
      assert f == f[..|f| - 1] + [f[|f| - 1]];
    }
  }

  lemma WholeBlocks(q: nat)
    ensures q * 4 % 4 == 0 && q * 4 / 4 == q
  {
  }

  // ------------------------------------------------------------------ methods

  /** Writes q at pos. */
  method Put(out: array<byte>, pos: nat, q: seq<byte>)
    requires pos + |q| <= out.Length
    modifies out
    ensures out[..pos + |q|] == old(out[..pos]) + q
    ensures forall k :: pos + |q| <= k < out.Length ==> out[k] == old(out[k])
  {
    var i: nat := 0;
    while i < |q|
      invariant i <= |q| && out[..pos] == old(out[..pos]) && out[pos..pos + i] == q[..i]
      invariant forall k :: pos + |q| <= k < out.Length ==> out[k] == old(out[k])
    {
      out[pos + i] := q[i];
      assert q[..i + 1] == q[..i] + [q[i]];
      assert out[pos..pos + i + 1] == out[pos..pos + i] + [q[i]];
      i := i + 1;
    }
    assert out[..pos + |q|] == out[..pos] + out[pos..pos + |q|];
  }

  /** Fills a buffer of the computed size, NUL included. */
  method Base64Encode(src: seq<byte>, out: array<byte>) returns (outLen: nat)
    requires out.Length >= Olen(|src|)
    modifies out
    ensures outLen < out.Length && out[outLen] == 0
    ensures out[..outLen] == Encode(src, 0)
  {
    hide Encode, Olen, Quad, LastQuad;
    SizeSuffices(src);
    var i: nat, pos: nat, lineLen: nat := 0, 0, 0;
    assert src[0..] == src;
    while |src| - i >= 3
      invariant i <= |src| && lineLen < 72
      invariant pos + |Encode(src[i..], lineLen)| < out.Length
      invariant out[..pos] + Encode(src[i..], lineLen) == Encode(src, 0)
    {
      pos, lineLen := PutQuad(src, i, out, pos, lineLen);
      i := i + 3;
    }
    pos := PutLast(src, i, out, pos, lineLen);
    out[pos] := 0;
    outLen := pos;
  }

  /** A round of the loop over whole blocks. */
  method PutQuad(src: seq<byte>, i: nat, out: array<byte>, pos: nat, lineLen: nat) returns (pos': nat, lineLen': nat)
    requires i + 3 <= |src| && lineLen < 72
    requires pos + |Encode(src[i..], lineLen)| < out.Length
    modifies out
    ensures lineLen' < 72 && pos' + |Encode(src[i + 3..], lineLen')| == pos + |Encode(src[i..], lineLen)|
    ensures out[..pos'] + Encode(src[i + 3..], lineLen') == old(out[..pos]) + Encode(src[i..], lineLen)
  {
    hide Quad;
    var q := Quad(src[i], src[i + 1], src[i + 2]);
    EncodeQuad(src, i, lineLen);
    hide Encode;
    Put(out, pos, q);
    pos', lineLen' := pos + 4, lineLen + 4;
    if lineLen' >= 72 {
      Put(out, pos', [NEWLINE]);
      pos', lineLen' := pos' + 1, 0;
    }
  }

  lemma EncodeQuad(src: seq<byte>, i: nat, lineLen: nat)
    requires i + 3 <= |src|
    ensures var q := Quad(src[i], src[i + 1], src[i + 2]);
      Encode(src[i..], lineLen) == if lineLen + 4 >= 72 then q + [NEWLINE] + Encode(src[i + 3..], 0)
                                   else q + Encode(src[i + 3..], lineLen + 4)
  {
    assert src[i..][3..] == src[i + 3..];
  }

  /** What follows the loop: the padded block and the last line break. */
  method PutLast(src: seq<byte>, i: nat, out: array<byte>, pos: nat, lineLen: nat) returns (pos': nat)
    requires i <= |src| < i + 3
    requires pos + |Encode(src[i..], lineLen)| < out.Length
    modifies out
    ensures pos' < out.Length && out[..pos'] == old(out[..pos]) + Encode(src[i..], lineLen)
  {
    hide LastQuad;
    pos' := pos;
    var line := lineLen;
    if i < |src| {
      Put(out, pos, LastQuad(src[i..]));
      pos', line := pos + 4, line + 4;
    }
    if line > 0 {
      Put(out, pos', [NEWLINE]);
      pos' := pos' + 1;
    }
  }

  /** The number of characters that are not skipped. */
  method CountSymbols(src: seq<byte>) returns (count: nat)
    ensures count == |Filter(src)|
  {
    count := 0;
    var i: nat := 0;
    assert src[..0] == [];
    while i < |src|
      invariant i <= |src| && count == |Filter(src[..i])|
    {
      assert src[..i + 1][..i] == src[..i];
      if Value(src[i]) != -1 { count := count + 1; }
      i := i + 1;
    }
    assert src[..i] == src;
  }

  /** The four values of a block become three bytes. */
  method PutBlock(block: array<int>, out: array<byte>, pos: nat, ghost q: seq<byte>)
    requires |q| == 4 && Legal(q) && block.Length == 4 && forall j :: 0 <= j < 4 ==> block[j] == Value(q[j])
    requires pos + 3 <= out.Length
    modifies out
    ensures out[..pos + 3] == old(out[..pos]) + QuadBytes(q)
    ensures forall k :: pos + 3 <= k < out.Length ==> out[k] == old(out[k])
  {
    hide Value;
    assert 0 <= block[0] < 64 && 0 <= block[1] < 64 && 0 <= block[2] < 64 && 0 <= block[3] < 64;
    Put(out, pos, Bytes(block[0], block[1], block[2], block[3]));
  }

  function PadCount(f: seq<byte>): nat
  {
    if f == [] then 0 else PadCount(f[..|f| - 1]) + if f[|f| - 1] == PAD then 1 else 0
  }

  lemma PadCountOfQuad(q: seq<byte>)
    requires |q| == 4
    ensures PadCount(q) == Pads(q)
  {
    assert q[..3][..2] == q[..2] && q[..2][..1] == q[..1] && q[..1][..0] == [];
    assert PadCount(q[..1]) == if q[0] == PAD then 1 else 0;
    assert PadCount(q[..2]) == PadCount(q[..1]) + if q[1] == PAD then 1 else 0;
    assert PadCount(q[..3]) == PadCount(q[..2]) + if q[2] == PAD then 1 else 0;
  }

  /**
   Where the loop of base64_decode() stands: all that was not skipped so far is
   a number of whole blocks, which are in `out`, and `part`, which is in `block`.
   */
  ghost predicate Decoding(f: seq<byte>, part: seq<byte>, rest: seq<byte>,
      block: array<int>, out: array<byte>, room: nat, pos: nat, pad: nat)
    requires Legal(f)
    reads block, out
  {
    && block.Length == 4 && |part| < 4 && Legal(part + rest)
    && (forall j :: 0 <= j < |part| ==> block[j] == Value(part[j]))
    && pad == PadCount(part)
    && pos + (|part| + |rest|) / 4 * 3 <= room <= out.Length && (|part| + |rest|) % 4 == 0
    && Blocks(part + rest, out[..pos]) == Blocks(f, [])
  }

  datatype Step = More | Done | Failed

  /** A character that is not skipped; the fourth of a block writes the block. */
  method TakeSymbol(c: byte, block: array<int>, out: array<byte>, room: nat, count: nat, pos: nat, pad: nat,
      ghost f: seq<byte>, ghost part: seq<byte>, ghost rest: seq<byte>)
    returns (step: Step, count': nat, pos': nat, pad': nat, ghost part': seq<byte>)
    requires count == |part|
    requires Legal(f) && Decoding(f, part, [c] + rest, block, out, room, pos, pad) && Value(c) >= 0
    modifies block, out
    ensures step.More? ==> Decoding(f, part', rest, block, out, room, pos', pad') && count' == |part'|
    ensures step.Done? ==> pos' <= room && Blocks(f, []) == Some(out[..pos'])
    ensures step.Failed? ==> Blocks(f, []) == None
    ensures forall k :: room <= k < out.Length ==> out[k] == old(out[k])
  {
    hide Value, Blocks, QuadBytes;
    ghost var whole := part + ([c] + rest);
    part' := part + [c];
    assert whole == part' + rest;
    assert part'[..|part|] == part;
    step, count', pos', pad' := More, count + 1, pos, pad;
    if c == PAD { pad' := pad' + 1; }
    block[count] := Value(c);
    if count' == 4 {
      assert whole[..4] == part' && whole[4..] == rest && Legal(part');
      PadCountOfQuad(part');
      BlocksStep(whole, out[..pos]);
      PutBlock(block, out, pos, part');
      ghost var q := QuadBytes(part');
      pos' := pos + 3;
      if pad' > 2 {
        step := Failed;
      } else if pad' > 0 {
        assert out[..pos' - pad'] == old(out[..pos]) + q[..3 - pad'];
        pos' := pos' - pad';
        step := Done;
      } else {
        count', part' := 0, [];
        assert part' + rest == rest;
      }
    }
  }

  lemma BlocksStep(f: seq<byte>, acc: seq<byte>)
    requires Legal(f) && |f| >= 4
    ensures Legal(f[..4]) && Legal(f[4..])
    ensures var q, r := f[..4], QuadBytes(f[..4]);
      Blocks(f, acc) == if Pads(q) == 0 then Blocks(f[4..], acc + r)
                        else if Pads(q) > 2 then None else Some(acc + r[..3 - Pads(q)])
  {
  }

  lemma FilterHead(t: seq<byte>, i: nat)
    requires i < |t|
    ensures Filter(t[i..]) == (if Value(t[i]) == -1 then [] else [t[i]]) + Filter(t[i + 1..])
  {
    assert t[i..] == [t[i]] + t[i + 1..];
    FilterSplits([t[i]], t[i + 1..]);
    assert [t[i]][..0] == [];
  }

  /**
   base64_decode() into a buffer of which it may use `room` bytes: 0 and the
   number of bytes, or -1; it never writes beyond the room.
   */
  method Base64Decode(src: seq<byte>, out: array<byte>, room: nat) returns (rc: int, outLen: nat)
    requires room <= out.Length
    modifies out
    ensures match Decode(src, room)
      case Some(r) => rc == 0 && outLen <= room && out[..outLen] == r
      case None => rc == -1 && outLen == room
    ensures forall k :: room <= k < out.Length ==> out[k] == old(out[k])
  {
    hide Value, Filter, Blocks;
    FilterLegal(src);
    ghost var f := Filter(src);
    var total := CountSymbols(src);
    if total == 0 || total % 4 != 0 || total / 4 * 3 > room { return -1, room; }
    var block := new int[4];
    var count: nat, pos: nat, pad: nat := 0, 0, 0;
    ghost var part: seq<byte> := [];
    var i: nat := 0;
    assert src[0..] == src && part + f == f && out[..0] == [];
    while i < |src|
      invariant i <= |src| && count == |part|
      invariant Decoding(f, part, Filter(src[i..]), block, out, room, pos, pad)
      invariant forall k :: room <= k < out.Length ==> out[k] == old(out[k])
    {
      FilterHead(src, i);
      if Value(src[i]) != -1 {
        var step;
        step, count, pos, pad, part :=
          TakeSymbol(src[i], block, out, room, count, pos, pad, f, part, Filter(src[i + 1..]));
        if step.Failed? { return -1, room; }
        if step.Done? { return 0, pos; }
      } else {
        assert [] + Filter(src[i + 1..]) == Filter(src[i + 1..]);
      }
      i := i + 1;
    }
    NothingLeft(src[i..], part, out[..pos]);
    rc, outLen := 0, pos;
  }

  lemma NothingLeft(t: seq<byte>, part: seq<byte>, acc: seq<byte>)
    requires t == [] && |part| < 4 && Legal(part)
    ensures Filter(t) == [] && part + Filter(t) == part && Blocks(part, acc) == Some(acc)
  {
  }

  /** Encoded into a buffer of the computed size and decoded into one of whole blocks, the bytes come back. */
  method ThereAndBack(s: seq<byte>) returns (rc: int, r: seq<byte>)
    ensures if s == [] then rc == -1 else rc == 0 && r == s
  {
    hide Encode, Decode, Filter, Olen;
    var text := new byte[Olen(|s|)];
    var n := Base64Encode(s, text);
    var room := (|s| + 2) / 3 * 3;
    var out := new byte[room];
    var len;
    RoundTrip(s, text[..n], room);
    rc, len := Base64Decode(text[..n], out, room);
    r := if rc == 0 then out[..len] else [];
  }
}
