/** webencode() and webdecode() of utils/webencode.c. */
module WebEncode {
  import opened Wrappers
  import opened Bits
  import opened Seqs

  const SPACE: byte := 0x20
  const PERCENT: byte := 0x25
  const AMPERSAND: byte := 0x26
  const PLUS: byte := 0x2B
  const MINUS: byte := 0x2D
  const EQUALS: byte := 0x3D
  const UPPER_F: byte := 0x46

  /** The bytes that go out as they are: letters, digits and `-_.~/@`. */
  predicate Plain(c: byte)
  {
    || 0x41 <= c <= 0x5A || 0x61 <= c <= 0x7A || 0x30 <= c <= 0x39
    || c == 0x2D || c == 0x5F || c == 0x2E || c == 0x7E || c == 0x2F || c == 0x40
  }

  /** The digit of %x. */
  function Hex(d: int): (c: byte)
    requires 0 <= d < 16
  {
    if d < 10 then 0x30 + d else 0x61 + d - 10
  }

  function HexValue(c: byte): (d: int)
    ensures -1 <= d < 16
  {
    if 0x30 <= c <= 0x39 then c - 0x30
    else if 0x61 <= c <= 0x66 then c - 0x61 + 10
    else if 0x41 <= c <= 0x46 then c - 0x41 + 10
    else -1
  }

  function EncodeByte(c: byte): (s: seq<byte>)
    ensures |s| >= 1
  {
    if c == SPACE then [PLUS]
    else if Plain(c) then [c]
    else [PERCENT, Hex(c / 16), Hex(c % 16)]
  }

  /** "%FF": no NUL at the end. */
  const MARK: seq<byte> := [PERCENT, UPPER_F, UPPER_F]

  /** A single NUL at the end is left out; where it is missing the mark says so. */
  function Encode(s: seq<byte>): seq<byte>
  {
    if s == [] then MARK
    else if s == [0] then []
    else EncodeByte(s[0]) + Encode(s[1..])
  }

  /** The byte at i, NUL behind the end. */
  function At(s: seq<byte>, i: nat): byte { if i < |s| then s[i] else 0 }

  predicate Stop(c: byte) { c == 0 || c == AMPERSAND || c == EQUALS }

  predicate White(c: byte) { c == SPACE || 0x09 <= c <= 0x0D }

  /** sscanf("%2x") into a byte: white space, then two characters at most, a sign or hexadecimal digits. */
  function ScanHex(s: seq<byte>): Option<byte>
  {
    if s != [] && White(s[0]) then ScanHex(s[1..])
    else
      var v, w := HexValue(At(s, 0)), HexValue(At(s, 1));
      if At(s, 0) == PLUS then if w < 0 then None else Some(w)
      else if At(s, 0) == MINUS then if w < 0 then None else Some((256 - w) % 256)
      else if v < 0 then None
      else if w < 0 then Some(v)
      else Some(16 * v + w)
  }

  /** What stands at the front of a text: a byte for one character or three, the mark, or something unreadable. */
  datatype Piece = Byte(size: nat, c: byte) | Mark | Bad

  function Read(s: seq<byte>): (r: Piece)
    requires !Stop(At(s, 0))
    ensures r.Byte? ==> r.size == if s[0] == PERCENT then 3 else 1
    ensures r.Mark? ==> 3 <= |s|
  {
    if s[0] == PLUS then Byte(1, SPACE)
    else if s[0] == PERCENT then
      if At(s, 1) == UPPER_F && At(s, 2) == UPPER_F then Mark
      else
        var c := ScanHex(s[1..]);
        if c.None? then Bad else Byte(3, c.value)
    else Byte(1, s[0])
  }

  /**
   The bytes and the text from the stop on; a refusal; or a step outside: behind
   the NUL of the text, or behind the end of a buffer of `room` bytes.
   */
  datatype Decoded = Done(bytes: seq<byte>, rest: seq<byte>) | Refused | Outside

  /** Decodes until p stands on `&`, `=` or NUL; t holds the bytes so far. */
  function Decode(s: seq<byte>, bin: bool, t: seq<byte>, room: nat): (r: Decoded)
    ensures r.Done? ==> |r.rest| <= |s|
    decreases |s|
  {
    if Stop(At(s, 0)) then
      if bin then Done(t, s) else if |t| < room then Done(t + [0], s) else Outside
    else
      match Read(s)
      case Byte(size, c) =>
        if |t| >= room || (size == 3 && At(s, 2) == 0) then Outside
        else Decode(s[size..], bin, t + [c], room)
      case Mark => Decode(s[3..], true, t, room)
      case Bad => Refused
  }

  /** webdecode(), with the buffer it allocates. */
  function Decoding(s: seq<byte>): Decoded { Decode(s, false, [], Span(s) + 1) }

  /** strcspn(s, "=&") of a C string. */
  function Span(s: seq<byte>): (n: nat)
    ensures n <= |s| && Stop(At(s, n)) && forall i :: 0 <= i < n ==> !Stop(s[i])
  {
    if Stop(At(s, 0)) then 0 else 1 + Span(s[1..])
  }

  /** One encoded byte is read back, and never as the mark. */
  lemma {:induction false} DecodeByte(c: byte, rest: seq<byte>, t: seq<byte>, room: nat)
    requires |t| < room
    ensures Decode(EncodeByte(c) + rest, false, t, room) == Decode(rest, false, t + [c], room)
  {
    var e := EncodeByte(c);
    var s := e + rest;
    if |e| == 1 {
      assert s[1..] == rest;
    } else {
      HexDigits(c, rest);
      assert s[1..] == [Hex(c / 16), Hex(c % 16)] + rest;
      assert s[3..] == rest;
    }
  }

  /** The two digits of a byte are read as that byte. */
  lemma {:induction false} HexDigits(c: byte, rest: seq<byte>)
    ensures ScanHex([Hex(c / 16), Hex(c % 16)] + rest) == Some(c)
    ensures Hex(c % 16) != 0 && Hex(c % 16) != UPPER_F
  {
    var s := [Hex(c / 16), Hex(c % 16)] + rest;
    assert At(s, 0) == Hex(c / 16) && At(s, 1) == Hex(c % 16);
    assert HexValue(Hex(c / 16)) == c / 16 && HexValue(Hex(c % 16)) == c % 16;
  }

  lemma Regroup(t: seq<byte>, v: seq<byte>)
    requires v != []
    ensures (t + [v[0]]) + v[1..] == t + v
  {
  }

  /** Decoding what was encoded adds the bytes, given room for them. */
  lemma {:induction false} EncodedIsRead(v: seq<byte>, rest: seq<byte>, t: seq<byte>, room: nat)
    requires Stop(At(rest, 0)) && |t| + |v| <= room
    ensures Decode(Encode(v) + rest, false, t, room) == Done(t + v, rest)
    decreases |v|
  {
    if v == [] {
      var s := MARK + rest;
      assert s[3..] == rest && s[0] == PERCENT && At(s, 1) == UPPER_F && At(s, 2) == UPPER_F;
      assert t + v == t;
    } else if v == [0] {
      assert Encode(v) + rest == rest;
    } else {
      var tail := Encode(v[1..]) + rest;
      assert Encode(v) + rest == EncodeByte(v[0]) + tail;
      hide Decode;
      DecodeByte(v[0], tail, t, room);
      EncodedIsRead(v[1..], rest, t + [v[0]], room);
      Regroup(t, v);
    }
  }

  /** Decoding what was encoded, whatever stop or end follows, gives every byte string back. */
  lemma {:induction false} RoundTrip(v: seq<byte>, rest: seq<byte>)
    requires Stop(At(rest, 0))
    ensures Decoding(Encode(v) + rest) == Done(v, rest)
  {
    hide Decode;
    NoStops(v);
    SpanOf(Encode(v), rest);
    EncodedIsRead(v, rest, [], Span(Encode(v) + rest) + 1);
    assert [] + v == v;
  }

  /** The first stop is where a text without stops ends. */
  lemma {:induction false} SpanOf(x: seq<byte>, rest: seq<byte>)
    requires Stop(At(rest, 0)) && forall i :: 0 <= i < |x| ==> !Stop(x[i])
    ensures Span(x + rest) == |x|
  {
    var s, n := x + rest, Span(x + rest);
    assert forall i :: 0 <= i < |x| ==> s[i] == x[i];
    assert At(s, |x|) == At(rest, 0);
  }

  /** The encoded text holds no stop, so it may stand between `&` and `=`. */
  lemma {:induction false} NoStops(v: seq<byte>)
    ensures forall i :: 0 <= i < |Encode(v)| ==> !Stop(Encode(v)[i])
    ensures |v| <= |Encode(v)| + 1
  {
    if v != [] && v != [0] { NoStops(v[1..]); }
  }

  /** Two byte strings never have the same text. */
  lemma EncodeInjective(v: seq<byte>, w: seq<byte>)
    requires Encode(v) == Encode(w)
    ensures v == w
  {
    RoundTrip(v, []);
    RoundTrip(w, []);
  }

  // ------------------------------------------------------------- where it stops

  /**
   Decoding reaches an escape of a single digit right in front of a stop.  Two
   characters are skipped for every escape, so it steps over that stop.
   */
  predicate SkipsStop(s: seq<byte>)
    decreases |s|
  {
    if Stop(At(s, 0)) then false
    else if s[0] == PERCENT && HexValue(At(s, 1)) >= 0 && Stop(At(s, 2)) then true
    else
      match Read(s)
      case Byte(size, c) => if size == 3 && |s| < 3 then false else SkipsStop(s[size..])
      case Mark => SkipsStop(s[3..])
      case Bad => false
  }

  lemma {:induction false} SpanStep(s: seq<byte>)
    requires !Stop(At(s, 0))
    ensures Span(s) == 1 + Span(s[1..])
  {
  }

  /** An escape without a stop in it lies in front of the first stop; one with a stop has a single digit. */
  lemma {:induction false} EscapeSpan(s: seq<byte>)
    requires !Stop(At(s, 0)) && s[0] == PERCENT && !Read(s).Bad?
    ensures !Stop(At(s, 1))
    ensures if Stop(At(s, 2)) then HexValue(At(s, 1)) >= 0 && Span(s) == 2 && Read(s).Byte?
            else |s| >= 3 && Span(s) == 3 + Span(s[3..])
  {
    hide Span;
    var u := s[1..];
    assert At(u, 0) == At(s, 1) && At(u, 1) == At(s, 2);
    assert !Stop(At(s, 1));
    SpanStep(s);
    SpanStep(u);
    assert u[1..] == s[2..] && At(s[2..], 0) == At(s, 2);
    if Stop(At(s, 2)) {
      SpanStop(s[2..]);
      NoDigit(u);
    } else {
      SpanStep(s[2..]);
      assert s[2..][1..] == s[3..];
    }
  }

  lemma {:induction false} NoDigit(u: seq<byte>)
    ensures White(At(u, 0)) && Stop(At(u, 1)) ==> ScanHex(u) == None
  {
    if White(At(u, 0)) && Stop(At(u, 1)) {
      assert At(u[1..], 0) == At(u, 1);
    }
  }

  lemma SpanStop(s: seq<byte>)
    requires Stop(At(s, 0))
    ensures Span(s) == 0
  {
  }

  /** What decoding does from any point on. */
  lemma {:induction false} StopsOrSkips(s: seq<byte>, bin: bool, t: seq<byte>, room: nat)
    requires |t| + Span(s) + 1 <= room
    ensures var r := Decode(s, bin, t, room);
      if SkipsStop(s) then r.Done? ==> |r.rest| < |s| - Span(s)
      else !r.Outside? && (r.Done? ==> r.rest == s[Span(s)..] && |r.bytes| <= |t| + Span(s) + 1)
    decreases |s|
  {
    hide Read, Span;
    if Stop(At(s, 0)) {
      SpanStop(s);
    } else {
      ReadSize(s);
      match Read(s)
      case Bad =>
        SkipMeans(s);
      case Mark =>
        EscapeSpan(s);
        StopsOrSkips(s[3..], true, t, room);
      case Byte(size, c) =>
        if size == 1 {
          SpanStep(s);
          StopsOrSkips(s[1..], bin, t + [c], room);
        } else {
          EscapeSpan(s);
          if !Stop(At(s, 2)) { StopsOrSkips(s[3..], bin, t + [c], room); }
        }
    }
  }

  lemma ReadSize(s: seq<byte>)
    requires !Stop(At(s, 0))
    ensures Read(s).Byte? ==> Read(s).size == if s[0] == PERCENT then 3 else 1
    ensures Read(s).Mark? ==> s[0] == PERCENT && 3 <= |s| && !Stop(At(s, 2))
  {
  }

  lemma {:induction false} SkipMeans(s: seq<byte>)
    requires !Stop(At(s, 0)) && Read(s).Bad?
    ensures !SkipsStop(s)
  {
  }

  /**
   A text that is not refused is decoded up to its first stop, inside the buffer,
   exactly when no escape of a single digit stands right in front of that stop.
   */
  lemma {:induction false} DecodeStops(s: seq<byte>)
    requires !Decoding(s).Refused?
    ensures var r := Decoding(s);
      r.Done? && r.rest == s[Span(s)..] && |r.bytes| <= Span(s) + 1 <==> !SkipsStop(s)
  {
    hide Decode, SkipsStop;
    StopsOrSkips(s, false, [], Span(s) + 1);
  }

  /** "%5" at the end steps behind the NUL, and "%5&aaaa" is written behind the buffer. */
  lemma {:induction false} ShortEscapes()
    ensures Decoding([PERCENT, 0x35]) == Outside
    ensures Decoding([PERCENT, 0x35, AMPERSAND, 0x61, 0x61, 0x61, 0x61]) == Outside
  {
    var s: seq<byte> := [PERCENT, 0x35, AMPERSAND, 0x61, 0x61, 0x61, 0x61];
    OneDigit(s[..2]);
    OneDigit(s);
    SpanTwo(s);
    var u: seq<byte> := [0x61, 0x61, 0x61, 0x61];
    assert s[3..] == u;
    var none: seq<byte> := [];
    assert Decode(s, false, none, 3) == Decode(u, false, none + [5], 3);
    hide Decode;
    Step(u, none + [5]);
    Step(u[1..], none + [5] + [u[0]]);
    Full(u[1..][1..], none + [5] + [u[0]] + [u[1..][0]]);
  }

  lemma {:induction false} Full(u: seq<byte>, t: seq<byte>)
    requires u != [] && u[0] == 0x61 && |t| == 3
    ensures Decode(u, false, t, 3) == Outside
  {
  }

  lemma {:induction false} OneDigit(s: seq<byte>)
    requires |s| >= 2 && s[0] == PERCENT && s[1] == 0x35 && Stop(At(s, 2))
    ensures Read(s) == Byte(3, 5) && Span(s) == 2
  {
    assert At(s[1..], 0) == 0x35 && At(s[1..], 1) == At(s, 2);
    EscapeSpan(s);
  }

  lemma SpanTwo(s: seq<byte>)
    requires |s| > 2 && !Stop(s[0]) && !Stop(s[1]) && Stop(s[2])
    ensures Span(s) == 2
  {
  }

  lemma {:induction false} Step(u: seq<byte>, t: seq<byte>)
    requires u != [] && u[0] == 0x61 && |t| < 3
    ensures Decode(u, false, t, 3) == Decode(u[1..], false, t + [u[0]], 3)
  {
  }

  // ---------------------------------------------------------------- methods

  /** Prints the bytes. */
  method WebEncode(ptr: seq<byte>) returns (out: seq<byte>)
    ensures out == Encode(ptr)
  {
    hide EncodeByte;
    out := [];
    var i: nat, len: nat := 0, |ptr|;
    assert ptr[0..] == ptr && [] + Encode(ptr) == Encode(ptr);
    while len > 0 && !(len == 1 && ptr[i] == 0)
      invariant i + len == |ptr|
      invariant out + Encode(ptr[i..]) == Encode(ptr)
      decreases len
    {
      assert ptr[i..][1..] == ptr[i + 1..];
      Associate(out, EncodeByte(ptr[i]), Encode(ptr[i + 1..]));
      out := out + EncodeByte(ptr[i]);
      i, len := i + 1, len - 1;
    }
    if len == 0 { out := out + MARK; }
  }

  /** sscanf("%2x"). */
  method ScanTwo(data: seq<byte>, from: nat) returns (c: Option<byte>)
    requires from <= |data|
    ensures c == ScanHex(data[from..])
  {
    var p := from;
    while p < |data| && White(data[p])
      invariant from <= p <= |data| && ScanHex(data[p..]) == ScanHex(data[from..])
    {
      assert data[p..][1..] == data[p + 1..];
      p := p + 1;
    }
    assert At(data[p..], 0) == At(data, p) && At(data[p..], 1) == At(data, p + 1);
    var v, w := HexValue(At(data, p)), HexValue(At(data, p + 1));
    if At(data, p) == PLUS || At(data, p) == MINUS {
      c := if w < 0 then None else if At(data, p) == PLUS then Some(w) else Some((256 - w) % 256);
    } else {
      c := if v < 0 then None else if w < 0 then Some(v) else Some(16 * v + w);
    }
  }

  /** The switch of webdecode() on a byte that does not stop it. */
  method ReadPiece(data: seq<byte>, p: nat) returns (piece: Piece)
    requires p < |data| && !Stop(data[p])
    ensures piece == Read(data[p..])
  {
    ghost var s := data[p..];
    assert At(s, 0) == data[p] && At(s, 1) == At(data, p + 1) && At(s, 2) == At(data, p + 2);
    assert s[1..] == data[p + 1..];
    if data[p] == PLUS {
      piece := Byte(1, SPACE);
    } else if data[p] == PERCENT {
      if At(data, p + 1) == UPPER_F && At(data, p + 2) == UPPER_F {
        piece := Mark;
      } else {
        var c := ScanTwo(data, p + 1);
        piece := if c.None? then Bad else Byte(3, c.value);
      }
    } else {
      piece := Byte(1, data[p]);
    }
  }

  datatype Going = Going(p: nat, t: nat, bin: bool) | Stopped(r: Decoded)

  /** One round of the loop, which ends when p or t would leave its memory. */
  method Round(data: seq<byte>, p: nat, ret: array<byte>, t: nat, bin: bool) returns (g: Going)
    requires p < |data| && !Stop(data[p]) && t <= ret.Length
    modifies ret
    ensures var r := Decode(data[p..], bin, old(ret[..t]), ret.Length);
      match g
      case Stopped(r') => r == r' && !r.Done?
      case Going(p', t', bin') =>
        p < p' <= |data| && t' <= ret.Length && r == Decode(data[p'..], bin', ret[..t'], ret.Length)
  {
    hide Read;
    ghost var s, was := data[p..], ret[..t];
    assert At(s, 0) == data[p] && At(s, 2) == At(data, p + 2);
    ReadSize(s);
    var piece := ReadPiece(data, p);
    match piece {
      case Byte(size, c) =>
        if t == ret.Length { return Stopped(Outside); }
        ret[t] := c;
        assert ret[..t + 1] == was + [c];
        if size == 3 && At(data, p + 2) == 0 { return Stopped(Outside); }
        assert s[size..] == data[p + size..];
        g := Going(p + size, t + 1, bin);
      case Mark =>
        assert s[3..] == data[p + 3..];
        g := Going(p + 3, t, true);
      case Bad =>
        g := Stopped(Refused);
    }
  }

  /**
   webdecode() of the text at `start`, into a buffer of strcspn + 1 bytes; q is
   the new position.  Where the library would leave the text or the buffer, the
   result is Outside.
   */
  method WebDecode(data: seq<byte>, start: nat) returns (r: Decoded, q: nat)
    requires start <= |data|
    ensures r == Decoding(data[start..])
    ensures r.Done? ==> start <= q <= |data| && r.rest == data[q..]
  {
    hide Decode;
    var ret := new byte[Span(data[start..]) + 1];
    var p: nat, t: nat, bin := start, 0, false;
    assert ret[..0] == [];
    q := start;
    while !Stop(At(data, p))
      invariant start <= p <= |data| && t <= ret.Length
      invariant Decode(data[p..], bin, ret[..t], ret.Length) == Decoding(data[start..])
      decreases |data| - p
    {
      var g := Round(data, p, ret, t, bin);
      match g {
        case Stopped(r') => return r', p;
        case Going(p', t', bin') => p, t, bin := p', t', bin';
      }
    }
    r := EndAtStop(data, p, ret, t, bin);
    q := p;
  }

  /** At the stop: the NUL, unless the mark was seen. */
  method EndAtStop(data: seq<byte>, p: nat, ret: array<byte>, t: nat, bin: bool) returns (r: Decoded)
    requires p <= |data| && Stop(At(data, p)) && t <= ret.Length
    modifies ret
    ensures r == Decode(data[p..], bin, old(ret[..t]), ret.Length)
    ensures r.Done? ==> r.rest == data[p..]
  {
    assert At(data[p..], 0) == At(data, p);
    if bin { return Done(ret[..t], data[p..]); }
    if t == ret.Length { return Outside; }
    ghost var was := ret[..t];
    ret[t] := 0;
    assert ret[..t + 1] == was + [0];
    r := Done(ret[..t + 1], data[p..]);
  }
}
