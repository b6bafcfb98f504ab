/**
 What the writer of utils/fopen_crc.c has put out at any moment, as a function
 of the stream (header and data) written so far.
 */
module CrcOutput {
  import opened Bits
  import opened CrcFormat
  import Crc32c

  /** The bytes of the stream behind its first n blocks. */
  function Pending(d: int, s: seq<byte>, n: nat): seq<byte>
    requires IsDataSize(d) && Times(n, d) <= |s|
  {
    s[Times(n, d)..]
  }

  /** The bytes written since block `start`: complete blocks and a partial one. */
  ghost function Output(d: int, s: seq<byte>, start: nat, n: nat): seq<byte>
    requires IsDataSize(d) && Times(n, d) <= |s| && start <= n
  {
    Image(FullBodies(d, s, n)[start..]) + Pending(d, s, n)
  }

  /** The parity accumulated so far, on top of `defect`. */
  ghost function Accumulated(d: int, s: seq<byte>, n: nat, defect: seq<byte>): (x: seq<byte>)
    requires IsDataSize(d) && Times(n, d) <= |s| <= Times(n + 1, d) && |defect| == d + 2
    ensures |x| == d + 2
  {
    Absorbed(XorBytes(defect, Parity(FullBodies(d, s, n), d + 2)), 0, Pending(d, s, n))
  }

  /** More data in the same block. */
  lemma OutputGrows(d: int, s: seq<byte>, t: seq<byte>, start: nat, n: nat, defect: seq<byte>)
    requires IsDataSize(d) && Times(n, d) <= |s| && |s| + |t| <= Times(n + 1, d)
    requires start <= n && |defect| == d + 2
    ensures Pending(d, s + t, n) == Pending(d, s, n) + t
    ensures Output(d, s + t, start, n) == Output(d, s, start, n) + t
    ensures Accumulated(d, s + t, n, defect)
            == Absorbed(Accumulated(d, s, n, defect), |Pending(d, s, n)|, t)
  {
    hide Absorbed, XorBytes, Parity, Image, FullBodies;
    FullBodiesPrefix(d, s, t, n);
    var p := Pending(d, s, n);
    assert Pending(d, s + t, n) == p + t;
    assert Times(n + 1, d) == Times(n, d) + d;
    AbsorbedTwice(XorBytes(defect, Parity(FullBodies(d, s, n), d + 2)), 0, p, t);
  }

  /** The body that the length field completes is the next one of the format. */
  lemma NextBody(d: int, s: seq<byte>, n: nat)
    requires IsDataSize(d) && |s| == Times(n + 1, d)
    ensures Times(n, d) + d == |s|
    ensures |Pending(d, s, n)| == d && Pending(d, s, n + 1) == []
    ensures FullBodies(d, s, n + 1) == FullBodies(d, s, n) + [Pending(d, s, n) + Le16(FullLen(d, n))]
  {
    hide Le16;
    assert Times(n + 1, d) == Times(n, d) + d;
    assert s[Times(n, d)..] == s[Times(n, d)..Times(n + 1, d)];
    assert FullBodies(d, s, n + 1) == FullBodies(d, s, n) + [FullBody(d, s, n)];
  }

  /** The length and the CRC that complete a block. */
  lemma OutputSeals(d: int, s: seq<byte>, start: nat, n: nat)
    requires IsDataSize(d) && |s| == Times(n + 1, d) && start <= n
    ensures Times(n, d) <= |s|
    ensures var len := Le16(FullLen(d, n)); var body := Pending(d, s, n) + len;
            Output(d, s, start, n + 1) == Output(d, s, start, n) + len + Le32(Crc32c.Crc(0, body))
  {
    hide Crc32c.Crc, Le32, Le16, Times, FullBodies, Image, Pending;
    NextBody(d, s, n);
    var p, len := Pending(d, s, n), Le16(FullLen(d, n));
    var bodies := FullBodies(d, s, n);
    var body := p + len;
    assert (bodies + [body])[start..] == bodies[start..] + [body];
    ImageSnoc(bodies[start..], body);
    assert Image(bodies[start..]) + Seal(body) + [] == Image(bodies[start..]) + p + len + Le32(Crc32c.Crc(0, body));
  }

  /** Completing a block takes its length field into the parity. */
  lemma ParitySeals(d: int, s: seq<byte>, n: nat, defect: seq<byte>)
    requires IsDataSize(d) && |s| == Times(n + 1, d) && |defect| == d + 2
    ensures Times(n, d) <= |s| <= Times(n + 2, d)
    ensures Accumulated(d, s, n + 1, defect)
            == Absorbed(Accumulated(d, s, n, defect), d, Le16(FullLen(d, n)))
  {
    hide Absorbed, XorBytes, Le16, FullBodies, Parity, Pending;
    assert Times(n + 2, d) == Times(n + 1, d) + d;
    NextBody(d, s, n);
    var p, len := Pending(d, s, n), Le16(FullLen(d, n));
    var bodies := FullBodies(d, s, n);
    var body := p + len;
    var x := XorBytes(defect, Parity(bodies, d + 2));
    ParitySnoc(bodies, body, d + 2);
    XorBytesAssociates(defect, Parity(bodies, d + 2), body);
    AbsorbedTwice(x, 0, p, len);
    AbsorbedWhole(x, body);
    AbsorbedWhole(XorBytes(x, body), body);
  }

  /** crcWrite()'s bookkeeping: offsets in the data against lengths of the stream. */
  lemma Room(d: int, n: nat, content: nat)
    requires IsDataSize(d)
    ensures Times(n + 1, d) == Times(n, d) + d
    ensures Boff(d, n + 1) == Boff(d, n) + FullLen(d, n)
    ensures Boff(d, n) == 0 <==> n == 0
    ensures Times(n + 1, d) - (HDRSZ + content) == FullLen(d, n) - (content - Boff(d, n))
    ensures HDRSZ + content - Times(n, d) == content - Boff(d, n) + (if n == 0 then HDRSZ else 0)
  {
    BoffStep(d, n);
    BoffZero(d, n);
  }

  /** The state before the header is written. */
  lemma OutputStarts(bits: int, defect: seq<byte>)
    requires IsBits(bits) && |defect| == DataSize(bits) + 2
    ensures var d, s := DataSize(bits), Stream(bits, []);
            && Times(0, d) == 0 < HDRSZ == |s| < Times(1, d)
            && Pending(d, s, 0) == Header(bits) && Output(d, s, 0, 0) == Header(bits)
            && Accumulated(d, s, 0, defect) == Absorbed(defect, 0, Header(bits))
  {
    var d, s := DataSize(bits), Stream(bits, []);
    assert Times(1, d) == Times(0, d) + d;
    assert s == Header(bits);
    assert FullBodies(d, s, 0) == [];
    XorBytesZero(defect);
  }

  /** The short block in front of the parity block. */
  lemma LastBodySeals(bits: int, data: seq<byte>, start: nat, n: nat)
    requires IsBits(bits) && start <= n
    requires Times(n, DataSize(bits)) <= HDRSZ + |data| < Times(n + 1, DataSize(bits))
    ensures var d, s := DataSize(bits), Stream(bits, data); var p := Pending(d, s, n);
            var len := |data| - Boff(d, n); var body := p + Zeros(d - |p|) + Le16(len);
            && n == FullCount(d, |s|)
            && 0 <= len < FullLen(d, n) && |p| == len + (if n == 0 then HDRSZ else 0)
            && DataBodies(bits, data) == FullBodies(d, s, n) + [body]
            && Image(DataBodies(bits, data)[start..])
               == Output(d, s, start, n) + Zeros(d - |p|) + Le16(len) + Le32(Crc32c.Crc(0, body))
  {
    hide Crc32c.Crc, Le16, Le32, DataSize, Times, Stream, FullCount;
    var d, s := DataSize(bits), Stream(bits, data);
    FullCountUnique(d, |s|, n);
    Room(d, n, |data|);
    var p, len := Pending(d, s, n), |data| - Boff(d, n);
    var body := p + Zeros(d - |p|) + Le16(len);
    assert body == LastBody(d, s, n);
    var full := FullBodies(d, s, n);
    SealedTail(full, start, p, Zeros(d - |p|), Le16(len));
  }

  lemma SealedTail(full: seq<seq<byte>>, start: nat, p: seq<byte>, z: seq<byte>, len: seq<byte>)
    requires start <= |full|
    ensures var body := p + z + len;
            Image((full + [body])[start..])
            == Image(full[start..]) + p + z + len + Le32(Crc32c.Crc(0, body))
  {
    hide Crc32c.Crc, Le32, Image;
    var body := p + z + len;
    assert (full + [body])[start..] == full[start..] + [body];
    ImageSnoc(full[start..], body);
  }

  /** The accumulated parity when the short block's length field is in it. */
  lemma LastParity(bits: int, data: seq<byte>, n: nat, defect: seq<byte>)
    requires IsBits(bits) && |defect| == DataSize(bits) + 2
    requires Times(n, DataSize(bits)) <= HDRSZ + |data| < Times(n + 1, DataSize(bits))
    requires |data| - Boff(DataSize(bits), n) >= 0
    ensures var d, s := DataSize(bits), Stream(bits, data);
            && |data| - Boff(d, n) < 0x1_0000
            && Absorbed(Accumulated(d, s, n, defect), d, Le16(|data| - Boff(d, n)))
               == XorBytes(defect, Parity(DataBodies(bits, data), d + 2))
  {
    hide Absorbed, XorBytes, Crc32c.Crc, Le16, Times, DataSize, Stream, FullCount, Parity, Zeros;
    LastBodySeals(bits, data, n, n);
    var d, s := DataSize(bits), Stream(bits, data);
    var p, len := Pending(d, s, n), Le16(|data| - Boff(d, n));
    var z := Zeros(d - |p|);
    var bodies, body := FullBodies(d, s, n), p + z + len;
    var x := XorBytes(defect, Parity(bodies, d + 2));
    AbsorbedZeros(Absorbed(x, 0, p), |p|, d - |p|);
    AbsorbedTwice(x, 0, p, z);
    AbsorbedTwice(x, 0, p + z, len);
    AbsorbedWhole(x, body);
    ParitySnoc(bodies, body, d + 2);
    XorBytesAssociates(defect, Parity(bodies, d + 2), body);
  }

  /** Zero padding adds nothing to the parity. */
  lemma AbsorbedZeros(x: seq<byte>, at: nat, n: nat)
    requires at + n <= |x|
    ensures Absorbed(x, at, Zeros(n)) == x
  {
    assert Zeros(at) + Zeros(n) + Zeros(|x| - at - n) == Zeros(|x|);
    XorBytesZero(x);
  }
}
