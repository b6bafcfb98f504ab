/** The scan of crcCheckVerify() in utils/fopen_crc.c: rebuilding one bad block from all the others. */
module CrcRepair {
  import opened Bits
  import opened CrcFormat
  import opened Stdio
  import Crc32c

  ghost predicate BadBlock(file: seq<byte>, k: nat, w: nat)
  {
    !Checks(Raw(file, k, w), w)
  }

  /** The bodies of the blocks among the first n that pass their CRC. */
  ghost function GoodBodies(file: seq<byte>, n: nat, w: nat): (bs: seq<seq<byte>>)
    ensures Uniform(bs, w) && |bs| <= n
    decreases n
  {
    if n == 0 then []
    else if BadBlock(file, n - 1, w) then GoodBodies(file, n - 1, w)
    else GoodBodies(file, n - 1, w) + [Raw(file, n - 1, w)[..w]]
  }

  /** Where the last bad block among the first n starts; 0 without one. */
  ghost function LastBad(file: seq<byte>, n: nat, w: nat): nat
    decreases n
  {
    if n == 0 then 0
    else if BadBlock(file, n - 1, w) then Times(n - 1, w + 4)
    else LastBad(file, n - 1, w)
  }

  lemma NoGoodBodies(file: seq<byte>, w: nat)
    ensures GoodBodies(file, 0, w) == [] && Parity(GoodBodies(file, 0, w), w) == Zeros(w)
    ensures Times(0, w + 4) == 0
  {
  }

  lemma GoodBodiesStep(file: seq<byte>, c: nat, w: nat)
    ensures BadBlock(file, c, w) ==> GoodBodies(file, c + 1, w) == GoodBodies(file, c, w)
    ensures !BadBlock(file, c, w) ==>
      var body, before := Raw(file, c, w)[..w], GoodBodies(file, c, w);
      && GoodBodies(file, c + 1, w) == before + [body]
      && Parity(GoodBodies(file, c + 1, w), w) == XorBytes(Parity(before, w), body)
  {
    hide Parity, XorBytes, Raw;
    if !BadBlock(file, c, w) { ParitySnoc(GoodBodies(file, c, w), Raw(file, c, w)[..w], w); }
  }

  lemma BlocksInFile(file: seq<byte>, n: nat, w: nat)
    requires |file| % (w + 4) == 0 && n == |file| / (w + 4)
    ensures |file| == Times(n, w + 4)
  {
    TimesIsProduct(n, w + 4);
  }

  lemma WholeBlock(file: seq<byte>, n: nat, c: nat, w: nat)
    requires |file| == Times(n, w + 4) && c < n
    ensures Times(c + 1, w + 4) == Times(c, w + 4) + w + 4 <= |file|
    ensures var raw, here := Raw(file, c, w), Times(c, w + 4);
            && |raw| == w + 4
            && Slice(file, here, w) == raw[..w] && Slice(file, here + w, 4) == raw[w..]
  {
    TimesGrows(c, n, w + 4);
  }

  lemma BlockCount(file: seq<byte>, n: nat, bits: int)
    requires IsBits(bits) && |file| == Times(n, DataSize(bits) + PER_BLK)
    ensures Pow2(bits) == DataSize(bits) + PER_BLK
    ensures |file| / Pow2(bits) == n
  {
    var p := Pow2(bits);
    DivisionOfTimes(n, p);
  }

  /** The printed lines: where `found` differs from `expected`, `at` being the offset of the first byte. */
  function Differences(at: nat, found: seq<byte>, expected: seq<byte>): seq<(nat, byte, byte)>
    decreases |found|
  {
    if found == [] || expected == [] then []
    else (if found[0] != expected[0] then [(at, found[0], expected[0])] else [])
         + Differences(at + 1, found[1..], expected[1..])
  }

  /** `file` with the expected bytes of a report put in. */
  ghost function Patched(file: seq<byte>, report: seq<(nat, byte, byte)>): (r: seq<byte>)
    ensures |r| == |file|
    decreases |report|
  {
    if report == [] then file
    else
      var (at, found, expected) := report[0];
      Patched(if at < |file| then file[at := expected] else file, report[1..])
  }

  /** What the scan of a file of n blocks ends with. */
  datatype Scan = Scan(errors: nat, at: nat, xor: seq<byte>, report: seq<(nat, byte, byte)>)

  ghost function ScanOf(file: seq<byte>, n: nat, w: nat): Scan
  {
    var good, at := GoodBodies(file, n, w), LastBad(file, n, w);
    var x := Parity(good, w);
    Scan(n - |good|, at, x, if n - |good| == 1 then Differences(at, Slice(file, at, w), x) else [])
  }

  /** Where the scan of a file of n blocks leaves the file position. */
  ghost function ScanEnd(file: seq<byte>, n: nat, w: nat): nat
  {
    var scan := ScanOf(file, n, w);
    if scan.errors == 1 then scan.at + |Slice(file, scan.at, w)| else |file|
  }

  lemma {:induction false} LastBadFits(file: seq<byte>, n: nat, w: nat)
    ensures LastBad(file, n, w) <= Times(n, w + 4)
    decreases n
  {
    hide BadBlock;
    if n != 0 { LastBadFits(file, n - 1, w); }
  }

  lemma ScanEndFits(file: seq<byte>, n: nat, w: nat)
    requires |file| == Times(n, w + 4)
    ensures ScanEnd(file, n, w) <= |file|
  {
    hide GoodBodies, Parity, Differences;
    LastBadFits(file, n, w);
  }

  /** A block that is cut off is found so without a scan; the scan asserts that the file is made of whole blocks. */
  ghost predicate Scannable(file: seq<byte>, k: nat, w: nat)
  {
    |Raw(file, k, w)| < w + 4 || |file| % (w + 4) == 0
  }

  /** The file position behind a failed readBlock() at block k. */
  ghost function BadEnd(file: seq<byte>, k: nat, w: nat): nat
  {
    if |Raw(file, k, w)| < w + 4 then |file| else ScanEnd(file, |file| / (w + 4), w)
  }

  /** What a failed readBlock() at block k makes of the exclusive-or x. */
  ghost function BadXor(file: seq<byte>, k: nat, w: nat, x: seq<byte>): (r: seq<byte>)
    requires |x| == w
    ensures |r| == w
  {
    if |Raw(file, k, w)| < w + 4 then x else ScanOf(file, |file| / (w + 4), w).xor
  }

  // ------------------------------------------------------------ the theorems

  /** `file` consists of the sealed bodies except for block k, which fails its CRC. */
  ghost predicate OneBad(file: seq<byte>, bodies: seq<seq<byte>>, k: nat, w: nat)
  {
    && |file| == Times(|bodies|, w + 4)
    && k < |bodies| && BadBlock(file, k, w)
    && forall j :: 0 <= j < |bodies| && j != k ==> Raw(file, j, w) == Seal(bodies[j])
  }

  lemma {:induction false} GoodBodiesOf(file: seq<byte>, bodies: seq<seq<byte>>, k: nat, n: nat, w: nat)
    requires Uniform(bodies, w) && n <= |bodies| && OneBad(file, bodies, k, w)
    ensures GoodBodies(file, n, w) == if n <= k then bodies[..n] else bodies[..k] + bodies[k + 1..n]
    ensures k < n ==> LastBad(file, n, w) == Times(k, w + 4)
    decreases n
  {
    hide Checks, Raw, Times, Seal;
    if n != 0 {
      var m := n - 1;
      GoodBodiesOf(file, bodies, k, m, w);
      if m != k {
        SealPasses(bodies[m], w);
        assert GoodBodies(file, n, w) == GoodBodies(file, m, w) + [bodies[m]];
        assert bodies[..n] == bodies[..m] + [bodies[m]];
        if k < m { assert bodies[k + 1..n] == bodies[k + 1..m] + [bodies[m]]; }
      } else {
        assert bodies[k + 1..n] == [];
      }
    }
  }

  lemma SealPasses(body: seq<byte>, w: nat)
    requires |body| == w
    ensures Checks(Seal(body), w) && Seal(body)[..w] == body
  {
    assert Seal(body)[..w] == body;
    ChecksMeansSealed(Seal(body), w);
  }

  /** The scan counts one error, finds the block, and is left with its original body. */
  lemma ScanFindsBody(file: seq<byte>, bodies: seq<seq<byte>>, k: nat, w: nat)
    requires Uniform(bodies, w) && Parity(bodies, w) == Zeros(w) && OneBad(file, bodies, k, w)
    ensures GoodBodies(file, |bodies|, w) == bodies[..k] + bodies[k + 1..]
    ensures LastBad(file, |bodies|, w) == Times(k, w + 4)
    ensures Parity(GoodBodies(file, |bodies|, w), w) == bodies[k]
  {
    hide BadBlock, Raw, Parity, Times, GoodBodies, LastBad, Seal;
    GoodBodiesOf(file, bodies, k, |bodies|, w);
    assert bodies[k + 1..|bodies|] == bodies[k + 1..];
    OthersGiveTheMissingBody(bodies, k, w);
  }

  lemma {:induction false} PatchRestores(file: seq<byte>, at: nat, found: seq<byte>, expected: seq<byte>)
    requires at + |found| <= |file| && file[at..at + |found|] == found && |expected| == |found|
    ensures Patched(file, Differences(at, found, expected)) == Overwrite(file, at, expected)
    decreases |found|
  {
    if found == [] {
      assert expected == [];
      OverwriteNothing(file, at);
    } else {
      var b := expected[0];
      var fixed := file[at := b];
      PatchRestores(fixed, at + 1, found[1..], expected[1..]);
      OverwriteTwice(file, at, [b], expected[1..]);
      assert fixed == Overwrite(file, at, [b]);
      assert [b] + expected[1..] == expected;
      hide Overwrite;
      var rest := Differences(at + 1, found[1..], expected[1..]);
      if found[0] == b {
        assert fixed == file && [] + rest == rest;
      } else {
        var report := [(at, found[0], b)] + rest;
        assert report[0] == (at, found[0], b) && report[1..] == rest;
        assert Patched(file, report) == Patched(fixed, rest);
      }
    }
  }

  /**
   The scan counts one error, at `at`; it is left with `body`; and putting in the
   bytes it reports puts `body` there.
   */
  ghost predicate Repairs(file: seq<byte>, scan: Scan, at: nat, body: seq<byte>)
  {
    && scan.errors == 1 && scan.at == at <= |file|
    && scan.xor == body
    && Patched(file, scan.report) == Overwrite(file, at, body)
  }

  /** With one bad block, the scan and its report give back the body of that block. */
  lemma ScanRepairs(file: seq<byte>, bodies: seq<seq<byte>>, k: nat, w: nat)
    requires Uniform(bodies, w) && Parity(bodies, w) == Zeros(w) && OneBad(file, bodies, k, w)
    ensures Repairs(file, ScanOf(file, |bodies|, w), Times(k, w + 4), bodies[k])
  {
    hide BadBlock, Raw, Parity, Times, GoodBodies, LastBad, Differences, Patched, Seal, Overwrite;
    ScanFindsBody(file, bodies, k, w);
    WholeBlock(file, |bodies|, k, w);
    var at := Times(k, w + 4);
    assert Slice(file, at, w) == file[at..at + w];
    PatchRestores(file, at, file[at..at + w], bodies[k]);
  }

  /** The scan of a file of blocks of p bytes repairs block k. */
  ghost predicate ScanRepairsBlock(file: seq<byte>, p: nat, w: nat, k: nat, body: seq<byte>)
    requires p > 0
  {
    Repairs(file, ScanOf(file, |file| / p, w), Times(k, p), body)
  }

  /**
   For every file that crcClose() wrote and whichever one of its blocks is bad,
   parity block included, whatever happened to it, crcCheckVerify() repairs the
   body of that block.
   */
  lemma OneBlockRepair(file: seq<byte>, bits: int, data: seq<byte>, k: nat)
    requires IsBits(bits) && OneBad(file, AllBodies(bits, data), k, DataSize(bits) + 2)
    ensures ScanRepairsBlock(file, Pow2(bits), DataSize(bits) + 2, k, AllBodies(bits, data)[k])
  {
    hide BadBlock, Parity, Times, AllBodies, DataSize, Pow2, ScanOf, Repairs;
    BlockCount(file, |AllBodies(bits, data)|, bits);
    ParityIsZero(bits, data);
    ScanRepairs(file, AllBodies(bits, data), k, DataSize(bits) + 2);
  }

  /** Damage to at most four bytes in a row of a block, CRC field included, always makes the block fail. */
  lemma BurstIsBad(file: seq<byte>, k: nat, w: nat, body: seq<byte>, i: nat)
    requires |body| == w && i <= w + 4
    requires var raw := Raw(file, k, w);
             && |raw| == w + 4 && raw != Seal(body)
             && forall j :: 0 <= j < w + 4 && !(i <= j < i + 4) ==> raw[j] == Seal(body)[j]
    ensures BadBlock(file, k, w)
  {
    hide Crc32c.Crc, Raw, FromLe32, Le32;
    var raw := Raw(file, k, w);
    var crc, crc' := raw[w..], Le32(Crc32c.Crc(0, body));
    assert raw == raw[..w] + crc && Seal(body) == body + crc';
    Le32RoundTrip(Crc32c.Crc(0, body));
    if !BadBlock(file, k, w) {
      Crc32c.SealedBurstDetected(raw[..w], crc, body, crc', i);
    }
  }
}
