/** The FILE under a layered stream: its bytes and a position. */
module Stdio {
  import opened Bits

  function Min(a: int, b: int): int { if a < b then a else b }

  /** `bytes` written over `data` at position `pos`. */
  function Overwrite(data: seq<byte>, pos: nat, bytes: seq<byte>): seq<byte>
    requires pos <= |data|
  {
    data[..pos] + bytes + data[Min(pos + |bytes|, |data|)..]
  }

  /** Up to n bytes of `data` from position `pos`. */
  function Slice(data: seq<byte>, pos: nat, n: nat): (s: seq<byte>)
    ensures |s| <= n
    ensures pos + n <= |data| ==> s == data[pos..pos + n]
  {
    data[Min(pos, |data|)..Min(pos + n, |data|)]
  }

  /** Two writes in a row write what one longer write would. */
  lemma OverwriteTwice(data: seq<byte>, pos: nat, a: seq<byte>, b: seq<byte>)
    requires pos <= |data|
    ensures pos + |a| <= |Overwrite(data, pos, a)|
    ensures Overwrite(Overwrite(data, pos, a), pos + |a|, b) == Overwrite(data, pos, a + b)
  {
    var once := Overwrite(data, pos, a);
    var end := pos + |a|;
    assert once[..end] == data[..pos] + a;
    if end + |b| <= |data| {
      assert once[end + |b|..] == data[end + |b|..];
    }
  }

  lemma OverwriteNothing(data: seq<byte>, pos: nat)
    requires pos <= |data|
    ensures Overwrite(data, pos, []) == data
  {
  }

  /** What a write leaves in front of the new position, and the new size. */
  lemma OverwritePrefix(data: seq<byte>, pos: nat, bytes: seq<byte>)
    requires pos <= |data|
    ensures var d := Overwrite(data, pos, bytes);
      |d| == (if pos + |bytes| < |data| then |data| else pos + |bytes|) && d[..pos + |bytes|] == data[..pos] + bytes
  {
  }

  class File {
    var data: seq<byte>
    var pos: nat

    constructor (bytes: seq<byte>)
      ensures data == bytes && pos == 0
    {
      data, pos := bytes, 0;
    }

    /** fread: short only at the end of the file. */
    method Read(n: nat) returns (s: seq<byte>)
      modifies this`pos
      ensures s == Slice(data, old(pos), n)
      ensures pos == old(pos) + |s|
    {
      s := data[Min(pos, |data|)..Min(pos + n, |data|)];
      pos := pos + |s|;
    }

    /** fwrite at the current position, overwriting or extending. */
    method Write(bytes: seq<byte>)
      requires pos <= |data|
      modifies this
      ensures data == Overwrite(old(data), old(pos), bytes)
      ensures pos == old(pos) + |bytes|
    {
      data := Overwrite(data, pos, bytes);
      pos := pos + |bytes|;
    }

    /** fseek with SEEK_SET. */
    method Seek(to: nat)
      modifies this`pos
      ensures pos == to
    {
      pos := to;
    }
  }
}
