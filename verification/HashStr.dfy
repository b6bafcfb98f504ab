/** hash_toStr()'s printing of entries and hash_fromStr() of hash/hash_tostr.c. */
module HashStr {
  import opened Wrappers
  import opened Bits
  import opened WebEncode
  import opened MemHash

  type Bytes = seq<byte>

  datatype Entry = Entry(key: Bytes, value: Bytes)

  /** One entry as hash_toStr() prints it. */
  function Line(e: Entry): Bytes { Encode(e.key) + [EQUALS] + Encode(e.value) }

  /** The lines joined by `&`. */
  function Print(es: seq<Entry>): Bytes
  {
    if es == [] then []
    else if |es| == 1 then Line(es[0])
    else Line(es[0]) + [AMPERSAND] + Print(es[1..])
  }

  /** 0, -1, or a text on which webdecode() leaves its memory. */
  datatype Status = Success | Failure | Astray

  datatype Parsed = Parsed(status: Status, m: map<Bytes, Bytes>)

  /** `key=value` at the front of a text, and what follows it. */
  datatype Pair = Pair(e: Entry, rest: Bytes) | NoPair(status: Status)

  function ReadPair(str: Bytes): (r: Pair)
    ensures r.Pair? ==> |r.rest| < |str|
    ensures r.NoPair? ==> r.status != Success
  {
    match Decoding(str)
    case Refused => NoPair(Failure)
    case Outside => NoPair(Astray)
    case Done(key, rest) =>
      if At(rest, 0) != EQUALS then NoPair(Failure)
      else
        match Decoding(rest[1..])
        case Refused => NoPair(Failure)
        case Outside => NoPair(Astray)
        case Done(value, rest') => Pair(Entry(key, value), rest')
  }

  /** hash_fromStr() stores every pair as soon as it is read, and gives up at the first thing it cannot read. */
  function FromStr(m: map<Bytes, Bytes>, str: Bytes): Parsed
    decreases |str|
  {
    if At(str, 0) == 0 then Parsed(Success, m)
    else
      match ReadPair(str)
      case NoPair(status) => Parsed(status, m)
      case Pair(e, rest) =>
        var m' := m[e.key := e.value];
        if At(rest, 0) == 0 then Parsed(Success, m')
        else if rest[0] != AMPERSAND then Parsed(Failure, m')
        else FromStr(m', rest[1..])
  }

  /** The entries stored one after the other. */
  function StoreAll(m: map<Bytes, Bytes>, es: seq<Entry>): map<Bytes, Bytes>
    decreases |es|
  {
    if es == [] then m else StoreAll(m[es[0].key := es[0].value], es[1..])
  }

  /** A list of entries that holds every pair of a map once, in any order. */
  ghost predicate Lists(es: seq<Entry>, m: map<Bytes, Bytes>)
  {
    && (forall i, j :: 0 <= i < j < |es| ==> es[i].key != es[j].key)
    && (forall i :: 0 <= i < |es| ==> es[i].key in m && m[es[i].key] == es[i].value)
    && (forall key :: key in m ==> exists i :: 0 <= i < |es| && es[i].key == key)
  }

  /** Reads one printed entry. */
  lemma ReadLine(e: Entry, rest: Bytes)
    requires Stop(At(rest, 0))
    ensures At(Line(e) + rest, 0) != 0
    ensures ReadPair(Line(e) + rest) == Pair(e, rest)
  {
    hide Encode, Decoding;
    var str := Line(e) + rest;
    var behind := Encode(e.value) + rest;
    assert str == Encode(e.key) + ([EQUALS] + behind);
    NoStops(e.key);
    RoundTrip(e.key, [EQUALS] + behind);
    RoundTrip(e.value, rest);
    assert ([EQUALS] + behind)[1..] == behind;
  }

  /** Whatever is printed is read back: the entries are stored in the order they were printed in. */
  lemma {:induction false} PrintedIsRead(m: map<Bytes, Bytes>, es: seq<Entry>)
    ensures FromStr(m, Print(es)) == Parsed(Success, StoreAll(m, es))
    decreases |es|
  {
    hide ReadPair, Line;
    if es != [] {
      var rest := if |es| == 1 then [] else [AMPERSAND] + Print(es[1..]);
      assert Print(es) == Line(es[0]) + rest;
      ReadLine(es[0], rest);
      var m' := m[es[0].key := es[0].value];
      if |es| == 1 {
        assert StoreAll(m', es[1..]) == m';
      } else {
        assert rest[1..] == Print(es[1..]);
        PrintedIsRead(m', es[1..]);
      }
    }
  }

  lemma {:induction false} StoreAllValue(m: map<Bytes, Bytes>, es: seq<Entry>)
    requires forall i, j :: 0 <= i < j < |es| ==> es[i].key != es[j].key
    ensures forall key :: key in StoreAll(m, es) <==> key in m || exists i :: 0 <= i < |es| && es[i].key == key
    ensures forall i :: 0 <= i < |es| ==> StoreAll(m, es)[es[i].key] == es[i].value
    ensures forall key :: key in m && (forall i :: 0 <= i < |es| ==> es[i].key != key) ==>
      StoreAll(m, es)[key] == m[key]
    decreases |es|
  {
    if es != [] {
      var m', tl := m[es[0].key := es[0].value], es[1..];
      assert forall i :: 0 <= i < |tl| ==> tl[i] == es[i + 1];
      StoreAllValue(m', tl);
      forall key
        ensures key in StoreAll(m, es) <==> key in m || exists i :: 0 <= i < |es| && es[i].key == key
      {
        if i :| 0 <= i < |es| && es[i].key == key {
          if i > 0 { assert tl[i - 1].key == key; }
        }
        if i :| 0 <= i < |tl| && tl[i].key == key { assert es[i + 1].key == key; }
      }
      forall i | 0 <= i < |es|
        ensures StoreAll(m, es)[es[i].key] == es[i].value
      {
        if i > 0 { assert tl[i - 1] == es[i]; }
      }
    }
  }

  /** A map is rebuilt from its printed pairs, in whatever order they were printed. */
  lemma MapRoundTrip(m: map<Bytes, Bytes>, es: seq<Entry>)
    requires Lists(es, m)
    ensures FromStr(map[], Print(es)) == Parsed(Success, m)
  {
    hide FromStr, Print, StoreAll;
    PrintedIsRead(map[], es);
    StoreAllValue(map[], es);
    var r := StoreAll(map[], es);
    assert r.Keys == m.Keys;
    forall key | key in m
      ensures r[key] == m[key]
    {
      var i :| 0 <= i < |es| && es[i].key == key;
    }
  }

  /** Reads a pair at p; q is where it ends. */
  method ReadEntry(str: Bytes, p: nat) returns (r: Pair, q: nat)
    requires p <= |str|
    ensures r == ReadPair(str[p..])
    ensures r.Pair? ==> p < q <= |str| && r.rest == str[q..]
  {
    hide Decoding;
    var k;
    k, q := WebDecode(str, p);
    match k {
      case Refused => r := NoPair(Failure);
      case Outside => r := NoPair(Astray);
      case Done(key, rest) =>
        assert At(rest, 0) == At(str, q);
        if At(str, q) != EQUALS { return NoPair(Failure), q; }
        assert rest[1..] == str[q + 1..];
        r, q := ReadValue(str, q + 1, key);
    }
  }

  method ReadValue(str: Bytes, p: nat, key: Bytes) returns (r: Pair, q: nat)
    requires p <= |str|
    ensures r == match Decoding(str[p..])
      case Refused => NoPair(Failure)
      case Outside => NoPair(Astray)
      case Done(value, rest) => Pair(Entry(key, value), rest)
    ensures r.Pair? ==> p <= q <= |str| && r.rest == str[q..]
  {
    hide Decoding;
    var v;
    v, q := WebDecode(str, p);
    match v {
      case Refused => r := NoPair(Failure);
      case Outside => r := NoPair(Astray);
      case Done(value, rest) => r := Pair(Entry(key, value), rest);
    }
  }

  /** hash_fromStr(): how it ends, and the table as far as it was filled. */
  method HashFromStr(h: MemHash, str: Bytes) returns (status: Status)
    requires h.Valid()
    modifies h, h.arr, h.repr
    ensures h.Valid()
    ensures Parsed(status, h.model) == FromStr(old(h.model), str)
  {
    hide ReadPair, MemHash.Valid;
    var p: nat := 0;
    assert str[0..] == str;
    while At(str, p) != 0
      invariant p <= |str| && h.Valid()
      invariant FromStr(h.model, str[p..]) == FromStr(old(h.model), str)
      invariant (h.arr == old(h.arr) || fresh(h.arr)) && fresh(h.repr - old(h.repr))
      decreases |str| - p
    {
      assert At(str[p..], 0) == At(str, p);
      var pair, q := ReadEntry(str, p);
      if pair.NoPair? { return pair.status; }
      p := q;
      h.Store(pair.e.key, Some(pair.e.value), |pair.e.value|);
      assert At(str[p..], 0) == At(str, p);
      if At(str, p) == 0 { break; }
      if At(str, p) != AMPERSAND { return Failure; }
      assert str[p..][1..] == str[p + 1..];
      p := p + 1;
    }
    status := Success;
  }
}
