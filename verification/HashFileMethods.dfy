/** The loops of hash/hash_tofile.c: writing the fields of a table, and reading them line by line. */
module HashFileMethods {
  import opened Wrappers
  import opened Bits
  import opened Seqs
  import opened WebEncode
  import opened MemHash
  import opened HashFile
  import Base64

  /** hash_keyencode(). */
  method WriteKey(key: Bytes) returns (out: Bytes)
    ensures out == KeyEncode(key)
  {
    out := [];
    var i: nat := 0;
    while i < |key|
      invariant i <= |key| && out + KeyEncode(key[i..]) == KeyEncode(key)
    {
      assert key[i..][1..] == key[i + 1..];
      Associate(out, KeyByte(key[i]), KeyEncode(key[i + 1..]));
      out := out + KeyByte(key[i]);
      i := i + 1;
    }
  }

  /** binaryField(). */
  method BinaryField(t: Bytes) returns (r: bool)
    ensures r <==> Binary(t)
  {
    var lastret := 0;
    var i: nat := 0;
    ghost var s: nat := 0;
    while i < |t|
      invariant 0 <= s <= i <= |t| && lastret == (if s == 0 then 0 else s - 1)
      invariant s == 0 || t[s - 1] == NEWLINE
      invariant forall k :: s <= k < i ==> t[k] != NEWLINE
      invariant forall k :: 0 <= k < i ==> Printable(t[k])
      invariant forall b: nat, e: nat :: LineAt(t, b, e) && e < i ==> !TooLong(b, e)
    {
      if !Printable(t[i]) { return true; }
      if t[i] == NEWLINE {
        assert LineAt(t, s, i);
        if i - lastret > 256 { return true; }
        assert forall b: nat :: LineAt(t, b, i) ==> b == s;
        lastret := i;
        s := i + 1;
      }
      i := i + 1;
    }
    assert LineAt(t, s, i);
    assert forall b: nat :: LineAt(t, b, i) ==> b == s;
    r := i - lastret > 256;
  }

  /** One line, from `data` to p. */
  method WriteLine(t: Bytes, data: nat) returns (out: Bytes, p: nat)
    requires data < |t|
    ensures data < p <= |t| && Escape(t[data..]) == out + Escape(t[p..])
  {
    hide Escape, LineLength;
    out := AtTwice(t[data]);
    p := data;
    while p < |t| && (p == data || t[p - 1] != NEWLINE)
      invariant data <= p <= |t|
      invariant forall i :: data <= i < p - 1 ==> t[i] != NEWLINE
    {
      p := p + 1;
    }
    LineEnd(t, data, p);
    EscapeAt(t, data, p);
    out := out + t[data..p];
  }

  lemma {:induction false} EscapeAt(t: Bytes, data: nat, p: nat)
    requires data < p <= |t| && p - data == FirstLine(t[data..])
    ensures Escape(t[data..]) == AtTwice(t[data]) + t[data..p] + Escape(t[p..])
  {
    hide Escape, LineLength, FirstLine;
    EscapeStep(t[data..]);
    assert t[data..p] == t[data..][..p - data] && t[p..] == t[data..][p - data..];
  }

  /** The lines of a text, a leading `@` doubled. */
  method WriteLines(t: Bytes) returns (out: Bytes)
    requires 0 !in t
    ensures out == Escape(t)
  {
    hide Escape;
    out := [];
    var data: nat := 0;
    assert t[0..] == t;
    while data < |t|
      invariant data <= |t| && out + Escape(t[data..]) == Escape(t)
    {
      ghost var was := out;
      var line;
      line, data := WriteLine(t, data);
      Associate(was, line, Escape(t[data..]));
      out := out + line;
    }
    NothingToEscape(t[data..]);
  }

  lemma LineEnd(t: Bytes, data: nat, p: nat)
    requires data < p <= |t|
    requires forall i :: data <= i < p - 1 ==> t[i] != NEWLINE
    requires p == |t| || t[p - 1] == NEWLINE
    ensures p - data == FirstLine(t[data..])
  {
    var rest := t[data..];
    var n := LineLength(rest);
    assert forall i :: 0 <= i < p - data - 1 ==> rest[i] == t[data + i];
    assert n >= p - data - 1;
    if n < |rest| { assert t[data + n] == NEWLINE; }
    assert rest[p - data - 1] == t[p - 1];
  }

  lemma NothingToEscape(t: Bytes)
    requires t == []
    ensures Escape(t) == []
  {
  }

  /** The lines of base64, through a buffer of 128 bytes. */
  method WriteChunks(t: Bytes) returns (out: Bytes)
    ensures out == Chunks(t)
  {
    hide Chunks, Base64.Encode;
    out := [];
    var buf := new byte[128];
    var data: nat := 0;
    assert t[0..] == t;
    while data < |t|
      invariant data <= |t| && out + Chunks(t[data..]) == Chunks(t)
    {
      var inlen := if |t| - data < CHUNK then |t| - data else CHUNK;
      ChunksAt(t, data, inlen);
      var outlen := Base64.Base64Encode(t[data..data + inlen], buf);
      Associate(out, buf[..outlen] + [NEWLINE], Chunks(t[data + inlen..]));
      out := out + (buf[..outlen] + [NEWLINE]);
      data := data + inlen;
    }
    NoChunks(t[data..]);
  }

  lemma ChunksAt(t: Bytes, data: nat, n: nat)
    requires data < |t| && n == ChunkLength(t[data..])
    ensures Chunks(t[data..]) == (Base64.Encode(t[data..data + n], 0) + [NEWLINE]) + Chunks(t[data + n..])
    ensures Base64.Olen(n) <= 128
  {
    hide Base64.Encode;
    assert t[data..data + n] == t[data..][..n] && t[data + n..] == t[data..][n..];
  }

  lemma NoChunks(t: Bytes)
    requires t == []
    ensures Chunks(t) == []
  {
  }

  /** Text, base64, or text without a NUL, which is read on behind its end. */
  datatype Form = AsText | AsBase64 | Unended

  /** writeField() of a value. */
  method WriteField(key: Bytes, data: Bytes) returns (form: Form, out: Bytes)
    ensures form == if Binary(Stripped(data)) then AsBase64
                    else if data != [] && data[|data| - 1] != 0 then Unended else AsText
    ensures form == AsText ==> 0 !in Stripped(data) && out == Field(key, Stripped(data))
    ensures form == AsBase64 ==> out == Field64(key, Stripped(data))
  {
    hide Binary, Escape, Chunks;
    out := [AT];
    var len := |data|;
    if len > 0 && data[len - 1] == 0 { len := len - 1; }
    assert data[..len] == Stripped(data);
    var k := WriteKey(key);
    out := out + k;
    var binary := BinaryField(data[..len]);
    var lines := [];
    if binary {
      lines := WriteChunks(data[..len]);
      return AsBase64, out + BASE64 + [NEWLINE] + lines + [NEWLINE];
    }
    assert 0 !in data[..len] by { TextHasNoNul(data[..len]); }
    if len > 0 && len == |data| { return Unended, out; }
    form := AsText;
    if len > 0 {
      lines := WriteLines(data[..len]);
      lines := [NEWLINE] + lines;
    }
    out := out + lines + [NEWLINE];
  }

  /** A value without the NUL that ends it. */
  function Stripped(data: Bytes): Bytes
  {
    if data != [] && data[|data| - 1] == 0 then data[..|data| - 1] else data
  }

  /** The loop of hash_toStream() over the sorted keys, whose records are `rs`. */
  method WriteRecords(fieldlist: seq<Bytes>, h: MemHash, ghost rs: seq<Record>) returns (out: Bytes)
    requires h.Valid() && |rs| == |fieldlist|
    requires forall i :: 0 <= i < |fieldlist| ==> fieldlist[i] == rs[i].key && rs[i].Ok()
    requires forall i :: 0 <= i < |rs| ==>
      rs[i].StoredKey() in h.model && h.model[rs[i].StoredKey()] == rs[i].StoredValue()
    modifies h`cur
    ensures h.Valid()
    ensures out == Text(rs)
  {
    hide Field, Field64, MemHash.Valid, Text, Binary, Terminated;
    out := [];
    var i: nat := 0;
    NothingWritten(rs[..0]);
    while i < |fieldlist|
      invariant i <= |fieldlist| && h.Valid()
      invariant out == Text(rs[..i])
    {
      var data := h.Fetch(Terminated(fieldlist[i]));
      StrippedAgain(rs[i].text);
      var form, field := WriteField(fieldlist[i], data.value);
      TextGrows(rs[..i], rs[i]);
      assert rs[..i + 1] == rs[..i] + [rs[i]];
      out := out + field;
      i := i + 1;
    }
    assert rs[..i] == rs;
  }

  lemma StrippedAgain(t: Bytes)
    ensures Terminated(t) != [] && Terminated(t)[|Terminated(t)| - 1] == 0 && Stripped(Terminated(t)) == t
  {
  }

  lemma NothingWritten(rs: seq<Record>)
    requires rs == []
    ensures Text(rs) == []
  {
  }

  lemma {:induction false} TextGrows(rs: seq<Record>, r: Record)
    ensures Text(rs + [r]) == Text(rs) + r.Written()
  {
    hide Field, Field64, Binary;
    if rs == [] {
      assert rs + [r] == [r];
    } else {
      assert (rs + [r])[1..] == rs[1..] + [r];
      TextGrows(rs[1..], r);
    }
  }

  // ----------------------------------------------------------------- reading

  /** A line as it should be, one that base64_decode() refuses, or a header whose key leads outside. */
  datatype How = Plain | BadBase64 | Outwards

  /** hashpl: the record being read. */
  class HashPl {
    var key: Option<Bytes>
    var val: Bytes
    var base64: bool

    constructor ()
      ensures key == None && val == [] && !base64
    {
      key := None;
      val := [];
      base64 := false;
    }

    ghost function StateWith(h: MemHash): State
      reads this, h`model
    {
      State(key, val, base64, h.model)
    }

    /** The record that was read goes into the table. */
    method Finish(h: MemHash)
      requires h.Valid()
      modifies this, h, h.arr, h.repr
      ensures h.Valid() && (h.arr == old(h.arr) || fresh(h.arr)) && fresh(h.repr - old(h.repr))
      ensures StateWith(h) == HashFile.Finish(old(StateWith(h)))
    {
      hide MemHash.Valid;
      if key.Some? || CStr(val) != [] {
        var k := if key.Some? then key.value else [];
        var data := Taken(val, base64);
        h.Store(Terminated(k), Some(data), |data|);
        val := [];
        key := None;
      }
    }

    /** A line of base64: false if it is refused, when the library takes all bytes of its buffer. */
    method TakeBase64(line: Bytes) returns (ok: bool)
      modifies `val
      ensures match Base64.Decode(line, ROOM)
        case None => !ok && val == old(val)
        case Some(bytes) => ok && val == old(val) + bytes
    {
      hide Base64.Decode;
      var data := new byte[ROOM];
      var rc, len := Base64.Base64Decode(line, data, ROOM);
      if rc != 0 { return false; }
      val := val + data[..len];
      ok := true;
    }

    /** hash_parseLine() of a line: 1 at the end of the records, if `how` says that all is well. */
    method ParseLine(line: Bytes, h: MemHash) returns (rc: int, how: How)
      requires h.Valid()
      modifies this, h, h.arr, h.repr
      ensures h.Valid() && (h.arr == old(h.arr) || fresh(h.arr)) && fresh(h.repr - old(h.repr))
      ensures match HashFile.ParseLine(old(StateWith(h)), line)
        case End(st) => rc == 1 && how == Plain && StateWith(h) == st
        case Next(st) => rc == 0 && how == Plain && StateWith(h) == st
        case Unset => how == BadBase64
        case Astray => how == Outwards
    {
      hide MemHash.Valid, HashFile.Finish, EndsInBase64, KeyDecode, Base64.Decode;
      rc, how := 0, Plain;
      if At(line, 0) == AT && At(line, 1) != AT {
        Finish(h);
        if At(line, 1) == 0 { return 1, Plain; }
        how := TakeHeader(line);
      } else {
        var data := if At(line, 0) == AT then line[1..] else line;
        if base64 {
          var ok := TakeBase64(data);
          if !ok { return 0, BadBase64; }
        } else if data != [] || key.Some? {
          val := val + data + [NEWLINE];
        }
      }
    }

    /** The key of a header, and whether base64 follows. */
    method TakeHeader(line: Bytes) returns (how: How)
      requires |line| > 1
      modifies `key, `base64
      ensures var b := EndsInBase64(line);
        match KeyDecode(if b then line[1..|line| - 7] else line[1..])
        case NoKey => how == Outwards
        case Key(k) => how == Plain && key == k && base64 == b
    {
      hide KeyDecode;
      base64 := EndsInBase64(line);
      var k := ReadKey(if base64 then line[1..|line| - 7] else line[1..]);
      if k.NoKey? { return Outwards; }
      key := k.key;
      how := Plain;
    }
  }

  /** hash_keydecode(). */
  method ReadKey(s: Bytes) returns (r: Key)
    ensures r == KeyDecode(s)
  {
    var d, q := WebDecode(s, 0);
    assert s[0..] == s;
    match d {
      case Refused => r := Key(None);
      case Outside => r := NoKey;
      case Done(bytes, rest) => r := if 0 in bytes then Key(Some(CStr(bytes))) else NoKey;
    }
  }

  /** getline(): the length of the line at p without its newline. */
  method GetLine(text: Bytes, p: nat) returns (n: nat)
    requires p <= |text|
    ensures n == LineLength(text[p..])
  {
    n := 0;
    assert text[p..] == text[p + n..];
    while p + n < |text| && text[p + n] != NEWLINE
      invariant p + n <= |text| && n + LineLength(text[p + n..]) == LineLength(text[p..])
    {
      assert text[p + n..][1..] == text[p + n + 1..];
      n := n + 1;
    }
  }

  /** One line of the text at p, up to q. */
  method ReadLine(state: HashPl, text: Bytes, p: nat, h: MemHash) returns (rc: int, how: How, q: nat)
    requires h.Valid() && p < |text|
    modifies state, h, h.arr, h.repr
    ensures h.Valid() && (h.arr == old(h.arr) || fresh(h.arr)) && fresh(h.repr - old(h.repr))
    ensures p < q <= |text|
    ensures var r := FromStream(old(state.StateWith(h)), text[p..]);
      if how == BadBase64 then r == Garbled
      else if how == Outwards then r == Lost
      else if rc == 1 then r == Loaded(HashFile.Finish(state.StateWith(h)).h)
      else r == FromStream(state.StateWith(h), text[q..])
  {
    hide MemHash.Valid, HashFile.Finish, HashFile.ParseLine, LineLength, FromStream, CStr;
    var n := GetLine(text, p);
    LineIsNext(state.StateWith(h), text, p, n);
    rc, how := state.ParseLine(CStr(text[p..][..n]), h);
    q := if p + n == |text| then p + n else p + n + 1;
  }

  lemma LineIsNext(st: State, text: Bytes, p: nat, n: nat)
    requires p < |text| && n == LineLength(text[p..])
    ensures var q := if p + n == |text| then p + n else p + n + 1;
      FromStream(st, text[p..]) ==
        match HashFile.ParseLine(st, CStr(text[p..][..n]))
        case End(st') => Loaded(Finish(st').h)
        case Unset => Garbled
        case Astray => Lost
        case Next(st') => FromStream(st', text[q..])
  {
    hide HashFile.ParseLine, LineLength, Finish, CStr;
    if p + n < |text| { assert text[p..][n + 1..] == text[p + n + 1..]; }
  }

  /** hash_fromStream() into a given table. */
  method ReadRecords(text: Bytes, h: MemHash) returns (how: How)
    requires h.Valid()
    modifies h, h.arr, h.repr
    ensures h.Valid()
    ensures match FromStream(State(None, [], false, old(h.model)), text)
      case Loaded(m) => how == Plain && h.model == m
      case Garbled => how == BadBase64
      case Lost => how == Outwards
  {
    hide MemHash.Valid, HashFile.Finish, HashFile.ParseLine, LineLength, FromStream;
    var state := new HashPl();
    var p: nat := 0;
    assert text[0..] == text;
    var rc := 0;
    while p < |text|
      invariant p <= |text| && h.Valid() && fresh(state)
      invariant FromStream(state.StateWith(h), text[p..]) == FromStream(State(None, [], false, old(h.model)), text)
      invariant (h.arr == old(h.arr) || fresh(h.arr)) && fresh(h.repr - old(h.repr))
      decreases |text| - p
    {
      var q;
      rc, how, q := ReadLine(state, text, p, h);
      if how != Plain { return how; }
      if rc == 1 {
        state.Finish(h);
        return Plain;
      }
      p := q;
    }
    AtEof(state.StateWith(h), text[p..]);
    state.Finish(h);
    how := Plain;
  }

  lemma AtEof(st: State, text: Bytes)
    requires text == []
    ensures FromStream(st, text) == Loaded(Finish(st).h)
  {
  }

  /**
   Writes a table and reads it into a new one: that is sure to be the same map exactly
   when no key begins with `@` and no value goes out as base64.
   */
  method SaveAndLoad(h: MemHash, fieldlist: seq<Bytes>, ghost rs: seq<Record>) returns (how: How, copy: MemHash)
    requires h.Valid() && Lists(rs, h.model) && |rs| == |fieldlist|
    requires forall i :: 0 <= i < |fieldlist| ==> fieldlist[i] == rs[i].key
    modifies h`cur
    ensures copy.Valid()
    ensures how == Plain && copy.model == h.model <==> (forall k :: k in h.model ==> At(k, 0) != AT) && AllText(rs)
  {
    hide MemHash.Valid, FromStream, Text, AllText;
    copy := new MemHash();
    var out := WriteRecords(fieldlist, h, rs);
    RoundTripExactly(h.model, rs);
    how := ReadRecords(out, copy);
  }
}
