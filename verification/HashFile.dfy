/**
 The records of hash/hash_tofile.c: `@key` headers, the lines of a value behind
 them with a leading `@` doubled, and one newline to end the value.  A value that
 is not text goes out as lines of base64.
 */
module HashFile {
  import opened Wrappers
  import opened Bits
  import opened WebEncode
  import Base64

  type Bytes = seq<byte>

  const NEWLINE: byte := 0x0A
  const AT: byte := 0x40

  // ----------------------------------------------------------------- writing

  predicate Printable(c: byte) { 0x20 <= c <= 0x7E || 0x09 <= c <= 0x0D }

  /** A line of the text: from a start to the newline or the end. */
  predicate LineAt(t: Bytes, s: nat, e: nat)
  {
    && s <= e <= |t|
    && (s == 0 || t[s - 1] == NEWLINE)
    && (e == |t| || t[e] == NEWLINE)
    && forall i :: s <= i < e ==> t[i] != NEWLINE
  }

  /** More than 256 characters; every line but the first is measured with the newline in front of it. */
  predicate TooLong(s: nat, e: nat) { e - s > if s == 0 then 256 else 255 }

  /** What goes out as base64: a byte that is neither printable nor white space, or a long line. */
  ghost predicate Binary(t: Bytes)
  {
    || (exists i :: 0 <= i < |t| && !Printable(t[i]))
    || (exists s, e :: LineAt(t, s, e) && TooLong(s, e))
  }

  /** hash_keyencode() of one byte. */
  function KeyByte(c: byte): (s: Bytes)
    ensures |s| >= 1 && forall i :: 0 <= i < |s| ==> s[i] != SPACE && s[i] != NEWLINE
    ensures c != 0 ==> forall i :: 0 <= i < |s| ==> s[i] != 0
    ensures s[0] == AT <==> c == AT
  {
    if c == SPACE then [PLUS]
    else if c == PERCENT || c == PLUS || c == AMPERSAND || c == EQUALS || c == NEWLINE then
      [PERCENT, Hex(c / 16), Hex(c % 16)]
    else [c]
  }

  function KeyEncode(key: Bytes): (s: Bytes)
    ensures forall i :: 0 <= i < |s| ==> s[i] != SPACE && s[i] != NEWLINE
    ensures 0 !in key ==> forall i :: 0 <= i < |s| ==> s[i] != 0
    ensures |key| <= |s| && (key != [] ==> (s[0] == AT <==> key[0] == AT))
  {
    if key == [] then [] else KeyByte(key[0]) + KeyEncode(key[1..])
  }

  /** Length of the first line, without its newline. */
  function LineLength(t: Bytes): (n: nat)
    ensures n <= |t| && (n < |t| ==> t[n] == NEWLINE)
    ensures forall i :: 0 <= i < n ==> t[i] != NEWLINE
  {
    if t == [] || t[0] == NEWLINE then 0 else 1 + LineLength(t[1..])
  }

  /** Length of the first line with its newline. */
  function FirstLine(t: Bytes): (k: nat)
    requires t != []
    ensures 0 < k <= |t|
  {
    var n := LineLength(t);
    if n == |t| then n else n + 1
  }

  function AtTwice(c: byte): Bytes { if c == AT then [AT] else [] }

  /** The lines of a value, a leading `@` doubled. */
  function Escape(t: Bytes): Bytes
  {
    if t == [] then []
    else
      var k := FirstLine(t);
      AtTwice(t[0]) + t[..k] + Escape(t[k..])
  }

  /** writeField() for a value that is text. */
  function Field(key: Bytes, t: Bytes): Bytes
  {
    [AT] + KeyEncode(key) + (if t == [] then [] else [NEWLINE] + Escape(t)) + [NEWLINE]
  }

  const BASE64: Bytes := [0x20, 0x62, 0x61, 0x73, 0x65, 0x36, 0x34]

  /** How many bytes go into one line of base64. */
  const CHUNK: nat := 48

  function ChunkLength(t: Bytes): (n: nat)
    ensures n <= |t| && n <= CHUNK && (t != [] ==> n > 0)
  {
    if |t| < CHUNK then |t| else CHUNK
  }

  /** The lines of base64; base64_encode() ends each in a newline, and the caller adds another one. */
  function Chunks(t: Bytes): Bytes
    decreases |t|
  {
    if t == [] then []
    else
      var n := ChunkLength(t);
      Base64.Encode(t[..n], 0) + [NEWLINE] + Chunks(t[n..])
  }

  /** writeField() for a value that is not text. */
  function Field64(key: Bytes, t: Bytes): Bytes
  {
    [AT] + KeyEncode(key) + BASE64 + [NEWLINE] + Chunks(t) + [NEWLINE]
  }

  // ----------------------------------------------------------------- reading

  /** A C string ends at its first NUL. */
  function CStr(s: Bytes): (r: Bytes)
    ensures 0 !in r && |r| <= |s|
  {
    if s == [] || s[0] == 0 then [] else [s[0]] + CStr(s[1..])
  }

  lemma CStrWhole(s: Bytes)
    requires 0 !in s
    ensures CStr(s) == s && CStr(s + [0]) == s
  {
    if s != [] {
      CStrWhole(s[1..]);
      assert (s + [0])[1..] == s[1..] + [0];
    } else {
      assert CStr([0]) == [];
    }
  }

  /** hashpl and the table it fills: the key of the record being read and what it has of the value. */
  datatype State = State(key: Option<Bytes>, val: Bytes, base64: bool, h: map<Bytes, Bytes>)

  /** A value as it is stored: up to its first NUL, a text without the newline that ends it. */
  function Taken(val: Bytes, base64: bool): Bytes
  {
    var s := CStr(val);
    Terminated(if !base64 && s != [] && s[|s| - 1] == NEWLINE then s[..|s| - 1] else s)
  }

  /** Stores the record read so far, if there is one. */
  function Finish(st: State): State
  {
    if st.key.Some? || CStr(st.val) != [] then
      var key := if st.key.Some? then st.key.value else [];
      State(None, [], st.base64, st.h[Terminated(key) := Taken(st.val, st.base64)])
    else st
  }

  predicate EndsInBase64(line: Bytes)
  {
    |line| > 8 && line[|line| - 7..] == BASE64
  }

  /** hash_keydecode(): the key, null for refused text; or text that leads outside its memory. */
  datatype Key = Key(key: Option<Bytes>) | NoKey

  /** The bytes are used as a C string, so without a NUL among them the library reads on behind them. */
  function KeyDecode(s: Bytes): Key
  {
    match Decoding(s)
    case Refused => Key(None)
    case Outside => NoKey
    case Done(bytes, rest) => if 0 in bytes then Key(Some(CStr(bytes))) else NoKey
  }

  /**
   What a line leads to: the end of the records, the next state, or one of two steps
   outside.  A line that base64_decode() refuses is taken for a whole buffer of bytes,
   of which none were set.
   */
  datatype Outcome = End(st: State) | Next(st: State) | Unset | Astray

  predicate IsHeader(line: Bytes) { At(line, 0) == AT && At(line, 1) != AT }

  /** The size of the buffer for a line of base64. */
  const ROOM: nat := 256

  function ParseLine(st: State, line: Bytes): Outcome
  {
    if IsHeader(line) then
      var done := Finish(st);
      if At(line, 1) == 0 then End(done)
      else
        var base64 := EndsInBase64(line);
        match KeyDecode(if base64 then line[1..|line| - 7] else line[1..])
        case NoKey => Astray
        case Key(key) => Next(done.(key := key, base64 := base64))
    else
      var data := if At(line, 0) == AT then line[1..] else line;
      if st.base64 then
        var bytes := Base64.Decode(data, ROOM);
        if bytes.None? then Unset else Next(st.(val := st.val + bytes.value))
      else if data != [] || st.key.Some? then Next(st.(val := st.val + data + [NEWLINE]))
      else Next(st)
  }

  /** What a stream leads to: a table, a value of bytes that were not set, or a step outside. */
  datatype Loaded = Loaded(h: map<Bytes, Bytes>) | Garbled | Lost

  /** hash_fromStream(): line by line to the end or a lone `@`, then the last record. */
  function FromStream(st: State, text: Bytes): Loaded
    decreases |text|
  {
    if text == [] then Loaded(Finish(st).h)
    else
      var n := LineLength(text);
      match ParseLine(st, CStr(text[..n]))
      case End(st') => Loaded(Finish(st').h)
      case Unset => Garbled
      case Astray => Lost
      case Next(st') => FromStream(st', if n == |text| then [] else text[n + 1..])
  }

  // -------------------------------------------------------------- round trip

  lemma {:induction false} KeyByteIsRead(c: byte, rest: Bytes, t: Bytes, room: nat)
    requires c != 0 && |t| < room
    ensures Decode(KeyByte(c) + rest, false, t, room) == Decode(rest, false, t + [c], room)
  {
    var s := KeyByte(c) + rest;
    if |KeyByte(c)| == 1 {
      assert s[1..] == rest;
    } else {
      HexDigits(c, rest);
      assert s[1..] == [Hex(c / 16), Hex(c % 16)] + rest;
      assert s[3..] == rest;
    }
  }

  lemma {:induction false} KeyIsRead(key: Bytes, t: Bytes, room: nat)
    requires 0 !in key && |t| + |key| < room
    ensures Decode(KeyEncode(key), false, t, room) == Done(t + key + [0], [])
  {
    if key == [] {
      assert t + key == t;
    } else {
      hide Decode;
      KeyByteIsRead(key[0], KeyEncode(key[1..]), t, room);
      KeyIsRead(key[1..], t + [key[0]], room);
      Regroup(t, key);
    }
  }

  /** A key is encoded without stops, so the buffer for decoding it is large enough. */
  lemma {:induction false} KeyNoStops(key: Bytes)
    requires 0 !in key
    ensures forall i :: 0 <= i < |KeyEncode(key)| ==> !Stop(KeyEncode(key)[i])
  {
    if key != [] { KeyNoStops(key[1..]); }
  }

  lemma {:induction false} KeyComesBack(key: Bytes)
    requires 0 !in key
    ensures KeyDecode(KeyEncode(key)) == Key(Some(key))
  {
    KeyNoStops(key);
    SpanOf(KeyEncode(key), []);
    assert KeyEncode(key) + [] == KeyEncode(key);
    KeyIsRead(key, [], Span(KeyEncode(key)) + 1);
    assert [] + key == key && (key + [0])[|key|] == 0;
    CStrWhole(key);
  }

  lemma NotBase64(line: Bytes)
    requires SPACE !in line
    ensures !EndsInBase64(line)
  {
    if |line| > 8 {
      assert line[|line| - 7..][0] == line[|line| - 7];
    }
  }

  /** A key that does not begin with `@` comes back from its header line. */
  lemma HeaderIsRead(st: State, key: Bytes)
    requires key != [] && 0 !in key && key[0] != AT
    ensures ParseLine(st, [AT] + KeyEncode(key)) == Next(Finish(st).(key := Some(key), base64 := false))
  {
    hide Finish;
    var line := [AT] + KeyEncode(key);
    assert line[1..] == KeyEncode(key) && At(line, 1) == KeyEncode(key)[0];
    NotBase64(line);
    KeyComesBack(key);
  }

  /** So it does from a header that announces base64. */
  lemma HeaderIsRead64(st: State, key: Bytes)
    requires key != [] && 0 !in key && key[0] != AT
    ensures ParseLine(st, [AT] + KeyEncode(key) + BASE64) == Next(Finish(st).(key := Some(key), base64 := true))
  {
    hide Finish;
    var line := [AT] + KeyEncode(key) + BASE64;
    assert line[|line| - 7..] == BASE64 && line[1..|line| - 7] == KeyEncode(key);
    assert At(line, 1) == KeyEncode(key)[0];
    KeyComesBack(key);
  }

  /** A data line; empty ones without a key are ignored. */
  function Feed(st: State, l: Bytes): (r: State)
    ensures r.key == st.key && r.h == st.h && r.base64 == st.base64
  {
    if l != [] || st.key.Some? then st.(val := st.val + l + [NEWLINE]) else st
  }

  /** The lines of a value, one after the other. */
  function FeedAll(st: State, t: Bytes): (r: State)
    ensures r.key == st.key && r.h == st.h && r.base64 == st.base64
    decreases |t|
  {
    var n := LineLength(t);
    if n == |t| then Feed(st, t) else FeedAll(Feed(st, t[..n]), t[n + 1..])
  }

  /** No record of base64, and no NUL in the value. */
  predicate Clean(st: State) { !st.base64 && 0 !in st.val }

  lemma FinishClean(st: State)
    requires Clean(st)
    ensures Finish(st).val == [] && Clean(Finish(st))
  {
    CStrWhole(st.val);
  }

  lemma FeedClean(st: State, l: Bytes)
    requires Clean(st) && 0 !in l
    ensures Clean(Feed(st, l))
  {
  }

  lemma {:induction false} FeedAllClean(st: State, t: Bytes)
    requires Clean(st) && 0 !in t
    ensures Clean(FeedAll(st, t))
    decreases |t|
  {
    hide LineLength;
    var n := LineLength(t);
    if n < |t| { FeedAllClean(Feed(st, t[..n]), t[n + 1..]); }
  }

  /** With a key the value is collected whole, with the newline that ends it. */
  lemma {:induction false} FeedAllCollects(st: State, t: Bytes)
    requires st.key.Some?
    ensures FeedAll(st, t) == st.(val := st.val + t + [NEWLINE])
    decreases |t|
  {
    hide LineLength;
    var n := LineLength(t);
    if n < |t| {
      var l, u := t[..n], t[n + 1..];
      FeedAllCollects(Feed(st, l), u);
      assert l + [NEWLINE] + u == t;
      Collect(st.val, l, u);
    }
  }

  lemma Collect(val: Bytes, l: Bytes, u: Bytes)
    ensures (val + l + [NEWLINE]) + u + [NEWLINE] == val + (l + [NEWLINE] + u) + [NEWLINE]
  {
  }

  /** One line of a value, its `@` doubled, is read back. */
  lemma DataIsRead(st: State, l: Bytes)
    requires !st.base64
    ensures ParseLine(st, (if At(l, 0) == AT then [AT] else []) + l) == Next(Feed(st, l))
  {
    var line := (if At(l, 0) == AT then [AT] else []) + l;
    if At(l, 0) == AT { assert line[1..] == l; } else { assert line == l; }
  }

  lemma EmptyIsRead(st: State)
    requires !st.base64
    ensures ParseLine(st, []) == Next(Feed(st, []))
  {
  }

  /** A line at the front of the text. */
  lemma TakeLine(st: State, line: Bytes, rest: Bytes)
    requires 0 !in line && NEWLINE !in line && ParseLine(st, line).Next?
    ensures FromStream(st, line + [NEWLINE] + rest) == FromStream(ParseLine(st, line).st, rest)
  {
    hide ParseLine;
    var text := line + [NEWLINE] + rest;
    LineOf(line, [NEWLINE] + rest);
    assert text == line + ([NEWLINE] + rest);
    assert text[..|line|] == line && text[|line| + 1..] == rest;
    CStrWhole(line);
  }

  lemma {:induction false} LineOf(line: Bytes, rest: Bytes)
    requires NEWLINE !in line && rest != [] && rest[0] == NEWLINE
    ensures LineLength(line + rest) == |line|
  {
    var t := line + rest;
    assert t[|line|] == NEWLINE && forall i :: 0 <= i < |line| ==> t[i] == line[i];
  }

  function Line(l: Bytes): Bytes { (if At(l, 0) == AT then [AT] else []) + l }

  lemma {:induction false} EscapeStep(t: Bytes)
    requires t != []
    ensures Escape(t) == AtTwice(t[0]) + t[..FirstLine(t)] + Escape(t[FirstLine(t)..])
  {
  }

  lemma {:induction false} EscapeLines(t: Bytes, rest: Bytes)
    ensures var n := LineLength(t);
      if n == |t| then Escape(t) == Line(t)
      else Escape(t) + [NEWLINE] + rest == Line(t[..n]) + [NEWLINE] + (Escape(t[n + 1..]) + [NEWLINE] + rest)
  {
    if t != [] {
      EscapeStep(t);
      var n := LineLength(t);
      if n < |t| {
        LineHead(t);
        assert t[..n + 1] == t[..n] + [NEWLINE];
        hide Escape, LineLength;
        Chain(AtTwice(t[0]), t[..n], Escape(t[n + 1..]), rest);
      } else {
        assert t[..n] == t && Escape(t[n..]) == [];
      }
    }
  }

  lemma {:induction false} LineHead(t: Bytes)
    requires t != []
    ensures Line(t[..LineLength(t)]) == AtTwice(t[0]) + t[..LineLength(t)]
  {
  }

  lemma Chain(a: Bytes, l: Bytes, e: Bytes, rest: Bytes)
    ensures (a + (l + [NEWLINE]) + e) + [NEWLINE] + rest == (a + l) + [NEWLINE] + (e + [NEWLINE] + rest)
  {
  }

  /** The lines of a value are fed one after the other, whatever follows them. */
  lemma {:induction false} ValueIsRead(st: State, t: Bytes, rest: Bytes)
    requires 0 !in t && !st.base64
    ensures FromStream(st, Escape(t) + [NEWLINE] + rest) == FromStream(FeedAll(st, t), rest)
    decreases |t|
  {
    hide FromStream, ParseLine, Escape, Feed;
    var n := LineLength(t);
    EscapeLines(t, rest);
    DataIsRead(st, t[..n]);
    if n == |t| {
      assert t[..n] == t;
      TakeLine(st, Line(t), rest);
    } else {
      TakeLine(st, Line(t[..n]), Escape(t[n + 1..]) + [NEWLINE] + rest);
      ValueIsRead(Feed(st, t[..n]), t[n + 1..], rest);
    }
  }

  /** Where a field leaves the parser: an unusable header is taken for one more line of the record before. */
  function After(st: State, key: Bytes, t: Bytes): State
    requires key != []
  {
    var s := Headed(st, key);
    if t == [] then s else FeedAll(s, t)
  }

  /** What the header makes of the state. */
  function Headed(st: State, key: Bytes): State
    requires key != []
  {
    if key[0] == AT then Feed(st, KeyEncode(key)) else Finish(st).(key := Some(key), base64 := false)
  }

  lemma HeadIsRead(st: State, key: Bytes)
    requires key != [] && 0 !in key && !st.base64
    ensures ParseLine(st, [AT] + KeyEncode(key)) == Next(Headed(st, key))
    ensures 0 !in [AT] + KeyEncode(key) && NEWLINE !in [AT] + KeyEncode(key)
  {
    hide ParseLine, Finish, Feed, KeyByte;
    if key[0] == AT { DataIsRead(st, KeyEncode(key)); } else { HeaderIsRead(st, key); }
  }

  lemma FieldParts(key: Bytes, t: Bytes, rest: Bytes)
    ensures Field(key, t) + rest ==
      ([AT] + KeyEncode(key)) + [NEWLINE] + if t == [] then rest else Escape(t) + [NEWLINE] + rest
  {
    hide Escape, KeyEncode;
  }

  lemma FieldIsRead(st: State, key: Bytes, t: Bytes, rest: Bytes)
    requires key != [] && 0 !in key && 0 !in t && !st.base64
    ensures FromStream(st, Field(key, t) + rest) == FromStream(After(st, key, t), rest)
  {
    hide FromStream, ParseLine, Escape, Feed, Finish, KeyEncode, Field, FeedAll;
    var line := [AT] + KeyEncode(key);
    HeadIsRead(st, key);
    FieldParts(key, t, rest);
    TakeLine(st, line, if t == [] then rest else Escape(t) + [NEWLINE] + rest);
    if t != [] { ValueIsRead(Headed(st, key), t, rest); }
  }

  // ------------------------------------------------------------ whole streams

  /** The bytes of a C string with the NUL that ends it. */
  function Terminated(s: Bytes): Bytes { s + [0] }

  /** A record whose key is text; key and value are without the NUL that ends them. */
  datatype Record = Record(key: Bytes, text: Bytes)
  {
    predicate Ok() { key != [] && 0 !in key }

    /** The key and the value as they are in the table. */
    function StoredKey(): Bytes { Terminated(key) }

    function StoredValue(): Bytes { Terminated(text) }

    /** writeField(). */
    ghost function Written(): Bytes { if Binary(text) then Field64(key, text) else Field(key, text) }
  }

  /** The records one after the other. */
  ghost function Text(rs: seq<Record>): Bytes
  {
    if rs == [] then [] else rs[0].Written() + Text(rs[1..])
  }

  ghost predicate AllText(rs: seq<Record>)
  {
    forall i :: 0 <= i < |rs| ==> !Binary(rs[i].text)
  }

  lemma TextHasNoNul(t: Bytes)
    requires !Binary(t)
    ensures 0 !in t
  {
  }

  function StoreAll(h: map<Bytes, Bytes>, rs: seq<Record>): map<Bytes, Bytes>
    decreases |rs|
  {
    if rs == [] then h else StoreAll(h[rs[0].StoredKey() := rs[0].StoredValue()], rs[1..])
  }

  lemma AfterClean(st: State, r: Record)
    requires Clean(st) && r.Ok() && 0 !in r.text
    ensures Clean(After(st, r.key, r.text))
  {
    hide Finish, FeedAll, KeyEncode;
    FinishClean(st);
    assert r.key != [];
    var s := if r.key[0] == AT then Feed(st, KeyEncode(r.key)) else Finish(st).(key := Some(r.key), base64 := false);
    assert 0 !in KeyEncode(r.key) by { KeyHasNoNul(r.key); }
    FeedAllClean(s, r.text);
  }

  lemma KeyHasNoNul(key: Bytes)
    requires 0 !in key
    ensures 0 !in KeyEncode(key)
  {
  }

  /** A record whose key does not begin with `@` is stored by the time the next one is finished. */
  lemma AfterGood(st: State, r: Record)
    requires Clean(st) && r.Ok() && 0 !in r.text && r.key[0] != AT
    ensures Finish(After(st, r.key, r.text)).h == Finish(st).h[r.StoredKey() := r.StoredValue()]
    ensures After(st, r.key, r.text).key == Some(r.key)
  {
    hide CStr, FeedAll;
    FinishClean(st);
    var s := Finish(st).(key := Some(r.key), base64 := false);
    CStrWhole([]);
    if r.text != [] {
      FeedAllCollects(s, r.text);
      assert s.val + r.text + [NEWLINE] == r.text + [NEWLINE];
      assert (r.text + [NEWLINE])[..|r.text|] == r.text;
      CStrWhole(r.text + [NEWLINE]);
    }
  }

  /** Records of text with good keys are read back in the order they were written. */
  lemma {:induction false} RecordsAreRead(st: State, rs: seq<Record>)
    requires Clean(st) && AllText(rs) && forall i :: 0 <= i < |rs| ==> rs[i].Ok() && rs[i].key[0] != AT
    ensures FromStream(st, Text(rs)) == Loaded(StoreAll(Finish(st).h, rs))
    decreases |rs|
  {
    if rs != [] {
      hide FromStream, Field, After, Finish, Binary;
      TextHasNoNul(rs[0].text);
      FieldIsRead(st, rs[0].key, rs[0].text, Text(rs[1..]));
      AfterGood(st, rs[0]);
      AfterClean(st, rs[0]);
      RecordsAreRead(After(st, rs[0].key, rs[0].text), rs[1..]);
    }
  }

  // ------------------------------------------------------------------- base64

  /** A line of base64: its symbols, then a newline. */
  lemma ChunkLine(c: Bytes)
    requires 0 < |c| <= CHUNK
    ensures var line := Base64.Symbols(c);
            && Base64.Encode(c, 0) == line + [NEWLINE]
            && NEWLINE !in line && 0 !in line && AT !in line && line != []
            && Base64.Decode(line, ROOM) == Some(c)
  {
    hide Base64.Symbols, Base64.Encode, Base64.Decode;
    Base64.OneLine(c, 0);
    Base64.SymbolsPlain(c);
    Base64.SymbolsKept(c);
    Base64.RoundTrip(c, Base64.Symbols(c), ROOM);
  }

  lemma ChunksStep(t: Bytes, rest: Bytes)
    requires t != []
    ensures var n := ChunkLength(t); var line := Base64.Symbols(t[..n]);
            Chunks(t) + rest == line + [NEWLINE] + ([] + [NEWLINE] + (Chunks(t[n..]) + rest))
  {
    hide Base64.Encode, Base64.Symbols;
    var n := ChunkLength(t);
    ChunkLine(t[..n]);
    Together(Base64.Symbols(t[..n]), Chunks(t[n..]), rest);
  }

  lemma Together(line: Bytes, more: Bytes, rest: Bytes)
    ensures ((line + [NEWLINE]) + [NEWLINE] + more) + rest == line + [NEWLINE] + ([] + [NEWLINE] + (more + rest))
  {
  }

  lemma RefusedLine(st: State, rest: Bytes)
    requires st.base64
    ensures FromStream(st, [] + [NEWLINE] + rest) == Garbled
  {
    var text := [] + [NEWLINE] + rest;
    assert text[0] == NEWLINE && text[..0] == [];
    assert Base64.Decode([], ROOM) == None;
  }

  /**
   A value that went out as base64 is never read back: behind its first line stands
   an empty one, which base64_decode() refuses.
   */
  lemma Field64IsRead(st: State, key: Bytes, t: Bytes, rest: Bytes)
    requires key != [] && 0 !in key && key[0] != AT && t != []
    ensures FromStream(st, Field64(key, t) + rest) == Garbled
  {
    hide FromStream, ParseLine, Finish, Chunks, KeyEncode, Base64.Symbols, Base64.Decode;
    var line := [AT] + KeyEncode(key) + BASE64;
    var s := Finish(st).(key := Some(key), base64 := true);
    HeaderIsRead64(st, key);
    KeyHasNoNul(key);
    assert Field64(key, t) + rest == line + [NEWLINE] + (Chunks(t) + ([NEWLINE] + rest));
    HeaderLine(key);
    TakeLine(st, line, Chunks(t) + ([NEWLINE] + rest));
    var n := ChunkLength(t);
    ChunksStep(t, [NEWLINE] + rest);
    ChunkLine(t[..n]);
    ChunkIsRead(s, t[..n]);
    var more := Chunks(t[n..]) + ([NEWLINE] + rest);
    TakeLine(s, Base64.Symbols(t[..n]), [] + [NEWLINE] + more);
    RefusedLine(s.(val := s.val + t[..n]), more);
  }

  lemma HeaderLine(key: Bytes)
    requires 0 !in key
    ensures var line := [AT] + KeyEncode(key) + BASE64; 0 !in line && NEWLINE !in line
  {
    KeyHasNoNul(key);
  }

  lemma ChunkIsRead(st: State, c: Bytes)
    requires 0 < |c| <= CHUNK
    ensures ParseLine(st, Base64.Symbols(c)) ==
      if st.base64 then Next(st.(val := st.val + c)) else Next(Feed(st, Base64.Symbols(c)))
  {
    hide Base64.Symbols, Base64.Decode, ParseLine, Feed;
    ChunkLine(c);
    var line := Base64.Symbols(c);
    assert line[0] in line;
    PlainLine(st, line);
  }

  lemma PlainLine(st: State, line: Bytes)
    requires line != [] && line[0] != AT
    ensures ParseLine(st, line) ==
      if !st.base64 then Next(Feed(st, line))
      else
        var bytes := Base64.Decode(line, ROOM);
        if bytes.None? then Unset else Next(st.(val := st.val + bytes.value))
  {
    hide Base64.Decode, KeyDecode, EndsInBase64, Finish;
  }

  /** Outside a record of base64 its lines are text like any other. */
  lemma {:induction false} ChunksAreData(st: State, t: Bytes, rest: Bytes) returns (st': State)
    requires Clean(st)
    ensures FromStream(st, Chunks(t) + rest) == FromStream(st', rest)
    ensures Clean(st') && st'.key == st.key && st'.h == st.h
    decreases |t|
  {
    if t == [] {
      assert Chunks(t) + rest == rest;
      st' := st;
    } else {
      hide FromStream, ParseLine, Chunks, Base64.Symbols, Base64.Encode, Base64.Decode, Feed;
      var n := ChunkLength(t);
      var line := Base64.Symbols(t[..n]);
      ChunksStep(t, rest);
      ChunkLine(t[..n]);
      ChunkIsRead(st, t[..n]);
      TakeLine(st, line, [] + [NEWLINE] + (Chunks(t[n..]) + rest));
      var s := Feed(st, line);
      FeedClean(st, line);
      EmptyIsRead(s);
      FeedClean(s, []);
      TakeLine(s, [], Chunks(t[n..]) + rest);
      st' := ChunksAreData(Feed(s, []), t[n..], rest);
    }
  }

  /** So is its header, if the key begins with `@`. */
  lemma Field64IsData(st: State, key: Bytes, t: Bytes, rest: Bytes) returns (st': State)
    requires Clean(st) && key != [] && 0 !in key && key[0] == AT
    ensures FromStream(st, Field64(key, t) + rest) == FromStream(st', rest)
    ensures Clean(st') && st'.key == st.key && st'.h == st.h
  {
    hide FromStream, ParseLine, Chunks, KeyEncode;
    var l := KeyEncode(key) + BASE64;
    var line := [AT] + KeyEncode(key) + BASE64;
    assert line == [AT] + l && At(l, 0) == AT;
    assert Field64(key, t) + rest == line + [NEWLINE] + (Chunks(t) + ([NEWLINE] + rest));
    HeaderLine(key);
    DataIsRead(st, l);
    TakeLine(st, line, Chunks(t) + ([NEWLINE] + rest));
    var s := Feed(st, l);
    assert forall i :: 0 <= i < |l| ==> l[i] == line[i + 1];
    st' := ChunksAreData(s, t, [NEWLINE] + rest);
    EmptyIsRead(st');
    assert [NEWLINE] + rest == [] + [NEWLINE] + rest;
    TakeLine(st', [], rest);
    st' := Feed(st', []);
  }

  /** One such value spoils the whole stream. */
  lemma {:induction false} BinaryGarbles(st: State, rs: seq<Record>)
    requires Clean(st) && !AllText(rs) && forall i :: 0 <= i < |rs| ==> rs[i].Ok() && rs[i].key[0] != AT
    ensures FromStream(st, Text(rs)) == Garbled
    decreases |rs|
  {
    hide FromStream, Field, Field64, After, Finish, Binary;
    var r := rs[0];
    if Binary(r.text) {
      NothingIsText();
      Field64IsRead(st, r.key, r.text, Text(rs[1..]));
    } else {
      TextHasNoNul(r.text);
      FieldIsRead(st, r.key, r.text, Text(rs[1..]));
      AfterClean(st, r);
      assert !AllText(rs[1..]) by {
        var i :| 0 <= i < |rs| && Binary(rs[i].text);
        assert rs[1..][i - 1] == rs[i];
      }
      BinaryGarbles(After(st, r.key, r.text), rs[1..]);
    }
  }

  lemma NothingIsText()
    ensures !Binary([])
  {
  }

  lemma {:induction false} StoreAllValue(h: map<Bytes, Bytes>, rs: seq<Record>)
    requires forall i, j :: 0 <= i < j < |rs| ==> rs[i].StoredKey() != rs[j].StoredKey()
    ensures forall k :: k in StoreAll(h, rs) <==> k in h || exists i :: 0 <= i < |rs| && rs[i].StoredKey() == k
    ensures forall i :: 0 <= i < |rs| ==> StoreAll(h, rs)[rs[i].StoredKey()] == rs[i].StoredValue()
    ensures forall k :: k in h && (forall i :: 0 <= i < |rs| ==> rs[i].StoredKey() != k) ==> StoreAll(h, rs)[k] == h[k]
    decreases |rs|
  {
    if rs != [] {
      var h', tl := h[rs[0].StoredKey() := rs[0].StoredValue()], rs[1..];
      assert forall i :: 0 <= i < |tl| ==> tl[i] == rs[i + 1];
      StoreAllValue(h', tl);
      forall k
        ensures k in StoreAll(h, rs) <==> k in h || exists i :: 0 <= i < |rs| && rs[i].StoredKey() == k
      {
        if i :| 0 <= i < |rs| && rs[i].StoredKey() == k {
          if i > 0 { assert tl[i - 1].StoredKey() == k; }
        }
        if i :| 0 <= i < |tl| && tl[i].StoredKey() == k { assert rs[i + 1].StoredKey() == k; }
      }
      forall i | 0 <= i < |rs|
        ensures StoreAll(h, rs)[rs[i].StoredKey()] == rs[i].StoredValue()
      {
        if i > 0 { assert tl[i - 1] == rs[i]; }
      }
    }
  }

  /** A list that holds every pair of a map of C strings once, in any order. */
  ghost predicate Lists(rs: seq<Record>, m: map<Bytes, Bytes>)
  {
    && (forall i, j :: 0 <= i < j < |rs| ==> rs[i].StoredKey() != rs[j].StoredKey())
    && (forall i :: 0 <= i < |rs| ==>
          rs[i].Ok() && rs[i].StoredKey() in m && m[rs[i].StoredKey()] == rs[i].StoredValue())
    && (forall k :: k in m ==> exists i :: 0 <= i < |rs| && rs[i].StoredKey() == k)
  }

  const START: State := State(None, [], false, map[])

  /** No key of the table, and not the key being read, begins with `@`. */
  ghost predicate NoAt(st: State)
  {
    && (st.key.Some? ==> At(st.key.value, 0) != AT)
    && forall k :: k in st.h ==> At(k, 0) != AT
  }

  /** Whatever is read, no key begins with `@`. */
  lemma {:induction false} NoAtKept(st: State, rs: seq<Record>)
    requires NoAt(st) && Clean(st) && forall i :: 0 <= i < |rs| ==> rs[i].Ok()
    ensures var r := FromStream(st, Text(rs)); r == Garbled || (r.Loaded? && forall k :: k in r.h ==> At(k, 0) != AT)
    decreases |rs|
  {
    if rs != [] {
      var r := rs[0];
      assert NoAt(Finish(st));
      assert NoAt(After(st, r.key, r.text));
      hide FromStream, Field, Field64, After, Finish, Binary;
      if !Binary(r.text) {
        TextHasNoNul(r.text);
        FieldIsRead(st, r.key, r.text, Text(rs[1..]));
        AfterClean(st, r);
        hide NoAt;
        NoAtKept(After(st, r.key, r.text), rs[1..]);
      } else if r.key[0] == AT {
        var st' := Field64IsData(st, r.key, r.text, Text(rs[1..]));
        NoAtKept(st', rs[1..]);
      } else {
        NothingIsText();
        Field64IsRead(st, r.key, r.text, Text(rs[1..]));
      }
    }
  }

  /**
   hash_fromStream() of what hash_toStream() wrote is the map that was written,
   exactly when no key begins with `@`, which is not escaped there, and no value
   goes out as base64.
   */
  lemma RoundTripExactly(m: map<Bytes, Bytes>, rs: seq<Record>)
    requires Lists(rs, m)
    ensures FromStream(START, Text(rs)) == Loaded(m) <==> (forall k :: k in m ==> At(k, 0) != AT) && AllText(rs)
  {
    hide FromStream, Text, StoreAll, LineLength, AllText;
    if forall k :: k in m ==> At(k, 0) != AT {
      forall i | 0 <= i < |rs|
        ensures rs[i].key[0] != AT
      {
        assert At(rs[i].StoredKey(), 0) == rs[i].key[0];
      }
      if AllText(rs) {
        RecordsAreRead(START, rs);
        StoreAllValue(map[], rs);
        var h := StoreAll(map[], rs);
        assert h.Keys == m.Keys;
        assert h == m;
      } else {
        BinaryGarbles(START, rs);
      }
    } else {
      NoAtKept(START, rs);
    }
  }
}
