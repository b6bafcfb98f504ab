/** The texts of the web, hash string and hash file codecs in characters. */
module CodecText {
  import opened Wrappers
  import opened Bits
  import opened WebEncode
  import Base64
  import HashFile
  import HashStr

  type Bytes = seq<byte>

  const CAPITALS: string := "ABCDEFGHIJKLMNOPQRSTUVWXYZ"
  const SMALL: string := "abcdefghijklmnopqrstuvwxyz"
  const DIGITS: string := "0123456789"
  const OTHERS: string := "-_.~/@"
  const HEX: string := "0123456789abcdef"
  const HEX_CAPITALS: string := "0123456789ABCDEF"

  // ------------------------------------------------------------------ webencode()

  lemma HexIs(d: int)
    requires 0 <= d < 16
    ensures |HEX| == |HEX_CAPITALS| == 16
    ensures Hex(d) == HEX[d] as int
    ensures HexValue(HEX[d] as int) == d && HexValue(HEX_CAPITALS[d] as int) == d
  {
  }

  lemma PlainIs(c: byte)
    ensures Plain(c) <==> c as char in CAPITALS || c as char in SMALL || c as char in DIGITS || c as char in OTHERS
  {
    Capital(c);
    SmallLetter(c);
    DecimalDigit(c);
  }

  lemma Capital(c: byte)
    ensures c as char in CAPITALS <==> 0x41 <= c <= 0x5A
  {
    if 0x41 <= c <= 0x5A { assert CAPITALS[c - 0x41] == c as char; }
  }

  lemma SmallLetter(c: byte)
    ensures c as char in SMALL <==> 0x61 <= c <= 0x7A
  {
    if 0x61 <= c <= 0x7A { assert SMALL[c - 0x61] == c as char; }
  }

  lemma DecimalDigit(c: byte)
    ensures c as char in DIGITS <==> 0x30 <= c <= 0x39
  {
    if 0x30 <= c <= 0x39 { assert DIGITS[c - 0x30] == c as char; }
  }

  /** The text of one byte. */
  function ByteText(c: byte): Bytes
  {
    if c as char == ' ' then ['+' as int]
    else if c as char in CAPITALS || c as char in SMALL || c as char in DIGITS || c as char in OTHERS then [c]
    else ['%' as int, HEX[c / 16] as int, HEX[c % 16] as int]
  }

  lemma ByteTextIs(c: byte)
    ensures EncodeByte(c) == ByteText(c)
  {
    hide Plain, Hex;
    PlainIs(c);
    HexIs(c / 16);
    HexIs(c % 16);
  }

  function BytesText(v: Bytes): Bytes
  {
    if v == [] then [] else ByteText(v[0]) + BytesText(v[1..])
  }

  /** The bytes one after the other, a NUL at the end left out, and "%FF" where there is none. */
  lemma {:induction false} EncodedText(v: Bytes)
    ensures Encode(v) ==
            if v != [] && v[|v| - 1] == 0 then BytesText(v[..|v| - 1])
            else BytesText(v) + ['%' as int, 'F' as int, 'F' as int]
  {
    hide ByteText, EncodeByte;
    if v != [] {
      ByteTextIs(v[0]);
      EncodedText(v[1..]);
      if |v| == 1 {
        assert v == [v[0]];
        assert ByteText(v[0]) + [] == ByteText(v[0]);
      } else {
        assert v[1..][|v| - 2] == v[|v| - 1];
        assert v[..|v| - 1][1..] == v[1..][..|v| - 2];
      }
    }
  }

  /** An escape of two digits, small or capital, is read as its byte, except for "%FF". */
  lemma EscapeIsRead(a: byte, b: byte, i: int, j: int, rest: Bytes)
    requires 0 <= i < 16 && 0 <= j < 16 && |HEX| == |HEX_CAPITALS| == 16
    requires (a == HEX[i] as int || a == HEX_CAPITALS[i] as int) && (b == HEX[j] as int || b == HEX_CAPITALS[j] as int)
    ensures Read(['%' as int, a, b] + rest) == if a == b == 'F' as int then Mark else Byte(3, 16 * i + j)
  {
    hide HexValue;
    HexIs(i);
    HexIs(j);
    var s := ['%' as int, a, b] + rest;
    assert At(s, 0) == '%' as int && At(s, 1) == a && At(s, 2) == b;
    assert At(s[1..], 0) == a && At(s[1..], 1) == b;
    HexDigit(a, i);
  }

  lemma HexDigit(a: byte, i: int)
    requires HexValue(a) == i >= 0
    ensures !White(a) && a != '+' as int && a != '-' as int
  {
  }

  /** `+` is a space, and every other character that is no stop and no escape is itself. */
  lemma CharacterIsRead(c: byte, rest: Bytes)
    requires c != 0 && c != '&' as int && c != '=' as int && c != '%' as int
    ensures Read([c] + rest) == Byte(1, if c == '+' as int then ' ' as int else c)
  {
    assert At([c] + rest, 0) == c;
  }

  /** What ends a text. */
  lemma StopIs(c: byte)
    ensures Stop(c) <==> c == 0 || c == '&' as int || c == '=' as int
  {
  }

  // ------------------------------------------------------------------ hash_toStr()

  /** "key=value", with "&" between neighbours. */
  lemma {:induction false} PrintedText(es: seq<HashStr.Entry>, e: HashStr.Entry)
    ensures HashStr.Print([]) == []
    ensures HashStr.Print(es + [e]) ==
            (if es == [] then [] else HashStr.Print(es) + ['&' as int]) + Encode(e.key) + ['=' as int] + Encode(e.value)
  {
    hide Encode;
    if es == [] {
      assert es + [e] == [e];
      assert [] + Encode(e.key) == Encode(e.key);
    } else {
      PrintedText(es[1..], e);
      assert (es + [e])[1..] == es[1..] + [e];
    }
  }

  // ------------------------------------------------------------- hash_toStream()

  /** A byte of a key: what webdecode() takes for something else is escaped. */
  function KeyText(c: byte): Bytes
  {
    if c as char == ' ' then ['+' as int]
    else if c as char in "%+&=\n" then ['%' as int, HEX[c / 16] as int, HEX[c % 16] as int]
    else [c]
  }

  lemma KeyIs(c: byte, rest: Bytes)
    ensures HashFile.KeyEncode([c] + rest) == KeyText(c) + HashFile.KeyEncode(rest) && HashFile.KeyEncode([]) == []
  {
    hide Hex;
    HexIs(c / 16);
    HexIs(c % 16);
    assert ([c] + rest)[1..] == rest;
  }

  /** Every `@` that begins a line is doubled; `start` says that t stands at the beginning of one. */
  function Doubled(t: Bytes, start: bool): Bytes
    decreases |t|
  {
    if t == [] then []
    else (if start && t[0] == '@' as int then ['@' as int] else []) + [t[0]] + Doubled(t[1..], t[0] == '\n' as int)
  }

  /** From inside a line nothing is doubled up to its end. */
  lemma {:induction false} RestOfLine(t: Bytes, k: nat)
    requires 0 < k <= |t| && (forall i :: 0 <= i < k - 1 ==> t[i] != '\n' as int)
    requires k == |t| || t[k - 1] == '\n' as int
    ensures Doubled(t, false) == t[..k] + Doubled(t[k..], true)
    decreases k
  {
    var u := t[1..];
    if k == 1 {
      assert t[..1] == [t[0]];
    } else {
      RestOfLine(u, k - 1);
      assert u[k - 1..] == t[k..] && [t[0]] + u[..k - 1] == t[..k];
    }
    if k == |t| { assert t[k..] == []; }
  }

  lemma {:induction false} EscapeIs(t: Bytes)
    ensures HashFile.Escape(t) == Doubled(t, true)
    decreases |t|
  {
    hide HashFile.LineLength;
    if t != [] {
      var k := HashFile.FirstLine(t);
      EscapeIs(t[k..]);
      RestOfLine(t, k);
      DoubledStart(t);
      Together(HashFile.AtTwice(t[0]), t[..k], Doubled(t[k..], true));
    }
  }

  lemma DoubledStart(t: Bytes)
    requires t != []
    ensures Doubled(t, true) == HashFile.AtTwice(t[0]) + Doubled(t, false)
  {
    Together(HashFile.AtTwice(t[0]), [t[0]], Doubled(t[1..], t[0] == '\n' as int));
    assert [] + [t[0]] == [t[0]];
  }

  lemma Together(a: Bytes, b: Bytes, c: Bytes)
    ensures a + b + c == a + (b + c)
  {
  }

  /** A record of text: "@key", the lines of the value if there is one, and a newline. */
  lemma FieldText(key: Bytes, t: Bytes)
    ensures HashFile.Field(key, t) ==
            ['@' as int] + HashFile.KeyEncode(key)
            + (if t == [] then [] else ['\n' as int] + Doubled(t, true)) + ['\n' as int]
  {
    EscapeIs(t);
  }

  /** A record in base64: "@key base64", and 48 bytes in every line. */
  lemma FieldText64(key: Bytes, t: Bytes)
    ensures HashFile.Field64(key, t) ==
            ['@' as int] + HashFile.KeyEncode(key)
            + [' ' as int, 'b' as int, 'a' as int, 's' as int, 'e' as int, '6' as int, '4' as int] + ['\n' as int]
            + HashFile.Chunks(t) + ['\n' as int]
    ensures |t| > 48 ==>
      HashFile.Chunks(t) == Base64.Encode(t[..48], 0) + ['\n' as int] + HashFile.Chunks(t[48..])
    ensures 0 < |t| <= 48 ==> HashFile.Chunks(t) == Base64.Encode(t, 0) + ['\n' as int]
    ensures HashFile.Chunks([]) == []
  {
    hide Base64.Encode;
    if 0 < |t| <= 48 { assert t[..|t|] == t && t[|t|..] == []; }
  }

  /** A single byte goes out as text if it is printable or white space. */
  lemma BinaryByte(c: byte)
    ensures HashFile.Binary([c]) <==> !(0x20 <= c <= 0x7E || 0x09 <= c <= 0x0D)
  {
    if 0x20 <= c <= 0x7E || 0x09 <= c <= 0x0D {
      forall s, e | HashFile.LineAt([c], s, e)
        ensures !HashFile.TooLong(s, e)
      {
      }
    } else {
      assert !HashFile.Printable([c][0]);
    }
  }

  /** A line of text may have 256 characters, behind a newline 255. */
  lemma BinaryLine(t: Bytes)
    requires forall i :: 0 <= i < |t| ==> 0x20 <= t[i] <= 0x7E
    ensures HashFile.Binary(t) <==> |t| > 256
    ensures HashFile.Binary(['\n' as int] + t) <==> |t| > 255
  {
    var u := ['\n' as int] + t;
    assert forall i :: 0 <= i < |t| ==> u[i + 1] == t[i];
    assert HashFile.LineAt(t, 0, |t|) && HashFile.LineAt(u, 1, |u|);
    assert forall i :: 0 <= i < |u| ==> HashFile.Printable(u[i]);
    assert HashFile.TooLong(0, |t|) <==> |t| > 256;
    assert HashFile.TooLong(1, |u|) <==> |t| > 255;
  }
}
