/** The imperative forms of shellquote() and shellSplit(), with their buffers. */
module ShellMethods {
  import opened Seqs
  import opened Wrappers
  import opened Shell

  // -------------------------------------------------------------- shellquote

  function EscapedCount(s: string): (n: nat)
    ensures |Escape(s)| == |s| + n
  {
    if s == "" then 0 else EscapedCount(s[..|s| - 1]) + if Escaped(s[|s| - 1]) then 1 else 0
  }

  lemma {:induction false} EscapeSplits(s: string, i: nat)
    requires i < |s|
    ensures Escape(s[..i + 1]) == Escape(s[..i]) + (if Escaped(s[i]) then "\\" else "") + [s[i]]
    ensures EscapedCount(s[..i + 1]) == EscapedCount(s[..i]) + if Escaped(s[i]) then 1 else 0
  {
    assert s[..i + 1][..i] == s[..i];
  }

  /** strcspn(): how many characters from `from` on are outside the set. */
  method Strcspn(s: string, from: nat, set_: string) returns (n: nat)
    requires from <= |s|
    ensures from + n <= |s| && (forall i :: from <= i < from + n ==> s[i] !in set_)
    ensures from + n < |s| ==> s[from + n] in set_
  {
    n := 0;
    while from + n < |s| && s[from + n] !in set_
      invariant from + n <= |s| && forall i :: from <= i < from + n ==> s[i] !in set_
    {
      n := n + 1;
    }
  }

  method ShellQuote(s: string) returns (r: string)
    ensures r == Quote(s)
  {
    // handle simple case
    var n := Strcspn(s, 0, " \t\n\r'\"<>|$&;[]*()\\");
    if n == |s| { return s; }
    assert Quoting(s[n]);
    var nlen := |s| + 2 + 1;  // quotes + null
    for i := 0 to |s|
      invariant nlen == |s| + 3 + EscapedCount(s[..i])
    {
      EscapeSplits(s, i);
      if s[i] == '"' || s[i] == '\\' { nlen := nlen + 1; }
    }
    assert s[..|s|] == s;
    var out := new char[nlen];
    FillQuoted(out, s);
    assert |Quote(s)| == nlen - 1;
    return out[..nlen - 1];
  }

  /** The copying loop of shellquote(), into a buffer of exactly the right size. */
  method FillQuoted(out: array<char>, s: string)
    requires out.Length == |Escape(s)| + 3
    modifies out
    ensures out[..out.Length - 1] == "\"" + Escape(s) + "\"" && out[out.Length - 1] == '\0'
  {
    hide Escape;
    out[0] := '"';
    NoEscape();
    var t, i := 1, 0;
    while i < |s|
      invariant 0 <= i <= |s| && t == 1 + |Escape(s[..i])| <= out.Length - 2
      invariant out[..t] == "\"" + Escape(s[..i])
    {
      EscapeSplits(s, i);
      Fits(s, i + 1);
      t := PutEscaped(out, t, s[i], "\"" + Escape(s[..i]));
      Regroup("\"", Escape(s[..i]), if Escaped(s[i]) then "\\" else "", [s[i]]);
      i := i + 1;
    }
    assert s[..|s|] == s;
    out[t] := '"';
    t := t + 1;
    out[t] := '\0';
    assert out[..t] == out[..t - 1] + "\"";
  }

  /** One character, behind a backslash if it needs one. */
  method PutEscaped(out: array<char>, t: nat, c: char, ghost done: string) returns (t': nat)
    requires t + 1 < out.Length && out[..t] == done
    modifies out
    ensures t' == t + (if Escaped(c) then 2 else 1) && out[..t'] == done + (if Escaped(c) then "\\" else "") + [c]
  {
    t' := t;
    if c == '"' || c == '\\' {
      out[t'] := '\\';
      t' := t' + 1;
      assert out[..t'] == done + "\\";
    } else {
      assert done + "" == done;
    }
    ghost var with := out[..t'];
    out[t'] := c;
    t' := t' + 1;
    assert out[..t'] == with + [c];
  }

  lemma Regroup(a: string, b: string, c: string, d: string)
    ensures (a + b) + c + d == a + (b + c + d)
  {
  }

  lemma NoEscape()
    ensures Escape("") == ""
  {
  }

  /** Escapes of a front take no more room than those of the whole. */
  lemma {:induction false} Fits(s: string, i: nat)
    requires i <= |s|
    ensures |Escape(s[..i])| <= |Escape(s)|
    decreases |s| - i
  {
    if i < |s| {
      Fits(s, i + 1);
      EscapeSplits(s, i);
    } else {
      assert s[..i] == s;
    }
  }

  // -------------------------------------------------------------- shellSplit

  /** BUF_RESIZE: double the buffer until `extra` more characters fit behind pout. */
  method BufResize(buf: array<char>, pout: nat, extra: nat) returns (r: array<char>)
    requires pout <= buf.Length && buf.Length > 0
    ensures r == buf || fresh(r)
    ensures pout + extra <= r.Length && r.Length >= buf.Length && r[..pout] == buf[..pout]
  {
    r := buf;
    while pout > r.Length - extra
      invariant r == buf || fresh(r)
      invariant pout <= r.Length && r.Length >= buf.Length && r[..pout] == buf[..pout]
      decreases pout + extra - r.Length
    {
      var newbuf := new char[2 * r.Length];
      forall i | 0 <= i < pout { newbuf[i] := r[i]; }
      assert newbuf[..pout] == r[..pout];
      r := newbuf;
    }
  }

  /** strncpy(&buf[pout], text) */
  method Copy(buf: array<char>, pout: nat, text: string)
    requires pout + |text| <= buf.Length
    modifies buf
    ensures buf[..pout + |text|] == old(buf[..pout]) + text
  {
    forall i | 0 <= i < |text| { buf[pout + i] := text[i]; }
    assert buf[pout..pout + |text|] == text;
    assert buf[..pout + |text|] == buf[..pout] + buf[pout..pout + |text|];
  }

  /** The text before what DoubleQuoted still has to read. */
  function Glue(u: string, q: Option<(string, string)>): Option<(string, string)>
  {
    if q.None? then None else Some((u + q.value.0, q.value.1))
  }

  lemma {:induction false} PlainBlock(s: string, n: nat)
    requires n <= |s| && forall i :: 0 <= i < n ==> s[i] != '"' && s[i] != '\\'
    ensures DoubleQuoted(s) == Glue(s[..n], DoubleQuoted(s[n..]))
  {
    if n == 0 {
      assert s[0..] == s;
      assert forall u: string :: "" + u == u;
    } else {
      PlainBlock(s[1..], n - 1);
      assert s[1..][n - 1..] == s[n..] && s[..n] == [s[0]] + s[1..][..n - 1];
      GlueTwice([s[0]], s[1..][..n - 1], DoubleQuoted(s[n..]));
    }
  }

  lemma GlueTwice(a: string, b: string, q: Option<(string, string)>)
    ensures Glue(a, Glue(b, q)) == Glue(a + b, q)
  {
    if q.Some? { assert a + (b + q.value.0) == a + b + q.value.0; }
  }

  /** One round of the loop over a double-quoted string: a block of plain text, then a backslash if there is one. */
  method DoubleQuotedRound(line: string, pin0: nat, buf0: array<char>, pout0: nat)
    returns (pin: nat, buf: array<char>, pout: nat, ghost u: string)
    requires pin0 < |line| && line[pin0] != '"' && pout0 <= buf0.Length && buf0.Length > 0
    modifies buf0
    ensures buf == buf0 || fresh(buf)
    ensures pin0 < pin <= |line| && pout <= buf.Length && buf.Length >= buf0.Length
    ensures buf[..pout] == old(buf0[..pout0]) + u
    ensures DoubleQuoted(line[pin0..]) == Glue(u, DoubleQuoted(line[pin..]))
  {
    hide DoubleQuoted, Glue;
    ghost var was := buf0[..pout0];
    var n := Strcspn(line, pin0, "\"\\");
    pin := pin0 + n;
    buf := BufResize(buf0, pout0, n + 1);
    Copy(buf, pout0, line[pin0..pin]);
    pout := pout0 + n;
    u := line[pin0..pin];
    PlainBlock(line[pin0..], n);
    assert line[pin0..][n..] == line[pin..] && line[pin0..][..n] == u;
    if pin < |line| && line[pin] == '\\' {
      BackslashStep(line, pin);
      if pin + 1 < |line| && (line[pin + 1] == '\\' || line[pin + 1] == '"') {
        pin := pin + 1;
      }
      buf[pout] := line[pin];
      assert buf[..pout + 1] == buf[..pout] + [line[pin]];
      GlueTwice(u, [line[pin]], DoubleQuoted(line[pin + 1..]));
      Associate(was, u, [line[pin]]);
      u := u + [line[pin]];
      pout, pin := pout + 1, pin + 1;
    }
  }

  /** The loop over a double-quoted string that starts at pin0. */
  method ReadDoubleQuoted(line: string, pin0: nat, buf0: array<char>, pout0: nat)
    returns (ok: bool, pin: nat, buf: array<char>, pout: nat)
    requires pin0 <= |line| && pout0 <= buf0.Length && buf0.Length > 0
    modifies buf0
    ensures buf == buf0 || fresh(buf)
    ensures ok <==> DoubleQuoted(line[pin0..]).Some?
    ensures ok ==>
      var q := DoubleQuoted(line[pin0..]).value;
      && pin <= |line| && line[pin..] == q.1
      && pout <= buf.Length && buf.Length >= buf0.Length && buf[..pout] == old(buf0[..pout0]) + q.0
  {
    hide DoubleQuoted;
    pin, buf, pout := pin0, buf0, pout0;
    ghost var was, u := buf0[..pout0], "";
    assert was + u == was;
    GlueNothing(DoubleQuoted(line[pin0..]));
    while pin < |line| && line[pin] != '"'
      invariant pin0 <= pin <= |line| && pout <= buf.Length && buf.Length >= buf0.Length
      invariant buf == buf0 || fresh(buf)
      invariant buf[..pout] == was + u
      invariant DoubleQuoted(line[pin0..]) == Glue(u, DoubleQuoted(line[pin..]))
      decreases |line| - pin
    {
      ghost var v;
      pin, buf, pout, v := DoubleQuotedRound(line, pin, buf, pout);
      GlueTwice(u, v, DoubleQuoted(line[pin..]));
      assert was + u + v == was + (u + v);
      u := u + v;
    }
    ok := pin < |line|;
    ClosingQuote(line, pin);
    assert u + "" == u;
    if ok { pin := pin + 1; }
  }

  lemma GlueNothing(q: Option<(string, string)>)
    ensures Glue("", q) == q
  {
    if q.Some? { assert "" + q.value.0 == q.value.0; }
  }

  lemma ClosingQuote(line: string, pin: nat)
    requires pin <= |line|
    ensures pin == |line| ==> DoubleQuoted(line[pin..]) == None
    ensures pin < |line| && line[pin] == '"' ==> DoubleQuoted(line[pin..]) == Some(("", line[pin + 1..]))
  {
    if pin < |line| { assert line[pin..][1..] == line[pin + 1..]; }
  }

  lemma BackslashStep(line: string, pin: nat)
    requires pin < |line| && line[pin] == '\\'
    ensures var n := if pin + 1 < |line| && (line[pin + 1] == '\\' || line[pin + 1] == '"') then 1 else 0;
            DoubleQuoted(line[pin..]) == Glue([line[pin + n]], DoubleQuoted(line[pin + n + 1..]))
  {
    var s := line[pin..];
    assert s[1..] == line[pin + 1..];
    if |s| > 1 { assert s[2..] == line[pin + 2..]; }
  }

  /** strchr(&line[from], '\''): |line| if there is none. */
  method FindSingleQuote(line: string, from: nat) returns (ein: nat)
    requires from <= |line|
    ensures ein == from + SingleQuote(line[from..]) <= |line|
  {
    ein := from;
    while ein < |line| && line[ein] != '\''
      invariant from <= ein <= |line|
      invariant SingleQuote(line[from..]) == ein - from + SingleQuote(line[ein..])
    {
      assert line[ein..][1..] == line[ein + 1..];
      ein := ein + 1;
    }
  }

  /** The unfinished token in the buffer. */
  ghost function Current(item: bool, buf: array<char>, pout: nat): Option<string>
    requires pout <= buf.Length
    reads buf
  {
    if item then Some(buf[..pout]) else None
  }

  /** SAVE_ITEM: the token goes on the list, its two NULs fit into the buffer, and the buffer is reset. */
  method SaveItem(item: bool, buf: array<char>, pout: nat) returns (saved: seq<Item>, pout': nat)
    requires pout + 2 <= buf.Length && (!item ==> pout == 0)
    modifies buf
    ensures saved == Flush(old(Current(item, buf, pout))) && pout' == 0
  {
    saved, pout' := [], 0;
    if item {
      saved := [Item(buf[..pout], false)];
      buf[pout] := '\0';
      buf[pout + 1] := '\0';
    }
  }

  /** A default character, or a redirection with a file descriptor in front. */
  method ReadOrdinary(line: string, pin: nat, item: bool, buf: array<char>, pout: nat)
    returns (saved: seq<Item>, pin': nat, item': bool, pout': nat)
    requires pin < |line| && pout + 2 <= buf.Length && (!item ==> pout == 0)
    modifies buf
    ensures pin < pin' <= |line| && pout' < buf.Length && (!item' ==> pout' == 0)
    ensures Ordinary(line[pin..], old(Current(item, buf, pout)))
            == Prepend(saved, Split(line[pin'..], Current(item', buf, pout')))
  {
    hide Split;
    ghost var s, cur := line[pin..], Current(item, buf, pout);
    if Digit(line[pin]) && (At(line, pin + 1) == '<' || At(line, pin + 1) == '>') {
      var c := 2;
      if At(line, pin + 2) == '&' && Digit(At(line, pin + 3)) { c := 4; }
      assert Redirect(s) == c;
      saved, pout' := SaveItem(item, buf, pout);
      saved := saved + [Item(line[pin..pin + c], true)];
      pin', item' := pin + c, false;
      assert s[..c] == line[pin..pin + c] && s[c..] == line[pin + c..];
    } else {
      assert Redirect(s) == 0;
      buf[pout] := line[pin];
      assert buf[..pout + 1] == buf[..pout] + [line[pin]];
      saved, pin', item', pout' := [], pin + 1, true, pout + 1;
      assert s[1..] == line[pin + 1..] && s[..1] == [line[pin]];
      if !item { assert "" + s[..1] == s[..1] == [] + s[..1]; }
      PrependNothing(Split(line[pin'..], Current(item', buf, pout')));
    }
  }

  lemma PrependNothing(r: Result)
    ensures Prepend([], r) == r
  {
    if r.Items? { assert [] + r.items == r.items; }
  }

  lemma PrependTwice(a: seq<Item>, b: seq<Item>, r: Result)
    ensures Prepend(a, Prepend(b, r)) == Prepend(a + b, r)
  {
    if r.Items? { assert a + (b + r.items) == a + b + r.items; }
  }

  /** A single-quoted string; false without a closing quote. */
  method ReadSingle(line: string, pin: nat, item: bool, buf0: array<char>, pout: nat)
    returns (ok: bool, pin': nat, buf: array<char>, pout': nat)
    requires pin < |line| && line[pin] == '\'' && pout + 2 <= buf0.Length && (!item ==> pout == 0)
    modifies buf0
    ensures buf == buf0 || fresh(buf)
    ensures var before := Split(line[pin..], old(Current(item, buf0, pout)));
            if ok then
              && pin < pin' <= |line| && pout' <= buf.Length && buf.Length > 0
              && before == Split(line[pin'..], Some(buf[..pout']))
            else before == Exit
  {
    hide Split, SingleQuote;
    ghost var s, cur := line[pin..], Current(item, buf0, pout);
    SplitStep(s, cur);
    assert s[1..] == line[pin + 1..];
    ok, pin', buf, pout' := true, pin + 1, buf0, pout;
    var ein := FindSingleQuote(line, pin');
    if ein == |line| { return false, pin', buf, pout'; }
    var n := ein - pin';
    buf := BufResize(buf, pout, n);
    Copy(buf, pout, line[pin'..ein]);
    pout', pin' := pout + n, ein + 1;
    assert s[1..n + 1] == line[pin + 1..ein] && s[n + 2..] == line[ein + 1..];
    Unflushed(item, cur, line[pin + 1..ein], buf[..pout']);
  }

  /** A double-quoted string; false without a closing quote. */
  method ReadDouble(line: string, pin: nat, item: bool, buf0: array<char>, pout: nat)
    returns (ok: bool, pin': nat, buf: array<char>, pout': nat)
    requires pin < |line| && line[pin] == '"' && pout + 2 <= buf0.Length && (!item ==> pout == 0)
    modifies buf0
    ensures buf == buf0 || fresh(buf)
    ensures var before := Split(line[pin..], old(Current(item, buf0, pout)));
            if ok then
              && pin < pin' <= |line| && pout' <= buf.Length && buf.Length > 0
              && before == Split(line[pin'..], Some(buf[..pout']))
            else before == Exit
  {
    hide Split, DoubleQuoted;
    ghost var s, cur := line[pin..], Current(item, buf0, pout);
    SplitStep(s, cur);
    assert s[1..] == line[pin + 1..];
    ok, pin', buf, pout' := ReadDoubleQuoted(line, pin + 1, buf0, pout);
    if ok {
      Unflushed(item, cur, DoubleQuoted(s[1..]).value.0, buf[..pout']);
      assert |line[pin'..]| < |s|;
    }
  }

  /** A shell meta character: '>', '>>', '<' or '|'; false for '||'. */
  method ReadMeta(line: string, pin: nat, item: bool, buf: array<char>, pout: nat)
    returns (ok: bool, saved: seq<Item>, pin': nat)
    requires pin < |line| && line[pin] in "><|" && pout + 2 <= buf.Length && (!item ==> pout == 0)
    modifies buf
    ensures var before := Split(line[pin..], old(Current(item, buf, pout)));
            if ok then pin < pin' <= |line| && before == Prepend(saved, Split(line[pin'..], None))
            else before == Exit
  {
    hide Split;
    ghost var s, cur := line[pin..], Current(item, buf, pout);
    SplitStep(s, cur);
    assert At(s, 1) == At(line, pin + 1);
    ok, saved, pin' := true, [], pin;
    var n := 1;
    if line[pin] == '|' && At(line, pin + 1) == '|' { return false, [], pin; }
    if line[pin] == '>' && At(line, pin + 1) == '>' { n := 2; }
    var pout';
    saved, pout' := SaveItem(item, buf, pout);
    saved := saved + [Item(line[pin..pin + n], true)];
    pin' := pin + n;
    assert s[..n] == line[pin..pin + n] && s[n..] == line[pin'..];
  }

  /** One round of shellSplit()'s switch; false for exit(1). */
  method Round(line: string, pin: nat, item: bool, buf0: array<char>, pout: nat)
    returns (ok: bool, saved: seq<Item>, pin': nat, item': bool, buf: array<char>, pout': nat)
    requires pin < |line| && pout + 2 <= buf0.Length && (!item ==> pout == 0)
    modifies buf0
    ensures buf == buf0 || fresh(buf)
    ensures !ok ==> Split(line[pin..], old(Current(item, buf0, pout))) == Exit
    ensures ok ==>
      && pin < pin' <= |line| && pout' <= buf.Length && buf.Length > 0 && (!item' ==> pout' == 0)
      && Split(line[pin..], old(Current(item, buf0, pout)))
         == Prepend(saved, Split(line[pin'..], Current(item', buf, pout')))
  {
    hide Split, DoubleQuoted, SingleQuote, Ordinary, Prepend;
    ghost var s, cur := line[pin..], Current(item, buf0, pout);
    SplitStep(s, cur);
    assert s[0] == line[pin] && s[1..] == line[pin + 1..];
    ok, saved, pin', item', buf, pout' := true, [], pin, item, buf0, pout;
    var c := line[pin];
    if c == ' ' || c == '\t' || c == '\n' || c == '\r' {
      saved, pout' := SaveItem(item, buf, pout);
      pin', item' := pin + 1, false;
    } else if c == '\'' {
      ok, pin', buf, pout' := ReadSingle(line, pin, item, buf, pout);
      item' := true;
      if ok { PrependNothing(Split(line[pin'..], Some(buf[..pout']))); }
    } else if c == '"' {
      ok, pin', buf, pout' := ReadDouble(line, pin, item, buf, pout);
      item' := true;
      if ok { PrependNothing(Split(line[pin'..], Some(buf[..pout']))); }
    } else if c == '>' || c == '<' || c == '|' {
      ok, saved, pin' := ReadMeta(line, pin, item, buf, pout);
      item', pout' := false, 0;
    } else if c in "`$&;[]*()" {
      ok := false;
    } else if c == '\\' {
      pin' := pin + 1;
      if pin' < |line| {
        saved, pin', item', pout' := ReadOrdinary(line, pin', item, buf, pout);
      } else {
        assert line[pin'..] == "";
        PrependNothing(Split("", cur));
      }
    } else {
      saved, pin', item', pout' := ReadOrdinary(line, pin, item, buf, pout);
    }
  }

  lemma Unflushed(item: bool, cur: Option<string>, text: string, now: string)
    requires item <==> cur.Some?
    requires now == (if item then cur.value else "") + text
    ensures Add(cur, text) == Some(now)
  {
  }

  /**
   Split a command line into tokens like /bin/sh.  At every loop head at least two
   bytes of the buffer are free for the NULs of the token.
   */
  method ShellSplit(line: string) returns (r: Result)
    ensures r == Split(line, None)
  {
    hide Split;
    var buf := new char[128];
    var pin: nat, pout: nat, item := 0, 0, false;
    var ret: seq<Item> := [];
    assert line[0..] == line;
    PrependNothing(Split(line, None));
    while pin < |line|
      invariant 0 <= pin <= |line| && fresh(buf)
      invariant pout <= buf.Length - 2 && (!item ==> pout == 0)
      invariant Split(line, None) == Prepend(ret, Split(line[pin..], Current(item, buf, pout)))
      decreases |line| - pin
    {
      var ok, saved, buf';
      ghost var before := Split(line[pin..], Current(item, buf, pout));
      ok, saved, pin, item, buf', pout := Round(line, pin, item, buf, pout);
      if !ok { return Exit; }
      PrependTwice(ret, saved, Split(line[pin..], Current(item, buf', pout)));
      ret := ret + saved;
      buf := BufResize(buf', pout, 2);
    }
    assert line[pin..] == "";
    AtEnd(Current(item, buf, pout));
    var saved;
    saved, pout := SaveItem(item, buf, pout);
    return Items(ret + saved);
  }

  /** The promise of shellquote() as a run: quote each string, join with spaces, split. */
  method QuoteAndSplit(ss: seq<string>) returns (r: Result)
    ensures r == Items(seq(|ss|, i requires 0 <= i < |ss| => Item(ss[i], false)))
       <==> forall s :: s in ss ==> s != "" && ('`' in s ==> NeedsQuotes(s))
  {
    hide Split, Quote, NeedsQuotes;
    var line, i := "", |ss|;
    while i > 0
      invariant 0 <= i <= |ss| && line == Spaced(QuoteAll(ss[i..]))
    {
      i := i - 1;
      var q := ShellQuote(ss[i]);
      assert ss[i..][1..] == ss[i + 1..];
      assert QuoteAll(ss[i..]) == [q] + QuoteAll(ss[i + 1..]);
      assert ([q] + QuoteAll(ss[i + 1..]))[1..] == QuoteAll(ss[i + 1..]);
      line := if i == |ss| - 1 then q else q + " " + line;
    }
    assert ss[0..] == ss;
    r := ShellSplit(line);
    OriginalStringsReturned(ss);
  }
}
