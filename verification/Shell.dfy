/** shellquote() and shellSplit() of lines/lines.c. */
module Shell {
  import opened Wrappers

  // ----------------------------------------------------------- specification

  /** A token, with the flag shellSplit() hides behind its NUL: is it a shell meta function? */
  datatype Item = Item(text: string, meta: bool)

  /** The tokens, or exit(1) for an unmatched quote or an unhandled shell expression. */
  datatype Result = Items(items: seq<Item>) | Exit

  function Prepend(items: seq<Item>, r: Result): Result
  {
    if r.Exit? then Exit else Items(items + r.items)
  }

  /** The characters that make shellquote() quote. */
  predicate Quoting(c: char) { c in " \t\n\r'\"<>|$&;[]*()\\" }

  predicate NeedsQuotes(s: string) { exists i :: 0 <= i < |s| && Quoting(s[i]) }

  predicate Escaped(c: char) { c == '"' || c == '\\' }

  function Escape(s: string): (r: string)
    ensures |s| <= |r|
  {
    if s == "" then ""
    else Escape(s[..|s| - 1]) + (if Escaped(s[|s| - 1]) then "\\" else "") + [s[|s| - 1]]
  }

  function Quote(s: string): string
  {
    if NeedsQuotes(s) then "\"" + Escape(s) + "\"" else s
  }

  predicate White(c: char) { c == ' ' || c == '\t' || c == '\n' || c == '\r' }

  predicate Digit(c: char) { '0' <= c <= '9' }

  /** The character at i, NUL behind the end. */
  function At(s: string, i: nat): char { if i < |s| then s[i] else '\0' }

  function TakeChar(c: char, r: Option<(string, string)>): Option<(string, string)>
  {
    if r.None? then None else Some(([c] + r.value.0, r.value.1))
  }

  /** Inside double quotes: the text up to the closing quote, and what follows it. */
  function DoubleQuoted(s: string): (r: Option<(string, string)>)
    ensures r.Some? ==> |r.value.1| < |s|
  {
    if s == "" then None
    else if s[0] == '"' then Some(("", s[1..]))
    else
      var n := if s[0] == '\\' && (At(s, 1) == '\\' || At(s, 1) == '"') then 1 else 0;
      TakeChar(s[n], DoubleQuoted(s[n + 1..]))
  }

  /** Index of the next single quote; the length without one. */
  function SingleQuote(s: string): (n: nat)
    ensures n <= |s| && (n < |s| ==> s[n] == '\'') && (forall i :: 0 <= i < n ==> s[i] != '\'')
  {
    if s == "" || s[0] == '\'' then 0 else 1 + SingleQuote(s[1..])
  }

  function Flush(cur: Option<string>): seq<Item>
  {
    if cur.None? then [] else [Item(cur.value, false)]
  }

  function Add(cur: Option<string>, text: string): Option<string>
  {
    Some((if cur.None? then "" else cur.value) + text)
  }

  /** Length of a redirection that starts with a digit at the front of s; 0 without one. */
  function Redirect(s: string): nat
    requires s != ""
    ensures Redirect(s) <= |s|
  {
    if Digit(s[0]) && (At(s, 1) == '<' || At(s, 1) == '>') then
      if At(s, 2) == '&' && Digit(At(s, 3)) then 4 else 2
    else 0
  }

  /** The tokens of s, with the text of an unfinished token in `cur`. */
  function Split(s: string, cur: Option<string>): Result
    decreases |s|, 1
  {
    if s == "" then Items(Flush(cur))
    else if White(s[0]) then Prepend(Flush(cur), Split(s[1..], None))
    else if s[0] == '\'' then
      var n := SingleQuote(s[1..]);
      if n == |s| - 1 then Exit else Split(s[n + 2..], Add(cur, s[1..n + 1]))
    else if s[0] == '"' then
      var q := DoubleQuoted(s[1..]);
      if q.None? then Exit else Split(q.value.1, Add(cur, q.value.0))
    else if s[0] in "><|" then
      if s[0] == '|' && At(s, 1) == '|' then Exit
      else
        var n := if s[0] == '>' && At(s, 1) == '>' then 2 else 1;
        Prepend(Flush(cur) + [Item(s[..n], true)], Split(s[n..], None))
    else if s[0] in "`$&;[]*()" then Exit
    else if s[0] == '\\' then
      if |s| == 1 then Split("", cur) else Ordinary(s[1..], cur)
    else Ordinary(s, cur)
  }

  /** A character that stands for itself, unless it is a digit in front of a redirection. */
  function Ordinary(s: string, cur: Option<string>): Result
    requires s != ""
    decreases |s|, 0
  {
    var n := Redirect(s);
    if n > 0 then Prepend(Flush(cur) + [Item(s[..n], true)], Split(s[n..], None))
    else Split(s[1..], Add(cur, s[..1]))
  }

  /** The cases of Split, for proofs that take a single step. */
  lemma SplitStep(s: string, cur: Option<string>)
    requires s != ""
    ensures White(s[0]) ==> Split(s, cur) == Prepend(Flush(cur), Split(s[1..], None))
    ensures s[0] == '\'' ==>
      var n := SingleQuote(s[1..]);
      Split(s, cur) == if n == |s| - 1 then Exit else Split(s[n + 2..], Add(cur, s[1..n + 1]))
    ensures s[0] == '"' ==>
      var q := DoubleQuoted(s[1..]);
      Split(s, cur) == if q.None? then Exit else Split(q.value.1, Add(cur, q.value.0))
    ensures s[0] in "><|" ==>
      var n := if s[0] == '>' && At(s, 1) == '>' then 2 else 1;
      Split(s, cur) == if s[0] == '|' && At(s, 1) == '|' then Exit
                       else Prepend(Flush(cur) + [Item(s[..n], true)], Split(s[n..], None))
    ensures s[0] in "`$&;[]*()" ==> Split(s, cur) == Exit
    ensures s[0] == '\\' ==> Split(s, cur) == if |s| == 1 then Split("", cur) else Ordinary(s[1..], cur)
    ensures !White(s[0]) && s[0] !in "'\"><|`$&;[]*()\\" ==> Split(s, cur) == Ordinary(s, cur)
  {
    hide DoubleQuoted, SingleQuote, Ordinary;
  }

  // ------------------------------------------------------- the inverse property

  /** Strings joined by single spaces. */
  function Spaced(qs: seq<string>): string
  {
    if qs == [] then "" else if |qs| == 1 then qs[0] else qs[0] + " " + Spaced(qs[1..])
  }

  function QuoteAll(ss: seq<string>): (qs: seq<string>)
    ensures |qs| == |ss|
  {
    if ss == [] then [] else [Quote(ss[0])] + QuoteAll(ss[1..])
  }

  /** What shellquote() leaves unquoted and shellSplit() refuses. */
  predicate Refused(s: string) { '`' in s && !NeedsQuotes(s) }

  /** The list as literal tokens; an empty string leaves no token. */
  function Literals(ss: seq<string>): (items: seq<Item>)
    ensures |items| <= |ss|
  {
    if ss == [] then []
    else (if ss[0] == "" then [] else [Item(ss[0], false)]) + Literals(ss[1..])
  }

  /** What follows a quoted string in a joined list. */
  predicate Boundary(rest: string) { rest == "" || rest[0] == ' ' }

  lemma {:induction false} EscapeCons(c: char, s: string)
    ensures Escape([c] + s) == (if c == '"' || c == '\\' then "\\" else "") + [c] + Escape(s)
  {
    if s == "" {
      assert ([c] + s)[..0] == "" && [c] + s == [c];
    } else {
      var init, last := s[..|s| - 1], s[|s| - 1];
      assert ([c] + s)[..|s|] == [c] + init;
      EscapeCons(c, init);
    }
  }

  lemma QuotedStep(c: char, tail: string)
    ensures Escaped(c) ==> DoubleQuoted(['\\', c] + tail) == TakeChar(c, DoubleQuoted(tail))
    ensures !Escaped(c) ==> DoubleQuoted([c] + tail) == TakeChar(c, DoubleQuoted(tail))
  {
    assert (['\\', c] + tail)[2..] == tail && ([c] + tail)[1..] == tail;
  }

  /** The first character of an escaped text. */
  lemma EscapedLine(c: char, t: string, rest: string)
    ensures Escape([c] + t) + "\"" + rest ==
            (if Escaped(c) then ['\\', c] else [c]) + (Escape(t) + "\"" + rest)
  {
    hide Escape;
    EscapeCons(c, t);
    var e := Escape(t);
    assert "\\" + [c] == ['\\', c] && "" + [c] == [c];
    assert (if Escaped(c) then "\\" else "") + [c] + e + "\"" + rest ==
           (if Escaped(c) then "\\" else "") + [c] + (e + "\"" + rest);
  }

  lemma NothingQuoted(rest: string)
    ensures DoubleQuoted(Escape("") + "\"" + rest) == Some(("", rest))
  {
    assert "" + "\"" + rest == "\"" + rest && ("\"" + rest)[1..] == rest;
  }

  lemma {:induction false} QuotedText(s: string, rest: string)
    ensures DoubleQuoted(Escape(s) + "\"" + rest) == Some((s, rest))
  {
    hide DoubleQuoted, Escape, Escaped;
    if s == "" {
      NothingQuoted(rest);
    } else {
      var c, t := s[0], s[1..];
      assert s == [c] + t;
      QuotedText(t, rest);
      EscapedLine(c, t, rest);
      QuotedStep(c, Escape(t) + "\"" + rest);
    }
  }

  lemma PlainStep(line: string, cur: Option<string>)
    requires line != "" && !Quoting(line[0]) && line[0] != '`' && At(line, 1) != '<' && At(line, 1) != '>'
    ensures Split(line, cur) == Split(line[1..], Add(cur, line[..1]))
  {
    hide DoubleQuoted, SingleQuote;
  }

  lemma AddTwice(cur: Option<string>, s: string, t: string)
    ensures Add(Add(cur, s), t) == Add(cur, s + t)
  {
    var b := if cur.None? then "" else cur.value;
    assert b + s + t == b + (s + t);
  }

  /** A string without quoting characters and backquotes is read as it is. */
  lemma {:induction false} PlainText(s: string, rest: string, cur: Option<string>)
    requires s != "" && !NeedsQuotes(s) && '`' !in s && Boundary(rest)
    ensures Split(s + rest, cur) == Split(rest, Add(cur, s))
    decreases |s|
  {
    hide Split, Add;
    var line := s + rest;
    var t := s[1..];
    assert line[0] == s[0] && !Quoting(s[0]) && s[0] != '`';
    assert line[1..] == t + rest && line[..1] == s[..1];
    assert At(line, 1) != '<' && At(line, 1) != '>' by {
      if |s| > 1 { assert line[1] == s[1] && !Quoting(s[1]); }
    }
    PlainStep(line, cur);
    if t == "" {
      assert t + rest == rest && s[..1] == s;
    } else {
      assert forall i :: 0 <= i < |t| ==> t[i] == s[i + 1];
      PlainText(t, rest, Add(cur, s[..1]));
      AddTwice(cur, s[..1], t);
      assert s[..1] + t == s;
    }
  }

  /** The first backquote of a string without quoting characters ends everything. */
  lemma {:induction false} BackquoteExits(s: string, rest: string, cur: Option<string>)
    requires Refused(s)
    ensures Split(s + rest, cur) == Exit
    decreases |s|
  {
    var line := s + rest;
    var t := s[1..];
    assert line[0] == s[0] && !Quoting(s[0]);
    assert line[1..] == t + rest;
    if s[0] != '`' {
      assert s == [s[0]] + t;
      assert '`' in t && t != "";
      assert forall i :: 0 <= i < |t| ==> t[i] == s[i + 1];
      assert line[1] == s[1] && !Quoting(s[1]);
      BackquoteExits(t, rest, Add(cur, line[..1]));
    }
  }

  lemma AtQuote(t: string, rest: string, text: string)
    requires DoubleQuoted(t) == Some((text, rest))
    ensures Split("\"" + t, None) == Split(rest, Some(text))
  {
    assert ("\"" + t)[1..] == t;
    assert "" + text == text;
  }

  lemma AtSpace(rest: string, cur: Option<string>)
    ensures Split(" " + rest, cur) == Prepend(Flush(cur), Split(rest, None))
  {
    assert (" " + rest)[1..] == rest;
  }

  lemma AtEnd(cur: Option<string>)
    ensures Split("", cur) == Items(Flush(cur))
  {
  }

  /** One quoted string is read back as one literal. */
  lemma QuoteReadsBack(s: string, rest: string)
    requires Boundary(rest)
    ensures Split(Quote(s) + rest, None) ==
            if Refused(s) then Exit else if s == "" then Split(rest, None) else Split(rest, Some(s))
  {
    hide Split, NeedsQuotes, Escape, DoubleQuoted;
    if NeedsQuotes(s) {
      QuotedText(s, rest);
      AtQuote(Escape(s) + "\"" + rest, rest, s);
      assert Quote(s) + rest == "\"" + (Escape(s) + "\"" + rest);
      NotEmpty(s);
    } else if Refused(s) {
      BackquoteExits(s, rest, None);
    } else if s == "" {
      assert Quote(s) + rest == rest;
    } else {
      PlainText(s, rest, None);
      assert "" + s == s;
    }
  }

  lemma NotEmpty(s: string)
    requires NeedsQuotes(s)
    ensures s != ""
  {
  }

  predicate AnyRefused(ss: seq<string>)
  {
    exists i :: 0 <= i < |ss| && Refused(ss[i])
  }

  lemma AnyRefusedCons(s: string, ss: seq<string>)
    ensures AnyRefused([s] + ss) <==> Refused(s) || AnyRefused(ss)
  {
    hide Refused;
    var all := [s] + ss;
    assert all[0] == s && forall i :: 0 <= i < |ss| ==> all[i + 1] == ss[i];
    if AnyRefused(all) {
      var i :| 0 <= i < |all| && Refused(all[i]);
      assert i > 0 ==> Refused(ss[i - 1]);
    }
    if AnyRefused(ss) {
      var i :| 0 <= i < |ss| && Refused(ss[i]);
      assert Refused(all[i + 1]);
    }
  }

  /**
   Quoting each string, joining with spaces and splitting: exits exactly if some
   string is refused, and otherwise gives the non-empty strings as literals.
   */
  lemma {:induction false} SplitOfQuoted(ss: seq<string>)
    ensures Split(Spaced(QuoteAll(ss)), None) == if AnyRefused(ss) then Exit else Items(Literals(ss))
    decreases |ss|
  {
    hide Split, Refused, AnyRefused, Quote;
    if ss == [] {
      AtEnd(None);
      assert !AnyRefused([]) by { NoneRefused(); }
    } else {
      var s, rest := ss[0], Spaced(QuoteAll(ss[1..]));
      SplitOfQuoted(ss[1..]);
      AnyRefusedCons(s, ss[1..]);
      assert [s] + ss[1..] == ss;
      if |ss| == 1 {
        assert Quote(s) + "" == Quote(s);
        QuoteReadsBack(s, "");
        AtEnd(Some(s));
        AtEnd(None);
        NoneRefused();
      } else {
        assert QuoteAll(ss)[1..] == QuoteAll(ss[1..]);
        assert Spaced(QuoteAll(ss)) == Quote(s) + (" " + rest);
        QuoteReadsBack(s, " " + rest);
        AtSpace(rest, Some(s));
        AtSpace(rest, None);
        assert forall r: seq<Item> :: [] + r == r;
      }
    }
  }

  lemma NoneRefused()
    ensures !AnyRefused([])
  {
  }

  lemma {:induction false} LiteralsComplete(ss: seq<string>)
    ensures |Literals(ss)| == |ss| <==> "" !in ss
    ensures "" !in ss ==> forall i :: 0 <= i < |ss| ==> Literals(ss)[i] == Item(ss[i], false)
  {
    if ss != [] {
      LiteralsComplete(ss[1..]);
      assert ss == [ss[0]] + ss[1..];
    }
  }

  /** The promise of shellquote(), and exactly when it is kept. */
  lemma OriginalStringsReturned(ss: seq<string>)
    ensures Split(Spaced(QuoteAll(ss)), None) == Items(seq(|ss|, i requires 0 <= i < |ss| => Item(ss[i], false)))
            <==> forall s :: s in ss ==> s != "" && ('`' in s ==> NeedsQuotes(s))
  {
    hide Split, NeedsQuotes, Literals, Quote;
    SplitOfQuoted(ss);
    LiteralsComplete(ss);
    var want := seq(|ss|, i requires 0 <= i < |ss| => Item(ss[i], false));
    if forall s :: s in ss ==> s != "" && ('`' in s ==> NeedsQuotes(s)) {
      assert forall i :: 0 <= i < |ss| ==> ss[i] in ss;
      assert Literals(ss) == want;
    } else {
      var s :| s in ss && !(s != "" && ('`' in s ==> NeedsQuotes(s)));
      var i :| 0 <= i < |ss| && ss[i] == s;
      assert s == "" || Refused(ss[i]);
    }
  }

  // ------------------------------------------------------ strings and meta tokens

  /** A string that shellquote() quotes, or a token for the shell that is written as it is. */
  datatype Word = Quoted(s: string) | Meta(m: string)

  /** `>`, `>>`, `<`, `|`, and with digits m and n: `m>`, `m<`, `m>&n`, `m<&n`. */
  predicate IsMeta(m: string)
  {
    || m == ">" || m == ">>" || m == "<" || m == "|"
    || (|m| == 2 && '0' <= m[0] <= '9' && (m[1] == '>' || m[1] == '<'))
    || (|m| == 4 && '0' <= m[0] <= '9' && (m[1] == '>' || m[1] == '<') && m[2] == '&' && '0' <= m[3] <= '9')
  }

  predicate MetaOk(w: Word) { w.Meta? ==> IsMeta(w.m) }

  function Written(ws: seq<Word>): (qs: seq<string>)
    ensures |qs| == |ws|
  {
    if ws == [] then [] else [if ws[0].Meta? then ws[0].m else Quote(ws[0].s)] + Written(ws[1..])
  }

  /** The words as tokens; an empty string leaves none. */
  function TokensOf(ws: seq<Word>): (items: seq<Item>)
  {
    if ws == [] then []
    else
      (if ws[0].Meta? then [Item(ws[0].m, true)] else if ws[0].s == "" then [] else [Item(ws[0].s, false)])
      + TokensOf(ws[1..])
  }

  predicate SomeRefused(ws: seq<Word>)
  {
    ws != [] && ((ws[0].Quoted? && Refused(ws[0].s)) || SomeRefused(ws[1..]))
  }

  /** A redirection of a descriptor is found behind any text. */
  lemma DigitIsRead(m: string, rest: string)
    requires IsMeta(m) && Digit(m[0]) && Boundary(rest)
    ensures Split(m + rest, None) == Prepend([Item(m, true)], Split(rest, None))
  {
    hide Split;
    var s := m + rest;
    assert s[..|m|] == m && s[|m|..] == rest;
    assert At(s, |m|) != '&';
    assert Redirect(s) == |m|;
    SplitStep(s, None);
    assert [] + [Item(m, true)] == [Item(m, true)];
  }

  /** A meta token in front of a space or the end is one token. */
  lemma MetaIsRead(m: string, rest: string)
    requires IsMeta(m) && Boundary(rest)
    ensures Split(m + rest, None) == Prepend([Item(m, true)], Split(rest, None))
  {
    hide Split;
    if Digit(m[0]) {
      DigitIsRead(m, rest);
    } else {
      var s := m + rest;
      assert s[..|m|] == m && s[|m|..] == rest;
      assert At(s, |m|) != '>' && At(s, |m|) != '|';
      SplitStep(s, None);
      assert [] + [Item(m, true)] == [Item(m, true)];
    }
  }

  /** A word in front of a space or the end, which both end a string. */
  lemma WordIsRead(w: Word, rest: string)
    requires MetaOk(w) && Boundary(rest)
    ensures var q := Written([w])[0];
            Split(q + rest, None) ==
            if w.Quoted? && Refused(w.s) then Exit
            else if w.Quoted? && w.s != "" then Split(rest, Some(w.s))
            else Prepend(TokensOf([w]), Split(rest, None))
  {
    hide Split, Refused, Quote;
    if w.Meta? {
      MetaIsRead(w.m, rest);
    } else {
      QuoteReadsBack(w.s, rest);
    }
    assert forall r: seq<Item> :: [] + r == r && r + [] == r;
    NoItems(Split(rest, None));
  }

  lemma NoItems(r: Result)
    ensures Prepend([], r) == r
  {
    if r.Items? { assert [] + r.items == r.items; }
  }

  /** A word at the end, and one with more words behind it. */
  lemma LastWord(w: Word)
    requires MetaOk(w)
    ensures Split(Written([w])[0], None) == if w.Quoted? && Refused(w.s) then Exit else Items(TokensOf([w]))
  {
    hide Split, Refused, Quote, IsMeta, Written;
    var q := Written([w])[0];
    assert q + "" == q;
    WordIsRead(w, "");
    AtEnd(if w.Quoted? then Some(w.s) else None);
    AtEnd(None);
  }

  lemma WordAndMore(w: Word, rest: string)
    requires MetaOk(w)
    ensures Split(Written([w])[0] + (" " + rest), None) ==
            if w.Quoted? && Refused(w.s) then Exit else Prepend(TokensOf([w]), Split(rest, None))
  {
    hide Split, Refused, Quote, IsMeta, Written;
    WordIsRead(w, " " + rest);
    AtSpace(rest, if w.Quoted? then Some(w.s) else None);
    AtSpace(rest, None);
    NoItems(Split(rest, None));
  }

  lemma Prepended(a: seq<Item>, b: seq<Item>)
    ensures Prepend(a, Items(b)) == Items(a + b) && Prepend(a, Exit) == Exit
  {
  }

  lemma WrittenStep(ws: seq<Word>)
    requires ws != []
    ensures Written(ws) == [Written([ws[0]])[0]] + Written(ws[1..])
  {
    hide Quote;
    assert [ws[0]][1..] == [];
  }

  lemma SpacedStep(q: string, qs: seq<string>)
    requires qs != []
    ensures Spaced([q] + qs) == q + (" " + Spaced(qs))
  {
    assert ([q] + qs)[1..] == qs;
  }

  lemma TokensStep(ws: seq<Word>)
    requires ws != []
    ensures TokensOf([ws[0]]) + TokensOf(ws[1..]) == TokensOf(ws)
  {
    assert [ws[0]][1..] == [];
  }

  /**
   Strings and meta tokens, joined by spaces, are read in their order, with the flag
   that tells one from the other; the shell is left exactly if some string is refused.
   */
  lemma {:induction false} SplitOfWords(ws: seq<Word>)
    requires forall i :: 0 <= i < |ws| ==> MetaOk(ws[i])
    ensures Split(Spaced(Written(ws)), None) == if SomeRefused(ws) then Exit else Items(TokensOf(ws))
    decreases |ws|
  {
    hide Split, Refused, Quote, IsMeta, Prepend;
    if ws == [] {
      AtEnd(None);
    } else {
      var w, rest := ws[0], Spaced(Written(ws[1..]));
      WrittenStep(ws);
      if |ws| == 1 {
        assert ws == [w];
        LastWord(w);
      } else {
        SplitOfWords(ws[1..]);
        SpacedStep(Written([w])[0], Written(ws[1..]));
        WordAndMore(w, rest);
        TokensStep(ws);
        Prepended(TokensOf([w]), TokensOf(ws[1..]));
      }
    }
  }

  // --------------------------------------------------------- what is quoted, and why

  function Base(cur: Option<string>): string { if cur.None? then "" else cur.value }

  /** Characters in all tokens. */
  function Total(items: seq<Item>): nat
  {
    if items == [] then 0 else |items[0].text| + Total(items[1..])
  }

  lemma {:induction false} TotalSplits(a: seq<Item>, b: seq<Item>)
    ensures Total(a + b) == Total(a) + Total(b)
  {
    if a == [] {
      assert a + b == b;
    } else {
      assert (a + b)[1..] == a[1..] + b;
      TotalSplits(a[1..], b);
    }
  }

  lemma TotalOfFlush(cur: Option<string>)
    ensures Total(Flush(cur)) == |Base(cur)|
  {
  }

  lemma {:induction false} QuotedLength(s: string)
    ensures DoubleQuoted(s).Some? ==> |DoubleQuoted(s).value.0| + |DoubleQuoted(s).value.1| < |s|
  {
    if s != "" && s[0] != '"' {
      var n := if s[0] == '\\' && (At(s, 1) == '\\' || At(s, 1) == '"') then 1 else 0;
      QuotedLength(s[n + 1..]);
    }
  }

  /** What Ordinary does, as one or the other. */
  lemma OrdinaryStep(s: string, cur: Option<string>)
    requires s != ""
    ensures
      || (exists n :: 0 < n <= |s| &&
            Ordinary(s, cur) == Prepend(Flush(cur) + [Item(s[..n], true)], Split(s[n..], None)))
      || Ordinary(s, cur) == Split(s[1..], Add(cur, s[..1]))
  {
    hide Split;
    if Redirect(s) > 0 {
      var n := Redirect(s);
      assert Ordinary(s, cur) == Prepend(Flush(cur) + [Item(s[..n], true)], Split(s[n..], None));
    }
  }

  /** No character is read twice. */
  lemma {:induction false} SplitLength(s: string, cur: Option<string>)
    ensures Split(s, cur).Items? ==> Total(Split(s, cur).items) <= |Base(cur)| + |s|
    decreases |s|, 2
  {
    hide Split, Ordinary, Total;
    TotalOfFlush(cur);
    if s == "" {
      AtEnd(cur);
    } else if White(s[0]) || s[0] == '\'' || s[0] == '"' || s[0] == '\\' {
      LosesOne(s, cur);
    } else {
      SplitStep(s, cur);
      if s[0] in "><|" {
        MetaLength(cur, s, if s[0] == '>' && At(s, 1) == '>' then 2 else 1);
      } else if s[0] !in "`$&;[]*()" {
        OrdinaryLength(s, cur);
      }
    }
  }

  /** White space, quotes and backslashes are no part of a token. */
  lemma {:induction false} LosesOne(s: string, cur: Option<string>)
    requires s != "" && (White(s[0]) || s[0] == '\'' || s[0] == '"' || s[0] == '\\')
    ensures Split(s, cur).Items? ==> Total(Split(s, cur).items) < |Base(cur)| + |s|
    decreases |s|, 1
  {
    hide Split, DoubleQuoted, SingleQuote, Ordinary, Total;
    SplitStep(s, cur);
    TotalOfFlush(cur);
    if White(s[0]) {
      PrependLength(Flush(cur), s[1..]);
    } else if s[0] == '\'' {
      var n := SingleQuote(s[1..]);
      if n < |s| - 1 { SplitLength(s[n + 2..], Add(cur, s[1..n + 1])); }
    } else if s[0] == '"' {
      var q := DoubleQuoted(s[1..]);
      QuotedLength(s[1..]);
      if q.Some? { SplitLength(q.value.1, Add(cur, q.value.0)); }
    } else if |s| == 1 {
      AtEnd(cur);
    } else {
      OrdinaryLength(s[1..], cur);
    }
  }

  lemma {:induction false} PrependLength(items: seq<Item>, rest: string)
    ensures var r := Prepend(items, Split(rest, None)); r.Items? ==> Total(r.items) <= Total(items) + |rest|
    decreases |rest|, 3
  {
    hide Split;
    SplitLength(rest, None);
    if Split(rest, None).Items? { TotalSplits(items, Split(rest, None).items); }
  }

  lemma {:induction false} MetaLength(cur: Option<string>, s: string, n: nat)
    requires 0 < n <= |s|
    ensures var r := Prepend(Flush(cur) + [Item(s[..n], true)], Split(s[n..], None));
            r.Items? ==> Total(r.items) <= |Base(cur)| + |s|
    decreases |s|, 0
  {
    hide Split;
    TotalOfFlush(cur);
    TotalSplits(Flush(cur), [Item(s[..n], true)]);
    PrependLength(Flush(cur) + [Item(s[..n], true)], s[n..]);
  }

  lemma {:induction false} OrdinaryLength(s: string, cur: Option<string>)
    requires s != ""
    ensures Ordinary(s, cur).Items? ==> Total(Ordinary(s, cur).items) <= |Base(cur)| + |s|
    decreases |s|, 1
  {
    hide Split, Ordinary, Total;
    OrdinaryStep(s, cur);
    if n :| 0 < n <= |s| && Ordinary(s, cur) == Prepend(Flush(cur) + [Item(s[..n], true)], Split(s[n..], None)) {
      MetaLength(cur, s, n);
    } else {
      SplitLength(s[1..], Add(cur, s[..1]));
    }
  }

  /** What can begin a string that is read as it is. */
  lemma BeginsPlain(s: string, cur: Option<string>)
    requires s != "" && Split(s, cur) == Items([Item(Base(cur) + s, false)])
    ensures !White(s[0]) && s[0] !in "'\"><|`$&;[]*()\\"
    ensures Split(s, cur) == Split(s[1..], Add(cur, s[..1]))
  {
    hide Split, DoubleQuoted, SingleQuote, Ordinary, Total, Add;
    var item := Item(Base(cur) + s, false);
    OneTotal(item);
    SplitStep(s, cur);
    if White(s[0]) || s[0] == '\'' || s[0] == '"' || s[0] == '\\' {
      LosesOne(s, cur);
    } else if s[0] in "><|" {
      NoRedirection(cur, s, item);
    } else if s[0] !in "`$&;[]*()" {
      OrdinaryStep(s, cur);
      if n :| 0 < n <= |s| && Ordinary(s, cur) == Prepend(Flush(cur) + [Item(s[..n], true)], Split(s[n..], None)) {
        NotMeta(cur, s, n, item);
      }
    }
  }

  /** A string that is read as it is has no character that shellquote() looks for, and no backquote. */
  lemma {:induction false} ReadAsItIs(s: string, cur: Option<string>)
    requires Split(s, cur) == Items([Item(Base(cur) + s, false)])
    ensures !NeedsQuotes(s) && '`' !in s
    decreases |s|
  {
    hide Split, NeedsQuotes;
    if s == "" {
      NoQuotes(s);
    } else {
      BeginsPlain(s, cur);
      assert Base(Add(cur, s[..1])) + s[1..] == Base(cur) + s;
      ReadAsItIs(s[1..], Add(cur, s[..1]));
      OnePlain(s);
    }
  }

  lemma NoQuotes(s: string)
    requires s == ""
    ensures !NeedsQuotes(s)
  {
  }

  lemma OneTotal(item: Item)
    ensures Total([item]) == |item.text|
  {
    assert [item][1..] == [];
  }

  lemma NotMeta(cur: Option<string>, s: string, n: nat, item: Item)
    requires 0 < n <= |s| && !item.meta
    ensures Prepend(Flush(cur) + [Item(s[..n], true)], Split(s[n..], None)) != Items([item])
  {
    hide Split;
    var items := Flush(cur) + [Item(s[..n], true)];
    assert items[|items| - 1].meta;
    if Split(s[n..], None).Items? {
      var all := items + Split(s[n..], None).items;
      assert all[|items| - 1].meta;
    }
  }

  lemma NoRedirection(cur: Option<string>, s: string, item: Item)
    requires s != "" && s[0] in "><|" && !item.meta
    ensures Split(s, cur) != Items([item])
  {
    hide Split;
    SplitStep(s, cur);
    NotMeta(cur, s, if s[0] == '>' && At(s, 1) == '>' then 2 else 1, item);
  }

  lemma OnePlain(s: string)
    requires s != "" && !White(s[0]) && s[0] !in "'\"><|`$&;[]*()\\"
    requires !NeedsQuotes(s[1..]) && '`' !in s[1..]
    ensures !NeedsQuotes(s) && '`' !in s
  {
    assert s == [s[0]] + s[1..];
    forall i | 0 <= i < |s|
      ensures !Quoting(s[i])
    {
      if i > 0 { assert s[i] == s[1..][i - 1]; }
    }
  }

  /** shellquote() quotes the strings that would not be read as they are, and no others but those with a backquote. */
  lemma QuotesExactly(s: string)
    requires s != ""
    ensures Split(s, None) == Items([Item(s, false)]) <==> !NeedsQuotes(s) && '`' !in s
  {
    hide Split, NeedsQuotes;
    assert "" + s == s && s + "" == s;
    if !NeedsQuotes(s) && '`' !in s {
      PlainText(s, "", None);
      AtEnd(Some(s));
    }
    if Split(s, None) == Items([Item(s, false)]) { ReadAsItIs(s, None); }
  }
}
