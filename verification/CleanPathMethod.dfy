/** utils/cleanpath.c: the backward one-pass normaliser, filling a buffer from its end. */
module CleanPathMethod {
  import opened Paths

  /** The size of path buffers (utils/bkutils.h). */
  const MAXPATH: nat := 1024

  /** The buffer between r and the final NUL holds `text`. */
  ghost predicate Holds(buf: array<char>, r: int, text: string)
    reads buf
  {
    && buf.Length == MAXPATH && -1 <= r && r + |text| == MAXPATH - 2
    && buf[r + 1..MAXPATH - 1] == text && buf[MAXPATH - 1] == '\0'
  }

  lemma RoomLeft(buf: array<char>, r: int, text: string)
    requires Holds(buf, r, text)
    ensures r + |text| == MAXPATH - 2
  {
  }

  /** *r-- = ch */
  method Prepend(buf: array<char>, r: int, ch: char, ghost text: string) returns (r': int)
    requires Holds(buf, r, text) && r >= 0
    modifies buf
    ensures Holds(buf, r', [ch] + text)
  {
    buf[r] := ch;
    r' := r - 1;
    assert buf[r + 1..MAXPATH - 1] == old(buf[r + 1..MAXPATH - 1]);
  }

  /** What was kept so far fits, because the result does. */
  lemma TailFits(path: string, cs: seq<string>, d: nat, tail: seq<string>)
    requires ReduceBack(cs, d, tail) == Reduce(Comps(path))
    ensures (if IsAbsolute(path) then 1 else 0) + |Join(tail)| <= |path|
  {
    hide Join, Reduce, ReduceBack, Comps;
    BackwardIsForward(cs, d, tail);
    TextNeverLonger(path);
    var st := Reduce(Comps(path));
    var front := Pop(Reduce(cs), d).names;
    JoinSuffix(front, tail);
    JoinSuffix(Ups(st.ups), st.names);
    assert Ups(st.ups) + (front + tail) == Ups(st.ups) + st.names;
  }

  /** The scan over the whole path computes the forward reduction. */
  lemma WholeScan(path: string)
    ensures ReduceBack(Comps(path), 0, []) == Reduce(Comps(path))
  {
    BackwardIsForward(Comps(path), 0, []);
    var st := Reduce(Comps(path));
    assert st.names[..|st.names| - 0] == st.names && st.names + [] == st.names;
  }

  /** Slashes at the end of the part still to be scanned do not matter. */
  method SkipSlashes(path: string, p: int) returns (p': int)
    requires -1 <= p < |path|
    ensures -1 <= p' <= p && (p' >= 0 ==> path[p'] != '/')
    ensures Comps(path[..p' + 1]) == Comps(path[..p + 1])
    ensures p' < p ==> path[p' + 1] == '/'
  {
    hide Comps;
    p' := p;
    while p' >= 0 && path[p'] == '/'
      invariant -1 <= p' <= p
      invariant Comps(path[..p' + 1]) == Comps(path[..p + 1])
      invariant p' < p ==> path[p' + 1] == '/'
    {
      CompsSlash(path[..p']);
      assert path[..p' + 1] == path[..p'] + "/";
      p' := p' - 1;
    }
  }

  /** The last component of what is still to be scanned, and the tests for "." and "..". */
  lemma LastComp(path: string, p: int)
    requires 0 <= p < |path| && path[p] != '/'
    ensures var k := NameStart(path[..p + 1]);
            && 0 <= k <= p
            && Comps(path[..p + 1]) == Comps(path[..k]) + [path[k..p + 1]]
            && (k == p <==> p == 0 || path[p - 1] == '/')
            && (k == p - 1 <==> p >= 1 && path[p - 1] != '/' && (p == 1 || path[p - 2] == '/'))
  {
    var s := path[..p + 1];
    var k := NameStart(s);
    assert s[p] == path[p];
    assert s[..k] == path[..k] && s[k..] == path[k..p + 1];
  }

  /** One round of the scan: the last component c decides what happens to counter and tail. */
  lemma Scan(path: string, p: int, d: nat, tail: seq<string>)
    requires 0 <= p < |path| && path[p] != '/'
    ensures var k := NameStart(path[..p + 1]);
            var init, c := Comps(path[..k]), path[k..p + 1];
            ReduceBack(Comps(path[..p + 1]), d, tail) ==
              if c == "." then ReduceBack(init, d, tail)
              else if c == ".." then ReduceBack(init, d + 1, tail)
              else if d > 0 then ReduceBack(init, d - 1, tail)
              else ReduceBack(init, 0, [c] + tail)
  {
    hide Comps;
    LastComp(path, p);
    var k := NameStart(path[..p + 1]);
    var init, c := Comps(path[..k]), path[k..p + 1];
    assert (init + [c])[..|init|] == init;
  }

  /** The tests of the scan on the bytes around p, against the last component. */
  lemma DotTests(path: string, p: int)
    requires 0 <= p < |path| && path[p] != '/'
    ensures var c := path[NameStart(path[..p + 1])..p + 1];
            && (c == "." <==> path[p] == '.' && (p == 0 || path[p - 1] == '/'))
            && (c == ".." <==> p >= 1 && path[p] == '.' && path[p - 1] == '.' && (p == 1 || path[p - 2] == '/'))
  {
    LastComp(path, p);
  }

  /** skip dir impacted by ".." */
  method SkipName(path: string, p: int) returns (p': int)
    requires 0 <= p < |path| && path[p] != '/'
    ensures p' == NameStart(path[..p + 1]) - 1 && -1 <= p' < p
  {
    LastComp(path, p);
    ghost var k := NameStart(path[..p + 1]);
    assert forall i :: k <= i <= p ==> path[..p + 1][i] == path[i];
    assert k > 0 ==> path[k - 1] == path[..p + 1][k - 1];
    p' := p;
    while p' >= 0 && path[p'] != '/'
      invariant k - 1 <= p' <= p
    {
      p' := p' - 1;
    }
  }

  /** copy regular directory */
  method CopyName(path: string, p: int, buf: array<char>, r: int, ghost tail: seq<string>) returns (p': int, r': int)
    requires 0 <= p < |path| < MAXPATH && path[p] != '/'
    requires Holds(buf, r, Join(tail)) && forall c :: c in tail ==> IsName(c)
    requires |Join([path[NameStart(path[..p + 1])..p + 1]] + tail)| <= |path|
    modifies buf
    ensures var k := NameStart(path[..p + 1]);
            p' == k - 1 && -1 <= p' < p && Holds(buf, r', Join([path[k..p + 1]] + tail))
  {
    hide Join, NameStart, Comps, Holds;
    LastComp(path, p);
    ghost var k := NameStart(path[..p + 1]);
    assert forall i :: k <= i <= p ==> path[..p + 1][i] == path[i];
    assert k > 0 ==> path[k - 1] == path[..p + 1][k - 1];
    ghost var text := Join(tail);
    RoomLeft(buf, r, text);
    JoinCons(path[k..p + 1], tail);
    EmptyText(tail);
    assert path[k..p + 1] + ("/" + text) == path[k..p + 1] + "/" + text;
    r' := r;
    if r' != MAXPATH - 2 {  // unless isEmpty
      r' := Prepend(buf, r', '/', text);
      text := "/" + text;
    }
    p', r' := CopyBytes(path, k, p, buf, r', text);
    assert tail == [] ==> path[k..p + 1] + text == path[k..p + 1];
  }

  method CopyBytes(path: string, ghost k: nat, p: int, buf: array<char>, r: int, ghost text: string)
    returns (p': int, r': int)
    requires k <= p < |path| < MAXPATH && (forall i :: k <= i <= p ==> path[i] != '/')
    requires k > 0 ==> path[k - 1] == '/'
    requires Holds(buf, r, text) && p + 1 - k + |text| <= |path|
    modifies buf
    ensures p' == k - 1 && Holds(buf, r', path[k..p + 1] + text)
  {
    hide Holds, Behind;
    p', r' := p, r;
    BehindLast(path, p, text);
    while p' >= 0 && path[p'] != '/'
      invariant k - 1 <= p' <= p
      invariant Holds(buf, r', Behind(path, p' + 1, p, text))
    {
      RoomLeft(buf, r', Behind(path, p' + 1, p, text));
      BehindStep(path, p', p, text);
      r' := Prepend(buf, r', path[p'], Behind(path, p' + 1, p, text));
      p' := p' - 1;
    }
    BehindAll(path, k, p, text);
  }

  /** The bytes of the path from i to p in front of a text. */
  ghost function Behind(path: string, i: nat, p: nat, text: string): (s: string)
    requires i <= p + 1 <= |path|
    ensures |s| == p + 1 - i + |text|
  {
    path[i..p + 1] + text
  }

  lemma BehindLast(path: string, p: nat, text: string)
    requires p < |path|
    ensures Behind(path, p + 1, p, text) == text
  {
  }

  lemma BehindStep(path: string, i: nat, p: nat, text: string)
    requires i <= p < |path|
    ensures [path[i]] + Behind(path, i + 1, p, text) == Behind(path, i, p, text)
    ensures |Behind(path, i + 1, p, text)| == p - i + |text|
  {
    assert path[i..p + 1] == [path[i]] + path[i + 1..p + 1];
  }

  lemma BehindAll(path: string, i: nat, p: nat, text: string)
    requires i <= p < |path|
    ensures Behind(path, i, p, text) == path[i..p + 1] + text
  {
  }

  lemma EmptyText(tail: seq<string>)
    requires forall c :: c in tail ==> IsName(c)
    ensures |Join(tail)| == 0 <==> tail == []
  {
    if tail != [] { assert IsName(tail[0]); }
  }

  /** One ".." in front of what is kept, with a slash unless nothing follows it. */
  method PutUp(buf: array<char>, r: int, ghost kept: seq<string>) returns (r': int)
    requires Holds(buf, r, Join(kept)) && (forall c :: c in kept ==> IsName(c))
    requires |Join([".."] + kept)| < MAXPATH
    modifies buf
    ensures Holds(buf, r', Join([".."] + kept))
  {
    ghost var text := Join(kept);
    JoinCons("..", kept);
    EmptyText(kept);
    FirstByte(kept);
    RoomLeft(buf, r, text);
    FrontByte(buf, r, text);
    hide Join, Holds;
    DotDot(text);
    r' := r;
    if r' != MAXPATH - 2 && buf[r' + 1] != '/' {
      DotDot("/" + text);
      r' := Prepend(buf, r', '/', text);
      text := "/" + text;
      RoomLeft(buf, r', text);
    }
    r' := Prepend(buf, r', '.', text);
    RoomLeft(buf, r', "." + text);
    r' := Prepend(buf, r', '.', "." + text);
  }

  lemma DotDot(text: string)
    ensures "." + ("." + text) == ".." + text
    ensures ".." + ("/" + text) == ".." + "/" + text
  {
  }

  lemma FrontByte(buf: array<char>, r: int, text: string)
    requires Holds(buf, r, text)
    ensures text != "" ==> buf[r + 1] == text[0]
  {
    if text != "" { assert buf[r + 1..MAXPATH - 1][0] == text[0]; }
  }

  /** Put back any ".." with no known parent directory. */
  method PutBackUps(path: string, dotCnt: nat, buf: array<char>, r: int, ghost tail: seq<string>) returns (r': int)
    requires |path| < MAXPATH && |Join(Ups(dotCnt) + tail)| <= |path|
    requires Holds(buf, r, Join(tail)) && forall c :: c in tail ==> IsName(c)
    modifies buf
    ensures Holds(buf, r', Join(Ups(dotCnt) + tail))
  {
    hide Join, Holds, Ups, IsName;
    var n := dotCnt;
    r' := r;
    UpsAround(0, dotCnt, tail);
    while n > 0
      invariant 0 <= n <= dotCnt && Holds(buf, r', Join(Ups(dotCnt - n) + tail))
    {
      n := n - 1;
      ghost var kept := Ups(dotCnt - n - 1) + tail;
      UpsAround(dotCnt - n - 1, n + 1, tail);
      JoinSuffix(Ups(n), [".."] + kept);
      r' := PutUp(buf, r', kept);
    }
  }

  lemma UpsAround(done: nat, left: nat, tail: seq<string>)
    requires forall c :: c in tail ==> IsName(c)
    ensures Ups(0) + tail == tail
    ensures forall c :: c in Ups(done) + tail ==> IsName(c)
    ensures [".."] + (Ups(done) + tail) == Ups(done + 1) + tail
    ensures left > 0 ==> Ups(left - 1) + ([".."] + (Ups(done) + tail)) == Ups(done + left) + tail
  {
  }

  lemma FirstByte(kept: seq<string>)
    requires forall c :: c in kept ==> IsName(c)
    ensures kept != [] ==> |Join(kept)| > 0 && Join(kept)[0] != '/'
  {
    if kept != [] {
      assert IsName(kept[0]);
      assert kept[0][0] in kept[0];
      assert Join(kept)[0] == kept[0][0];
    }
  }

  /** The state of the scan in front of path[p]: what it still has to do gives the whole result. */
  ghost predicate Scanning(path: string, p: int, dotCnt: int, tail: seq<string>, buf: array<char>, r: int)
    reads buf
  {
    && -1 <= p < |path| && (p >= 0 ==> path[p] != '/') && dotCnt >= 0
    && ReduceBack(Comps(path[..p + 1]), dotCnt, tail) == Reduce(Comps(path))
    && Holds(buf, r, Join(tail)) && forall c :: c in tail ==> IsName(c)
  }

  /** One round of the scan: the component that ends at p. */
  method Round(path: string, p: int, dotCnt: int, buf: array<char>, r: int, ghost tail: seq<string>)
    returns (p': int, dotCnt': int, r': int, ghost tail': seq<string>)
    requires |path| < MAXPATH && p >= 0 && Scanning(path, p, dotCnt, tail, buf, r)
    modifies buf
    ensures -1 <= p' < p && Scanning(path, p', dotCnt', tail', buf, r')
  {
    hide Join, Reduce, ReduceBack, Comps, NameStart;
    LastComp(path, p);
    Scan(path, p, dotCnt, tail);
    DotTests(path, p);
    ghost var k := NameStart(path[..p + 1]);
    if k > 0 {
      assert path[..k] == path[..k - 1] + "/" by { assert path[k - 1] == path[..p + 1][k - 1]; }
      CompsSlash(path[..k - 1]);
    }
    ghost var c := path[k..p + 1];
    p', dotCnt', r', tail' := p, dotCnt, r, tail;
    if p == 0 && path[0] == '.' {
      p' := p - 1;  // process "." in the front
    } else if p == 1 && path[0] == '.' && path[1] == '.' {
      dotCnt' := dotCnt + 1;  // process ".." in the front
      p' := p - 2;
    } else if p >= 2 && path[p - 2] == '/' && path[p - 1] == '.' && path[p] == '.' {
      dotCnt' := dotCnt + 1;  // process "/.."
      p' := p - 3;
    } else if p >= 1 && path[p - 1] == '/' && path[p] == '.' {
      p' := p - 2;  // process "/."
    } else if dotCnt > 0 {
      p' := SkipName(path, p);
      dotCnt' := dotCnt - 1;
    } else {
      assert IsName(c) by { assert c in Comps(path[..k]) + [c]; }
      TailFits(path, Comps(path[..k]), 0, [c] + tail);
      p', r' := CopyName(path, p, buf, r, tail);
      tail' := [c] + tail;
    }
    p' := SkipSlashes(path, p');  // skip "/", "//" etc..
  }

  /**
   Resolves the components behind the drive letter, if there is one.  `path` and the
   result may share a buffer: the result is assembled in one of its own.
   */
  method CleanPath(path: string) returns (out: string)
    requires |path| < MAXPATH
    ensures out == Clean(path)
  {
    hide Join, Reduce, ReduceBack, Comps, NameStart, Text;
    var buf := new char[MAXPATH];
    var r, dotCnt := MAXPATH - 1, 0;
    buf[r] := '\0';
    r := r - 1;
    ghost var tail: seq<string> := [];

    // for win32 path
    var front := if |path| >= 2 && path[1] == ':' then path[..2] else "";
    var top := path[|front|..];
    WholeScan(top);
    JoinNone();
    assert top[..|top|] == top;

    // trim trailing slash(s)
    var p := SkipSlashes(top, |top| - 1);
    while p >= 0  // scan backward
      invariant Scanning(top, p, dotCnt, tail, buf, r)
      decreases p
    {
      p, dotCnt, r, tail := Round(top, p, dotCnt, buf, r, tail);
    }
    assert top[..0] == "";
    EmptyScan(dotCnt, tail);
    r := Assemble(top, dotCnt, buf, r, tail);
    TextNeverLonger(top);
    r := PutFront(front, buf, r, Text(top));
    out := Finish(buf, r, front + Text(top));
  }

  /** Leftover ".."s and the slash in front. */
  method Assemble(path: string, dotCnt: nat, buf: array<char>, r0: int, ghost tail: seq<string>) returns (r: int)
    requires |path| < MAXPATH && Reduce(Comps(path)) == Stack(dotCnt, tail)
    requires Holds(buf, r0, Join(tail)) && forall c :: c in tail ==> IsName(c)
    modifies buf
    ensures Holds(buf, r, Text(path))
  {
    hide Join, Reduce, Comps, Holds, Ups, IsName;
    TextNeverLonger(path);
    EmptyText(tail);
    RoomLeft(buf, r0, Join(tail));
    r := r0;
    ghost var kept := tail;
    if r == MAXPATH - 2 || !IsAbsolute(path) {
      r := PutBackUps(path, dotCnt, buf, r, tail);
      kept := Ups(dotCnt) + tail;
    }
    assert kept == Kept(path);
    RoomLeft(buf, r, Join(kept));
    if IsAbsolute(path) {
      r := Prepend(buf, r, '/', Join(kept));
    } else {
      assert "" + Join(kept) == Join(kept);
    }
  }

  /** The drive letter in front. */
  method PutFront(front: string, buf: array<char>, r0: int, ghost text: string) returns (r: int)
    requires Holds(buf, r0, text) && |front| in {0, 2} && |front| <= r0 + 1
    modifies buf
    ensures Holds(buf, r, front + text)
  {
    hide Holds;
    RoomLeft(buf, r0, text);
    r := r0;
    if front != "" {
      r := Prepend(buf, r, front[1], text);
      RoomLeft(buf, r, [front[1]] + text);
      r := Prepend(buf, r, front[0], [front[1]] + text);
      assert [front[0]] + ([front[1]] + text) == front + text;
    } else {
      assert front + text == text;
    }
  }

  /** "." for nothing, and a slash behind a drive letter by itself. */
  method Finish(buf: array<char>, r0: int, ghost text: string) returns (out: string)
    requires Holds(buf, r0, text)
    ensures out == Finished(text)
  {
    var r := r0 + 1;
    if r < MAXPATH - 1 {
      out := buf[r..MAXPATH - 1];
      // for win32 path
      if |out| == 2 && out[1] == ':' { out := out + "/"; }
    } else {
      out := ".";
    }
  }

  lemma EmptyScan(d: nat, tail: seq<string>)
    ensures ReduceBack(Comps(""), d, tail) == Stack(d, tail)
  {
  }
}
