/**
 Path names as lists of components, and what it means to resolve "." and ".."
 in them: the specification of utils/cleanpath.c.
 */
module Paths {
  import opened Seqs

  // -------------------------------------------------------------- components

  /** Index behind the last '/' of s; 0 without one. */
  function NameStart(s: string): (k: nat)
    ensures k <= |s|
    ensures forall i :: k <= i < |s| ==> s[i] != '/'
    ensures k > 0 ==> s[k - 1] == '/'
  {
    if s == [] then 0
    else if s[|s| - 1] == '/' then |s|
    else NameStart(s[..|s| - 1])
  }

  /** The names between slashes, empty ones left out. */
  function Comps(s: string): (cs: seq<string>)
    ensures forall c :: c in cs ==> IsName(c)
  {
    if s == [] then []
    else if s[|s| - 1] == '/' then Comps(s[..|s| - 1])
    else
      var k := NameStart(s);
      assert k < |s| by { assert s[|s| - 1] != '/'; }
      assert IsName(s[k..]);
      Comps(s[..k]) + [s[k..]]
  }

  predicate IsName(c: string) { c != "" && '/' !in c }

  /** Names with a '/' between neighbours. */
  function Join(cs: seq<string>): string
  {
    if cs == [] then "" else if |cs| == 1 then cs[0] else cs[0] + "/" + Join(cs[1..])
  }

  // -------------------------------------------------------------- resolution

  /** ".."s that nothing was there to undo, and the names that survive. */
  datatype Stack = Stack(ups: nat, names: seq<string>)

  function Push(st: Stack, c: string): Stack
  {
    if c == "." then st
    else if c == ".." then
      if st.names == [] then st.(ups := st.ups + 1) else st.(names := st.names[..|st.names| - 1])
    else st.(names := st.names + [c])
  }

  /** Resolve from the front. */
  function Reduce(cs: seq<string>): Stack
  {
    if cs == [] then Stack(0, []) else Push(Reduce(cs[..|cs| - 1]), cs[|cs| - 1])
  }

  function Ups(n: nat): (us: seq<string>)
    ensures |us| == n && forall c :: c in us ==> c == ".."
  {
    seq(n, _ => "..")
  }

  predicate IsAbsolute(path: string) { path != "" && path[0] == '/' }

  /** The components cleanPath() keeps: an absolute path drops its leftover ".."s unless nothing else is left. */
  function Kept(path: string): seq<string>
  {
    var st := Reduce(Comps(path));
    if IsAbsolute(path) && st.names != [] then st.names else Ups(st.ups) + st.names
  }

  /** The kept components put together: "" for none. */
  function Text(path: string): string
  {
    (if IsAbsolute(path) then "/" else "") + Join(Kept(path))
  }

  predicate HasDrive(path: string) { |path| >= 2 && path[1] == ':' }

  /** What stands in front of the part that cleanPath() works on: a character and a colon, or nothing. */
  function Drive(path: string): string
  {
    if HasDrive(path) then path[..2] else ""
  }

  /** What cleanPath() makes of a path. */
  function Clean(path: string): string
  {
    var d := Drive(path);
    Finished(d + Text(path[|d|..]))
  }

  /** Nothing becomes ".", and two bytes that look like a drive letter get a slash. */
  function Finished(text: string): string
  {
    if text == "" then "." else if |text| == 2 && text[1] == ':' then text + "/" else text
  }

  // ------------------------------------------------------- lists of components

  lemma CompsSlash(a: string)
    ensures Comps(a + "/") == Comps(a)
  {
    assert (a + "/")[..|a|] == a;
  }

  /** A name behind a slash, or by itself, is one more component. */
  lemma CompsName(a: string, c: string)
    requires IsName(c) && (a == "" || a[|a| - 1] == '/')
    ensures Comps(a + c) == Comps(a) + [c]
  {
    NameStartOfName(a, c);
    assert (a + c)[..|a|] == a && (a + c)[|a|..] == c;
    assert (a + c)[|a + c| - 1] == c[|c| - 1] && c[|c| - 1] in c;
  }

  lemma {:induction false} NameStartOfName(a: string, c: string)
    requires '/' !in c && (a == "" || a[|a| - 1] == '/')
    ensures NameStart(a + c) == |a|
  {
    if c == [] {
      assert a + c == a;
    } else {
      assert (a + c)[..|a + c| - 1] == a + c[..|c| - 1];
      assert (a + c)[|a + c| - 1] == c[|c| - 1];
      NameStartOfName(a, c[..|c| - 1]);
    }
  }

  /** Components of a path behind another one. */
  lemma {:induction false} CompsSplit(a: string, b: string)
    ensures Comps(a + "/" + b) == Comps(a) + Comps(b)
    decreases |b|
  {
    hide Comps, NameStart;
    if b == [] {
      assert a + "/" + b == a + "/";
      CompsSlash(a);
      NoComps();
    } else if b[|b| - 1] == '/' {
      var b' := b[..|b| - 1];
      assert b == b' + "/";
      Associate(a + "/", b', "/");
      CompsSplit(a, b');
      CompsSlash(b');
      CompsSlash(a + "/" + b');
    } else {
      LastName(b);
      var k := NameStart(b);
      var front, c := b[..k], b[k..];
      assert b == front + c;
      Associate(a + "/", front, c);
      CompsSplit(a, front);
      CompsName(front, c);
      CompsName(a + "/" + front, c);
    }
  }

  lemma NoComps()
    ensures Comps("") == []
  {
  }

  lemma LastName(b: string)
    requires b != "" && b[|b| - 1] != '/'
    ensures var k := NameStart(b); k < |b| && IsName(b[k..]) && (k == 0 || b[k - 1] == '/')
  {
  }

  lemma CompsOfName(c: string)
    requires IsName(c)
    ensures Comps(c) == [c]
  {
    CompsName("", c);
    assert "" + c == c;
  }

  lemma {:induction false} CompsOfJoin(cs: seq<string>)
    requires forall c :: c in cs ==> IsName(c)
    ensures Comps(Join(cs)) == cs
  {
    if cs != [] {
      hide Comps;
      CompsOfName(cs[0]);
      if |cs| > 1 {
        CompsSplit(cs[0], Join(cs[1..]));
        CompsOfJoin(cs[1..]);
        assert [cs[0]] + cs[1..] == cs;
      }
    }
  }

  /** The components of a text that cleanPath() may have put together. */
  lemma CompsOfText(absolute: bool, cs: seq<string>)
    requires forall c :: c in cs ==> IsName(c)
    ensures Comps((if absolute then "/" else "") + Join(cs)) == cs
  {
    CompsOfJoin(cs);
    if absolute {
      CompsSplit("", Join(cs));
      assert "" + "/" + Join(cs) == "/" + Join(cs);
    } else {
      assert "" + Join(cs) == Join(cs);
    }
  }

  lemma {:induction false} JoinSnoc(cs: seq<string>, c: string)
    ensures Join(cs + [c]) == if cs == [] then c else Join(cs) + "/" + c
  {
    if |cs| > 0 {
      assert (cs + [c])[1..] == cs[1..] + [c];
      JoinSnoc(cs[1..], c);
    }
  }

  lemma JoinNone()
    ensures Join([]) == ""
  {
  }

  lemma JoinCons(c: string, tail: seq<string>)
    ensures Join([c] + tail) == if tail == [] then c else c + "/" + Join(tail)
  {
    assert ([c] + tail)[1..] == tail;
  }

  lemma {:induction false} JoinSuffix(a: seq<string>, b: seq<string>)
    ensures |Join(b)| <= |Join(a + b)|
    ensures a != [] && b != [] ==> |Join(b)| < |Join(a + b)|
  {
    if a == [] {
      assert a + b == b;
    } else {
      assert (a + b)[1..] == a[1..] + b;
      JoinSuffix(a[1..], b);
    }
  }

  // ---------------------------------------------- resolving from the other end

  /** Undo the d last steps of a resolution. */
  function Pop(st: Stack, d: nat): Stack
  {
    if d <= |st.names| then Stack(st.ups, st.names[..|st.names| - d])
    else Stack(st.ups + d - |st.names|, [])
  }

  /**
   Resolve from the back, as cleanPath() scans: d names are still to be skipped,
   `tail` is what was kept so far.
   */
  function ReduceBack(cs: seq<string>, d: nat, tail: seq<string>): Stack
    decreases |cs|
  {
    if cs == [] then Stack(d, tail)
    else
      var init, c := cs[..|cs| - 1], cs[|cs| - 1];
      if c == "." then ReduceBack(init, d, tail)
      else if c == ".." then ReduceBack(init, d + 1, tail)
      else if d > 0 then ReduceBack(init, d - 1, tail)
      else ReduceBack(init, 0, [c] + tail)
  }

  /** One backward pass with a counter computes what the forward stack does. */
  lemma {:induction false} BackwardIsForward(cs: seq<string>, d: nat, tail: seq<string>)
    ensures var st := Pop(Reduce(cs), d);
            ReduceBack(cs, d, tail) == Stack(st.ups, st.names + tail)
    decreases |cs|
  {
    if cs == [] {
      assert [] + tail == tail;
    } else {
      var init, c := cs[..|cs| - 1], cs[|cs| - 1];
      var st := Reduce(init);
      if c == "." {
        BackwardIsForward(init, d, tail);
      } else if c == ".." {
        BackwardIsForward(init, d + 1, tail);
        assert Pop(Push(st, ".."), d) == Pop(st, d + 1);
      } else if d > 0 {
        BackwardIsForward(init, d - 1, tail);
        assert Pop(Push(st, c), d) == Pop(st, d - 1);
      } else {
        BackwardIsForward(init, 0, [c] + tail);
        assert st.names + ([c] + tail) == st.names + [c] + tail;
      }
    }
  }

  // ------------------------------------------------------ what survives is clean

  predicate IsProper(c: string) { IsName(c) && c != "." && c != ".." }

  lemma {:induction false} ReduceNames(cs: seq<string>)
    requires forall c :: c in cs ==> IsName(c)
    ensures forall c :: c in Reduce(cs).names ==> IsProper(c)
  {
    if cs != [] {
      ReduceNames(cs[..|cs| - 1]);
    }
  }

  lemma {:induction false} ReduceOfClean(ups: nat, names: seq<string>)
    requires forall c :: c in names ==> IsProper(c)
    ensures Reduce(Ups(ups) + names) == Stack(ups, names)
    decreases ups + |names|
  {
    if names != [] {
      var init := names[..|names| - 1];
      assert (Ups(ups) + names)[..ups + |names| - 1] == Ups(ups) + init;
      ReduceOfClean(ups, init);
      assert IsProper(names[|names| - 1]);
    } else if ups > 0 {
      assert (Ups(ups) + names)[..ups - 1] == Ups(ups - 1) + [];
      ReduceOfClean(ups - 1, []);
      assert (Ups(ups) + names)[ups - 1] == "..";
    }
  }

  lemma NoneReduced()
    ensures Reduce([]) == Stack(0, [])
  {
  }

  lemma {:induction false} ReducePushes(cs: seq<string>, ds: seq<string>)
    requires forall d :: d in ds ==> IsProper(d)
    ensures Reduce(cs + ds) == Stack(Reduce(cs).ups, Reduce(cs).names + ds)
  {
    if ds == [] {
      assert cs + ds == cs;
    } else {
      var init, d := ds[..|ds| - 1], ds[|ds| - 1];
      assert (cs + ds)[..|cs + ds| - 1] == cs + init && d in ds;
      ReducePushes(cs, init);
    }
  }

  lemma KeptNames(path: string)
    ensures forall c :: c in Kept(path) ==> IsName(c)
  {
    ReduceNames(Comps(path));
  }

  lemma TextKeepsAbsolute(path: string)
    ensures IsAbsolute(Text(path)) <==> IsAbsolute(path)
    ensures !IsAbsolute(path) ==> (Text(path) == "" <==> Kept(path) == [])
  {
    KeptNames(path);
    var cs := Kept(path);
    if !IsAbsolute(path) && cs != [] {
      assert IsName(cs[0]);
      assert Join(cs)[0] == cs[0][0];
      assert cs[0][0] in cs[0];
    }
  }


  lemma CleanKeepsAbsolute(path: string)
    ensures IsAbsolute(Clean(path)) <==> IsAbsolute(path)
  {
    hide Text, IsAbsolute;
    var rest := path[|Drive(path)|..];
    TextKeepsAbsolute(rest);
    if Drive(path) == "" { assert rest == path && "" + Text(rest) == Text(rest); }
    AbsoluteFront(path, Drive(path) + Text(rest));
  }

  lemma AbsoluteFront(path: string, text: string)
    requires HasDrive(path) ==> text != "" && text[0] == path[0]
    requires !HasDrive(path) ==> (IsAbsolute(text) <==> IsAbsolute(path))
    ensures IsAbsolute(Finished(text)) <==> IsAbsolute(path)
  {
  }

  lemma TextIdempotent(path: string)
    ensures Text(Text(path)) == Text(path)
  {
    var st, cs := Reduce(Comps(path)), Kept(path);
    KeptNames(path);
    ReduceNames(Comps(path));
    TextKeepsAbsolute(path);
    CompsOfText(IsAbsolute(path), cs);
    if IsAbsolute(path) && st.names != [] {
      assert Ups(0) + cs == cs;
      ReduceOfClean(0, cs);
    } else {
      ReduceOfClean(st.ups, st.names);
    }
  }

  lemma OneComp(path: string, c: string)
    requires Comps(path) == [c]
    ensures Text(path) == (if IsAbsolute(path) then "/" else "") + if c == "." then "" else c
  {
    assert [c][..0] == [] && Reduce([]) == Stack(0, []);
    assert Reduce([c]) == Push(Stack(0, []), c);
    assert Ups(1) == [".."] && Ups(0) == [];
    assert [".."] + [] == [".."] && [] + [c] == [c];
  }

  lemma NoComp(path: string)
    requires Comps(path) == []
    ensures Text(path) == if IsAbsolute(path) then "/" else ""
  {
    assert Ups(0) == [];
  }

  // ---------------------------------------------------- characters of a path

  /** No character of a path is one of the given ones. */
  predicate Free(s: string, bad: set<char>) { forall i :: 0 <= i < |s| ==> s[i] !in bad }

  lemma {:induction false} CompsFree(s: string, bad: set<char>)
    requires Free(s, bad)
    ensures forall c :: c in Comps(s) ==> Free(c, bad)
    decreases |s|
  {
    if s != "" {
      if s[|s| - 1] == '/' {
        CompsFree(s[..|s| - 1], bad);
      } else {
        var k := NameStart(s);
        assert k < |s| by { assert s[|s| - 1] != '/'; }
        CompsFree(s[..k], bad);
      }
    }
  }

  lemma {:induction false} JoinFree(cs: seq<string>, bad: set<char>)
    requires '/' !in bad && forall c :: c in cs ==> Free(c, bad)
    ensures Free(Join(cs), bad)
  {
    if |cs| > 1 {
      JoinFree(cs[1..], bad);
      assert Free(cs[0], bad);
    } else if |cs| == 1 {
      assert Free(cs[0], bad);
    }
  }

  // ------------------------------------------------------- behind a drive letter

  /** What is left of a clean text without the first bytes of its first name; q is the rest of that name. */
  function Piece(q: string, cs: seq<string>): string
  {
    if q == "" then "/" + Join(cs) else Join([q] + cs)
  }

  lemma TextFrom(path: string, st: Stack)
    requires Reduce(Comps(path)) == st && (IsAbsolute(path) ==> st.ups == 0 && st.names != [])
    ensures Text(path) == (if IsAbsolute(path) then "/" else "") + Join(Ups(st.ups) + st.names)
  {
    hide Reduce, Comps, Join;
    assert Ups(0) + st.names == st.names;
  }

  /** Names in front of which a "." is left out. */
  lemma TextOfNames(q: string, cs: seq<string>)
    requires IsName(q) && forall c :: c in cs ==> IsProper(c)
    ensures Text(Join([q] + cs)) == if q == "." then Join(cs) else Join([q] + cs)
  {
    hide Reduce, Comps, Join, Text;
    var z := Join([q] + cs);
    CompsOfText(false, [q] + cs);
    assert "" + z == z && "" + Join(cs) == Join(cs);
    JoinCons(q, cs);
    assert !IsAbsolute(z) by { assert q[0] in q; }
    if q == "." {
      OnlyDot();
      ReducePushes(["."], cs);
      assert [] + cs == cs && Ups(0) + cs == cs;
      TextFrom(z, Stack(0, cs));
    } else if q == ".." {
      ReduceOfClean(1, cs);
      assert Ups(1) == [".."];
      TextFrom(z, Stack(1, cs));
    } else {
      ReduceOfClean(0, [q] + cs);
      assert Ups(0) + ([q] + cs) == [q] + cs;
      TextFrom(z, Stack(0, [q] + cs));
    }
  }

  /** Such a rest is clean unless it begins with a "." for itself. */
  lemma PieceText(q: string, cs: seq<string>)
    requires '/' !in q && (q == "" ==> cs != []) && forall c :: c in cs ==> IsProper(c)
    ensures Text(Piece(q, cs)) == Piece(q, cs) <==> q != "."
    ensures var z := Piece(q, cs); z != "" && (q == "." <==> z[0] == '.' && (|z| == 1 || z[1] == '/'))
  {
    hide Reduce, Comps, Join, Text;
    JoinCons(q, cs);
    JoinNone();
    if q == "" {
      CompsOfText(true, cs);
      ReduceOfClean(0, cs);
      assert Ups(0) + cs == cs;
      TextFrom(Piece(q, cs), Stack(0, cs));
    } else {
      TextOfNames(q, cs);
      assert |q| > 1 ==> q[1] in q;
    }
  }

  lemma OnlyDot()
    ensures Reduce(["."]) == Stack(0, [])
  {
    assert ["."][..0] == [];
  }

  lemma KeptProper(path: string)
    requires Kept(path) != [] && Kept(path)[0] != ".."
    ensures forall c :: c in Kept(path) ==> IsProper(c)
  {
    ReduceNames(Comps(path));
    var st := Reduce(Comps(path));
    assert st.ups > 0 ==> (Ups(st.ups) + st.names)[0] == Ups(st.ups)[0] == "..";
    assert Ups(0) + st.names == st.names;
  }

  /** The first name of a text without its first bytes, down to the n-th of the text. */
  lemma FirstPiece(cs: seq<string>, n: nat) returns (q: string)
    requires cs != [] && IsName(cs[0]) && 0 < n <= |cs[0]|
    ensures cs[0] == cs[0][..n] + q && '/' !in q
    ensures Join(cs)[..n] == cs[0][..n] && (n < |Join(cs)| <==> q != "" || cs[1..] != [])
    ensures n < |Join(cs)| ==> Join(cs)[n..] == Piece(q, cs[1..])
  {
    hide Join;
    q := cs[0][n..];
    assert cs == [cs[0]] + cs[1..];
    JoinCons(cs[0], cs[1..]);
    JoinCons(q, cs[1..]);
    if cs[1..] != [] && q == "" { assert cs[0][..n] == cs[0]; }
  }

  /** The rest of a clean text behind a colon in second place. */
  lemma ColonText(path: string) returns (q: string)
    requires |Text(path)| > 2 && HasDrive(Text(path))
    ensures var cs := Kept(path);
            && cs != [] && cs[0] == (if IsAbsolute(path) then ":" else [Text(path)[0], ':']) + q
            && '/' !in q && (q == "" ==> cs[1..] != []) && (forall c :: c in cs ==> IsProper(c))
            && Text(path)[2..] == Piece(q, cs[1..])
  {
    hide Kept, Join, Piece;
    var cs, t := Kept(path), Text(path);
    JoinNone();
    KeptNames(path);
    assert cs != [] && IsName(cs[0]) && cs == [cs[0]] + cs[1..];
    JoinCons(cs[0], cs[1..]);
    var n := if IsAbsolute(path) then 1 else 2;
    assert t[1] == Join(cs)[n - 1] && t[2..] == Join(cs)[n..];
    assert |cs[0]| >= n;
    q := FirstPiece(cs, n);
    assert Join(cs)[..n][n - 1] == ':' && cs[0][..n] == Join(cs)[..n];
    assert ':' in cs[0] && cs[0] != "..";
    KeptProper(path);
  }

  /** A colon in second place with a "." for itself behind it. */
  predicate DotBehindColon(text: string)
  {
    HasDrive(text) && |text| > 2 && text[2] == '.' && (|text| == 3 || text[3] == '/')
  }

  lemma TextNotDot(path: string)
    ensures var t := Text(path); t != "" && t[0] == '.' ==> |t| > 1 && t[1] != '/'
  {
    hide Kept, Join;
    var cs := Kept(path);
    KeptNames(path);
    JoinNone();
    if !IsAbsolute(path) && cs != [] {
      assert IsName(cs[0]) && cs == [cs[0]] + cs[1..];
      JoinCons(cs[0], cs[1..]);
      assert cs[0] in cs;
      if cs[0] != ".." { KeptProper(path); }
      assert |cs[0]| > 1 ==> cs[0][1] in cs[0];
    }
  }

  lemma CleanBehindDrive(u: string, z: string)
    requires |u| == 2 && HasDrive(u)
    ensures Clean(u + z) == Finished(u + Text(z))
  {
    assert (u + z)[..2] == u && (u + z)[2..] == z;
  }

  lemma CleanWithoutDrive(path: string)
    requires !HasDrive(path)
    ensures Clean(path) == Finished(Text(path))
  {
    hide Text;
    assert path[0..] == path;
    assert "" + Text(path) == Text(path);
  }

  lemma TextOfSlash()
    ensures Text("/") == "/" && Text(".") == ""
  {
    CompsSlash("");
    assert "" + "/" == "/";
    NoComp("/");
    CompsOfName(".");
    OneComp(".", ".");
  }

  lemma CleanedAgain(path: string)
    ensures Clean(Clean(path)) == Clean(path) <==> !DotBehindColon(Clean(path))
  {
    hide Text, Clean, Kept, Comps, Piece;
    TextOfSlash();
    if HasDrive(path) {
      var u, rest := path[..2], path[2..];
      assert path == u + rest;
      CleanBehindDrive(u, rest);
      TextIdempotent(rest);
      TextNotDot(rest);
      CleanBehindDrive(u, Text(rest));
      CleanBehindDrive(u, "/");
      assert Text(rest) == "" ==> u + Text(rest) == u;
    } else {
      var y := Text(path);
      CleanWithoutDrive(path);
      TextIdempotent(path);
      if y == "" {
        CleanWithoutDrive(".");
      } else if !HasDrive(y) {
        CleanWithoutDrive(y);
      } else if |y| == 2 {
        CleanBehindDrive(y, "/");
      } else {
        var q := ColonText(path);
        assert y == y[..2] + y[2..];
        PieceText(q, Kept(path)[1..]);
        CleanBehindDrive(y[..2], y[2..]);
        DotBehindDrive(y);
      }
    }
  }

  /** The first name to survive becomes "x:.", or ":." behind the slash; no drive letter stands before it. */
  predicate GetsDrive(path: string)
  {
    && !HasDrive(path) && Kept(path) != []
    && var c := Kept(path)[0]; if IsAbsolute(path) then c == ":." else |c| == 3 && c[1..] == ":."
  }

  /** Only then a colon and a "." come to stand in second and third place. */
  lemma DotGetsBehindColon(path: string)
    ensures DotBehindColon(Clean(path)) <==> GetsDrive(path)
  {
    hide Kept, Join, Piece;
    var t, cs := Text(path), Kept(path);
    KeptNames(path);
    if HasDrive(path) {
      DriveKept(path);
    } else {
      CleanWithoutDrive(path);
      if HasDrive(t) && |t| > 2 {
        var q := ColonText(path);
        PieceText(q, cs[1..]);
      }
      if GetsDrive(path) {
        assert IsName(cs[0]) && cs == [cs[0]] + cs[1..];
        JoinCons(cs[0], cs[1..]);
      }
    }
  }

  lemma DriveKept(path: string)
    requires HasDrive(path)
    ensures !DotBehindColon(Clean(path))
  {
    hide Text;
    TextNotDot(path[2..]);
  }

  /** Cleaning twice is cleaning once, unless the first name to survive looks like a drive letter and a ".". */
  lemma CleanIdempotent(path: string)
    ensures Clean(Clean(path)) == Clean(path) <==> !GetsDrive(path)
  {
    hide Clean, GetsDrive;
    CleanedAgain(path);
    DotGetsBehindColon(path);
  }

  lemma {:induction false} ReduceKeeps(cs: seq<string>)
    ensures forall c :: c in Reduce(cs).names ==> c in cs
  {
    if cs != [] { ReduceKeeps(cs[..|cs| - 1]); }
  }

  lemma DriveHasColon(path: string)
    requires GetsDrive(path)
    ensures Kept(path)[0] in Kept(path) && Kept(path)[0] != ".." && ':' in Kept(path)[0]
  {
    hide Kept;
    assert Kept(path)[0][if IsAbsolute(path) then 0 else 1] == ':';
  }

  /** In particular for every path without a colon. */
  lemma CleanIdempotentWithoutColon(path: string)
    requires ':' !in path
    ensures Clean(Clean(path)) == Clean(path)
  {
    hide Comps, Reduce, Clean, GetsDrive;
    CleanIdempotent(path);
    CompsFree(path, {':'});
    ReduceKeeps(Comps(path));
    assert forall c :: c in Kept(path) && c != ".." ==> Free(c, {':'});
    if GetsDrive(path) { DriveHasColon(path); }
  }

  /** A path that cleaning twice leads somewhere else. */
  lemma CleanedTwice()
    ensures Clean("./c:.") == "c:." && Clean("c:.") == "c:/"
  {
    hide Text, Clean, Comps, Reduce;
    TextOfSlash();
    assert "c:" + "." == "c:.";
    CleanBehindDrive("c:", ".");
    assert "." + "/" + "c:." == "./c:.";
    CompsOfName(".");
    CompsOfName("c:.");
    CompsSplit(".", "c:.");
    OnlyDot();
    assert IsProper("c:.");
    ReducePushes(["."], ["c:."]);
    assert [] + ["c:."] == ["c:."] && Ups(0) + ["c:."] == ["c:."];
    assert Kept("./c:.") == ["c:."];
    JoinOne("c:.");
    assert Text("./c:.") == "c:." by { TextIsJoin("./c:."); }
    CleanWithoutDrive("./c:.");
  }

  lemma JoinOne(c: string)
    ensures Join([c]) == c
  {
  }

  lemma TextIsJoin(path: string)
    requires !IsAbsolute(path)
    ensures Text(path) == Join(Kept(path))
  {
    hide Join, Kept;
    assert "" + Join(Kept(path)) == Join(Kept(path));
  }

  lemma DotBehindDrive(y: string)
    requires |y| > 2 && HasDrive(y)
    ensures Finished(y[..2] + Text(y[2..])) == y <==> Text(y[2..]) == y[2..]
  {
    hide Text;
    var z := y[2..];
    assert y == y[..2] + z;
    if Text(z) == "" {
      TextKeepsAbsolute(z);
      assert z != "/";
      assert (y[..2] + "/")[2..] == "/";
    } else {
      assert (y[..2] + Text(z))[2..] == Text(z);
    }
  }

  // ------------------------------------------------------------------- length

  /** Bytes the components take with a slash each. */
  function Size(cs: seq<string>): nat
  {
    if cs == [] then 0 else Size(cs[..|cs| - 1]) + |cs[|cs| - 1]| + 1
  }

  lemma {:induction false} SizeConcat(a: seq<string>, b: seq<string>)
    ensures Size(a + b) == Size(a) + Size(b)
  {
    if b == [] {
      assert a + b == a;
    } else {
      assert (a + b)[..|a + b| - 1] == a + b[..|b| - 1];
      SizeConcat(a, b[..|b| - 1]);
    }
  }

  lemma {:induction false} JoinSize(cs: seq<string>)
    ensures |Join(cs)| == if cs == [] then 0 else Size(cs) - 1
  {
    if cs != [] {
      var init, c := cs[..|cs| - 1], cs[|cs| - 1];
      assert cs == init + [c];
      JoinSize(init);
      JoinSnoc(init, c);
    }
  }

  lemma {:induction false} CompsSize(s: string)
    ensures Size(Comps(s)) <= |s| + if IsAbsolute(s) then 0 else 1
  {
    if s != [] {
      if s[|s| - 1] == '/' {
        CompsSize(s[..|s| - 1]);
      } else {
        var k := NameStart(s);
        var front := s[..k];
        CompsSize(front);
        SizeConcat(Comps(front), [s[k..]]);
        assert Size([s[k..]]) == |s| - k + 1;
        if k > 0 {
          // the slash in front of the name is not part of any component
          assert front[|front| - 1] == '/';
          CompsSize(front[..k - 1]);
        }
      }
    }
  }

  lemma {:induction false} ReduceSize(cs: seq<string>)
    ensures Size(Ups(Reduce(cs).ups) + Reduce(cs).names) <= Size(cs)
    ensures Size(Reduce(cs).names) <= Size(cs)
  {
    if cs != [] {
      var init, c := cs[..|cs| - 1], cs[|cs| - 1];
      ReduceSize(init);
      var st := Reduce(init);
      SizeConcat(Ups(st.ups), st.names);
      SizeConcat(Ups(Reduce(cs).ups), Reduce(cs).names);
      if c == ".." && st.names == [] {
        assert Ups(st.ups + 1)[..st.ups] == Ups(st.ups);
      }
    }
  }

  lemma TextNeverLonger(path: string)
    ensures |Text(path)| <= |path|
  {
    CompsSize(path);
    ReduceSize(Comps(path));
    JoinSize(Kept(path));
  }

  /** Two bytes without a colon behind the first stay so. */
  lemma TwoBytes(path: string)
    requires |path| == 2 && path[1] != ':'
    ensures |Text(path)| == 2 ==> Text(path)[1] != ':'
  {
    hide Text, Comps;
    var a, b := path[..1], path[1..];
    assert path == a + b;
    NoComps();
    if b == "/" {
      CompsSlash(a);
      if a == "/" { CompsSlash(""); assert "" + "/" == "/"; NoComp(path); }
      else { CompsOfName(a); OneComp(path, a); }
    } else if a == "/" {
      CompsName(a, b);
      CompsSlash("");
      assert "" + "/" == "/" && [] + [b] == [b];
      OneComp(path, b);
    } else {
      CompsOfName(path);
      OneComp(path, path);
    }
  }

  /** The result is never longer, except for the empty path and for a drive letter by itself. */
  lemma CleanNeverLonger(path: string)
    ensures |Clean(path)| <= |path| <==> path != "" && !(|path| == 2 && HasDrive(path))
  {
    hide Text;
    var d := Drive(path);
    var rest := path[|d|..];
    TextNeverLonger(rest);
    if |path| == 2 && d == "" {
      assert rest == path && d + Text(rest) == Text(rest);
      TwoBytes(path);
    }
  }

  // ------------------------------------------------------------ what a clean path is

  lemma ColonFree(cs: seq<string>)
    requires forall c :: c in cs ==> Free(c, {':'})
    ensures Free(Join(cs), {':'}) && Free("/" + Join(cs), {':'})
  {
    JoinFree(cs, {':'});
  }

  /**
   ".."s and names without colons are kept as they are; behind a slash the ".."s are
   dropped if there are names, but not if there are none.
   */
  lemma CleanParts(n: nat, names: seq<string>)
    requires forall c :: c in names ==> IsProper(c) && Free(c, {':'})
    ensures Clean(Join(Ups(n) + names)) == if n == 0 && names == [] then "." else Join(Ups(n) + names)
    ensures Clean("/" + Join(Ups(n) + names)) == "/" + if names == [] then Join(Ups(n)) else Join(names)
  {
    hide Comps, Reduce, Join;
    var cs := Ups(n) + names;
    ReduceOfClean(n, names);
    forall c | c in cs
      ensures IsName(c) && Free(c, {':'})
    {
    }
    CompsOfText(true, cs);
    CompsOfText(false, cs);
    assert "" + Join(cs) == Join(cs);
    ColonFree(cs);
    ColonFree(names);
    JoinNone();
    assert Ups(n) + [] == Ups(n);
    RelativeText(cs);
    NoDrive("/" + Join(cs));
    NoDrive(Join(cs));
    NoDrive("/" + Join(names));
  }

  /** Names put together do not begin with a slash. */
  lemma RelativeText(cs: seq<string>)
    requires forall c :: c in cs ==> IsName(c)
    ensures !IsAbsolute(Join(cs)) && (cs == [] <==> Join(cs) == "")
  {
    if cs != [] {
      assert cs[0] in cs && cs[0][0] in cs[0];
    }
  }

  lemma NoDrive(s: string)
    requires Free(s, {':'})
    ensures !HasDrive(s) && (s != "" ==> Finished(s) == s) && Drive(s) == "" && s[0..] == s && "" + s == s
  {
  }

  // ----------------------------------------------- what may be left out of a path

  lemma {:induction false} SameBehind(a: seq<string>, b: seq<string>, rest: seq<string>)
    requires Reduce(a) == Reduce(b)
    ensures Reduce(a + rest) == Reduce(b + rest)
    decreases |rest|
  {
    if rest == [] {
      assert a + rest == a && b + rest == b;
    } else {
      var init := rest[..|rest| - 1];
      SameBehind(a, b, init);
      assert (a + rest)[..|a + rest| - 1] == a + init && (b + rest)[..|b + rest| - 1] == b + init;
    }
  }

  /** A "." does nothing, and ".." undoes the name in front of it. */
  lemma Undone(cs: seq<string>, name: string)
    requires IsProper(name)
    ensures Reduce(cs + ["."]) == Reduce(cs) && Reduce(cs + [name] + [".."]) == Reduce(cs)
  {
    assert (cs + ["."])[..|cs|] == cs;
    assert (cs + [name])[..|cs|] == cs;
    assert (cs + [name] + [".."])[..|cs| + 1] == cs + [name];
    var st := Reduce(cs);
    assert (st.names + [name])[..|st.names|] == st.names;
  }

  lemma SameText(a: string, b: string, rest: string)
    requires Reduce(Comps(a)) == Reduce(Comps(b)) && (IsAbsolute(a + "/") <==> IsAbsolute(b + "/"))
    ensures Text(a + "/" + rest) == Text(b + "/" + rest)
  {
    hide Comps, Reduce, Join;
    CompsSplit(a, rest);
    CompsSplit(b, rest);
    SameBehind(Comps(a), Comps(b), Comps(rest));
  }

  lemma CompsOfSteps(front: string, name: string)
    requires IsProper(name)
    ensures Comps(front + "/.") == Comps(front) + ["."] && Comps(front + "/") == Comps(front)
    ensures Comps(front + "/" + name + "/..") == Comps(front) + [name] + [".."]
  {
    hide Comps;
    CompsSlash(front);
    CompsName(front + "/", ".");
    assert front + "/." == front + "/" + ".";
    CompsName(front + "/", name);
    CompsSlash(front + "/" + name);
    CompsName(front + "/" + name + "/", "..");
    assert front + "/" + name + "/.." == front + "/" + name + "/" + "..";
  }

  lemma StepsInText(front: string, name: string, rest: string)
    requires IsProper(name)
    ensures Text(front + "/." + "/" + rest) == Text(front + "/" + "/" + rest) == Text(front + "/" + rest)
    ensures Text(front + "/" + name + "/.." + "/" + rest) == Text(front + "/" + rest)
  {
    hide Comps, Reduce, Text;
    CompsOfSteps(front, name);
    Undone(Comps(front), name);
    SameText(front + "/.", front, rest);
    SameText(front + "/", front, rest);
    SameText(front + "/" + name + "/..", front, rest);
  }

  lemma Spelled(a: string, name: string, rest: string)
    ensures a + ("//" + rest) == a + "//" + rest == a + "/" + "/" + rest
    ensures a + ("/./" + rest) == a + "/./" + rest == a + "/." + "/" + rest
    ensures a + ("/" + rest) == a + "/" + rest
    ensures a + ("/" + name + "/../" + rest) == a + "/" + name + "/../" + rest == a + "/" + name + "/.." + "/" + rest
  {
  }

  lemma BehindDrive(front: string, more: string)
    requires front != "" && more != "" && more[0] == '/'
    ensures Clean(front + more) == Finished(Drive(front) + Text(front[|Drive(front)|..] + more))
  {
    hide Text;
    assert (front + more)[|Drive(front)|..] == front[|Drive(front)|..] + more;
  }

  /** "a//b", "a/./b" and "a/name/../b" are all cleaned to what "a/b" is. */
  lemma LeftOut(front: string, name: string, rest: string)
    requires front != "" && IsProper(name)
    ensures Clean(front + "//" + rest) == Clean(front + "/" + rest)
    ensures Clean(front + "/./" + rest) == Clean(front + "/" + rest)
    ensures Clean(front + "/" + name + "/../" + rest) == Clean(front + "/" + rest)
  {
    hide Clean, Text, Finished;
    var a := front[|Drive(front)|..];
    StepsInText(a, name, rest);
    BehindDrive(front, "//" + rest);
    BehindDrive(front, "/./" + rest);
    BehindDrive(front, "/" + name + "/../" + rest);
    BehindDrive(front, "/" + rest);
    Spelled(a, name, rest);
    Spelled(front, name, rest);
  }
}
