/** utils/relpath.c and utils/concat_path.c: the relative path between two clean paths, and undoing it. */
module RelPath {
  import opened Seqs
  import opened Paths
  import opened CleanPathMethod

  // ----------------------------------------------------------- specification

  /** Absolute, no "//", no "/" at the end except for the root, no "." and "..". */
  predicate CleanAbs(s: string)
  {
    && IsAbsolute(s) && (s == "/" || s[|s| - 1] != '/')
    && (forall i :: 0 <= i < |s| - 1 ==> !(s[i] == '/' && s[i + 1] == '/'))
    && (forall c :: c in Comps(s) ==> IsProper(c))
  }

  /** Length of the longest common front of two lists. */
  function Common(a: seq<string>, b: seq<string>): (k: nat)
    ensures k <= |a| && k <= |b|
    ensures a[..k] == b[..k]
  {
    if a != [] && b != [] && a[0] == b[0] then 1 + Common(a[1..], b[1..]) else 0
  }

  /** Up out of what is not shared, then down: the answer to "what would I type in base to get to path?" */
  function Relative(base: string, path: string): string
  {
    var b, p := Comps(base), Comps(path);
    var k := Common(b, p);
    var parts := Ups(|b| - k) + p[k..];
    if parts == [] then "." else Join(parts)
  }

  lemma NamesOf(x: seq<string>, u: seq<string>, v: seq<string>)
    requires forall c :: c in x + u + v ==> IsName(c)
    ensures forall c :: c in x + u ==> IsName(c)
    ensures forall c :: c in x + v ==> IsName(c)
  {
    hide IsName;
    assert forall c :: c in x + u ==> c in x + u + v;
    assert forall c :: c in x + v ==> c in x + u + v;
  }

  lemma RelativeOf(base: string, path: string, k: nat)
    requires k == Common(Comps(base), Comps(path))
    ensures var parts := Ups(|Comps(base)| - k) + Comps(path)[k..];
            Relative(base, path) == if parts == [] then "." else Join(parts)
  {
  }

  /** Out of what is not shared with one ".." for each name, and down: "../../a/b" from /foo/bar/baz to /foo/a/b. */
  lemma RelativeIs(x: seq<string>, u: seq<string>, v: seq<string>)
    requires forall c :: c in x + u + v ==> IsName(c)
    requires u == [] || v == [] || u[0] != v[0]
    ensures Relative("/" + Join(x + u), "/" + Join(x + v)) == if u + v == [] then "." else Join(Ups(|u|) + v)
  {
    hide Comps, Join, Common, IsName;
    NamesOf(x, u, v);
    CompsOfText(true, x + u);
    CompsOfText(true, x + v);
    CommonFront(x, u, v);
    RelativeOf("/" + Join(x + u), "/" + Join(x + v), |x|);
    assert |x + u| - |x| == |u|;
  }

  // ---------------------------------------------------- pieces of clean paths

  /** What can follow a '/' in a clean path, or be empty. */
  predicate IsSegment(t: string)
  {
    && (t != "" ==> t[0] != '/' && t[|t| - 1] != '/')
    && forall i :: 0 <= i < |t| - 1 ==> !(t[i] == '/' && t[i + 1] == '/')
  }

  function Slashes(s: string): nat
  {
    if s == [] then 0 else Slashes(s[..|s| - 1]) + if s[|s| - 1] == '/' then 1 else 0
  }

  lemma {:induction false} SlashesConcat(a: string, b: string)
    ensures Slashes(a + b) == Slashes(a) + Slashes(b)
  {
    if b == [] {
      assert a + b == a;
    } else {
      assert (a + b)[..|a + b| - 1] == a + b[..|b| - 1];
      SlashesConcat(a, b[..|b| - 1]);
    }
  }

  lemma {:induction false} SlashesOfName(c: string)
    requires '/' !in c
    ensures Slashes(c) == 0
  {
    if c != [] {
      assert c[|c| - 1] in c;
      SlashesOfName(c[..|c| - 1]);
    }
  }

  lemma SlashFirst(u: string)
    ensures Slashes("/" + u) == 1 + Slashes(u)
  {
    SlashesConcat("/", u);
    assert Slashes("/") == 1 by { assert "/"[..0] == ""; }
  }

  /** A segment is its names with slashes between them. */
  lemma {:induction false} SegmentText(t: string)
    requires IsSegment(t)
    ensures t == Join(Comps(t))
    ensures t != "" ==> |Comps(t)| == Slashes(t) + 1
    ensures t == "" <==> Comps(t) == []
  {
    if t != "" {
      hide Comps, Join, Slashes, NameStart;
      var k := NameStart(t);
      var front, c := t[..k], t[k..];
      assert t == front + c && IsName(c) by { assert t[|t| - 1] != '/'; }
      CompsName(front, c);
      SlashesOfName(c);
      if k == 0 {
        EmptyFront(c);
        assert front == "" && c == t && [] + [c] == [c];
      } else {
        var u := t[..k - 1];
        assert front == u + "/" && t == u + ("/" + c);
        assert u[|u| - 1] == t[k - 2];
        SegmentText(u);
        CompsSlash(u);
        JoinSnoc(Comps(u), c);
        SlashesConcat(u, "/" + c);
        SlashFirst(c);
        assert u + "/" + c == u + ("/" + c);
      }
    }
  }

  lemma EmptyFront(c: string)
    ensures Comps("") == [] && Join([c]) == c
  {
  }

  /** A clean path cut at one of its slashes. */
  lemma {:induction false} CutAtSlash(s: string, j: nat)
    requires CleanAbs(s) && j < |s| && s[j] == '/'
    ensures Comps(s) == Comps(s[..j]) + Comps(s[j + 1..])
    ensures IsSegment(s[j + 1..])
    ensures s[j + 1..] == "" ==> s == "/"
  {
    hide Comps;
    var t := s[j + 1..];
    CutText(s, j);
    CompsSplit(s[..j], t);
    assert forall i :: 0 <= i < |t| ==> t[i] == s[j + 1 + i];
  }

  lemma CutText(s: string, j: nat)
    requires j < |s| && s[j] == '/'
    ensures s == s[..j] + "/" + s[j + 1..]
  {
  }

  // ------------------------------------------------------------ common fronts

  lemma {:induction false} CommonFront(c: seq<string>, u: seq<string>, v: seq<string>)
    requires u == [] || v == [] || u[0] != v[0]
    ensures Common(c + u, c + v) == |c|
    ensures (c + v)[|c|..] == v
  {
    if c == [] {
      assert c + u == u && c + v == v;
    } else {
      assert (c + u)[1..] == c[1..] + u && (c + v)[1..] == c[1..] + v;
      CommonFront(c[1..], u, v);
    }
  }

  /** Index of the first '/'; the length without one. */
  function NameEnd(s: string): (e: nat)
    ensures e <= |s| && (forall i :: 0 <= i < e ==> s[i] != '/') && (e < |s| ==> s[e] == '/')
  {
    if s == [] || s[0] == '/' then 0 else 1 + NameEnd(s[1..])
  }

  lemma FirstName(t: string)
    requires t != "" && t[0] != '/'
    ensures Comps(t) != [] && Comps(t)[0] == t[..NameEnd(t)]
  {
    var e := NameEnd(t);
    var c := t[..e];
    assert e > 0;
    CompsOfName(c);
    if e < |t| {
      assert t == c + "/" + t[e + 1..];
      CompsSplit(c, t[e + 1..]);
    } else {
      assert t == c;
    }
  }

  /**
   Where relpath()'s scan stopped: at i the paths differ (or one ends), and the last
   slash before i is at lsb.
   */
  ghost predicate Stopped(base: string, path: string, i: nat, lsb: nat)
  {
    && lsb < i <= |base| && i <= |path| && base[..i] == path[..i]
    && (i < |base| && i < |path| ==> base[i] != path[i])
    && base[lsb] == '/' && forall j :: lsb < j < i ==> base[j] != '/'
  }

  /** Unless one path is the other or leads to it, the names behind the last shared slash differ. */
  lemma NamesDiffer(base: string, path: string, i: nat, lsb: nat)
    requires CleanAbs(base) && CleanAbs(path) && Stopped(base, path, i, lsb)
    requires !(i == |base| && (i == |path| || path[i] == '/'))
    requires !(i == |path| && base[i] == '/')
    ensures path[lsb] == '/'
    ensures var u, v := Comps(base[lsb + 1..]), Comps(path[lsb + 1..]); u == [] || v == [] || u[0] != v[0]
  {
    hide Comps, NameEnd;
    var u, v := base[lsb + 1..], path[lsb + 1..];
    assert path[lsb] == path[..i][lsb] == base[..i][lsb];
    CutAtSlash(base, lsb);
    CutAtSlash(path, lsb);
    SegmentText(u);
    SegmentText(v);
    if u != "" && v != "" {
      FirstName(u);
      FirstName(v);
      if u[..NameEnd(u)] == v[..NameEnd(v)] {
        SameNameStops(base, path, i, lsb);
      }
    }
  }

  /** With the same name behind the last shared slash, the scan goes on to the end of that name. */
  lemma SameNameStops(base: string, path: string, i: nat, lsb: nat)
    requires Stopped(base, path, i, lsb) && path[lsb] == '/'
    requires var u, v := base[lsb + 1..], path[lsb + 1..]; u[..NameEnd(u)] == v[..NameEnd(v)]
    ensures i == lsb + 1 + NameEnd(base[lsb + 1..]) == lsb + 1 + NameEnd(path[lsb + 1..])
    ensures (i == |base| && (i == |path| || path[i] == '/')) || (i == |path| && base[i] == '/')
  {
    hide NameEnd;
    var u, v := base[lsb + 1..], path[lsb + 1..];
    var e := NameEnd(u);
    assert NameEnd(v) == |v[..NameEnd(v)]| == e;
    var j := lsb + 1 + e;
    forall n | lsb < n < j
      ensures base[n] == path[n]
    {
      assert base[n] == u[..e][n - lsb - 1] && path[n] == v[..e][n - lsb - 1];
    }
    assert j < |base| ==> base[j] == u[e];
    assert j < |path| ==> path[j] == v[e];
  }

  lemma UpsCons(n: nat, cs: seq<string>)
    requires n > 0
    ensures Ups(n) + cs == [".."] + (Ups(n - 1) + cs)
  {
  }

  lemma {:induction false} UpsJoin(n: nat, cs: seq<string>)
    requires cs != []
    ensures Join(Ups(n) + cs) == UpText(n) + Join(cs)
  {
    if n == 0 {
      assert Ups(0) + cs == cs && UpText(0) + Join(cs) == Join(cs);
    } else {
      hide UpText, Join, Ups;
      UpsCons(n, cs);
      JoinCons("..", Ups(n - 1) + cs);
      UpsJoin(n - 1, cs);
      UpTextCons(n - 1);
      assert ".." + "/" == "../";
      Associate("../", UpText(n - 1), Join(cs));
    }
  }

  /** "../" n times. */
  function UpText(n: nat): (s: string)
    ensures |s| == 3 * n
    ensures n > 0 ==> s[|s| - 1] == '/'
  {
    if n == 0 then "" else UpText(n - 1) + "../"
  }

  lemma {:induction false} UpTextCons(n: nat)
    ensures UpText(n + 1) == "../" + UpText(n)
  {
    if n == 0 {
      assert "" + "../" == "../" + "";
    } else {
      UpTextCons(n - 1);
      assert "../" + UpText(n - 1) + "../" == "../" + (UpText(n - 1) + "../");
    }
  }

  /** What relpath() assembles and trims: n times "../", then a segment. */
  lemma UpsSegment(n: nat, v: string)
    requires IsSegment(v) && n > 0
    ensures var text := UpText(n) + v;
            Join(Ups(n) + Comps(v)) == if v == "" then text[..|text| - 1] else text
  {
    SegmentText(v);
    if v == "" {
      assert Ups(n) + [] == Ups(n - 1) + [".."];
      UpsJoin(n - 1, [".."]);
      assert UpText(n) == UpText(n - 1) + "../";
      assert (UpText(n - 1) + "../")[..3 * n - 1] == UpText(n - 1) + "..";
      assert UpText(n) + "" == UpText(n);
    } else {
      UpsJoin(n, Comps(v));
    }
  }

  // ------------------------------------------------------------------ relpath

  /** strcpy(&a[at], s) */
  method Strcpy(a: array<char>, at: nat, s: string)
    requires at + |s| < a.Length
    modifies a
    ensures a[..at] == old(a[..at]) && a[at..at + |s|] == s && a[at + |s|] == '\0'
    ensures a[at + |s| + 1..] == old(a[at + |s| + 1..])
  {
    forall i | 0 <= i < |s| { a[at + i] := s[i]; }
    a[at + |s|] := '\0';
  }

  method PutUp(rel: array<char>, r: nat, ghost n: nat) returns (r': nat)
    requires r == 3 * n && r + 3 < rel.Length && rel[..r] == UpText(n)
    modifies rel
    ensures r' == r + 3 && rel[..r'] == UpText(n + 1)
  {
    Strcpy(rel, r, "../");
    assert rel[..r + 3] == rel[..r] + rel[r..r + 3];
    r' := r + 3;
  }

  /** "../" for every slash of base from b on. */
  method PutUps(base: string, b0: nat, rel: array<char>) returns (r: nat)
    requires b0 <= |base| && 3 * Slashes(base[b0..]) < rel.Length
    modifies rel
    ensures r == 3 * Slashes(base[b0..]) && rel[..r] == UpText(Slashes(base[b0..]))
  {
    hide Slashes, UpText;
    r := 0;
    var b := b0;
    SlashesNone(base, b0);
    while b < |base|
      invariant b0 <= b <= |base|
      invariant r == 3 * Slashes(base[b0..b]) && r < rel.Length && rel[..r] == UpText(Slashes(base[b0..b]))
    {
      SlashesStep(base, b0, b);
      b := b + 1;
      if base[b - 1] == '/' { r := PutUp(rel, r, Slashes(base[b0..b - 1])); }
    }
    assert base[b0..|base|] == base[b0..];
  }

  lemma SlashesNone(base: string, b: nat)
    requires b <= |base|
    ensures Slashes(base[b..b]) == 0 && UpText(0) == ""
  {
  }

  lemma SlashesStep(base: string, b0: nat, b: nat)
    requires b0 <= b < |base|
    ensures Slashes(base[b0..b + 1]) == Slashes(base[b0..b]) + if base[b] == '/' then 1 else 0
    ensures Slashes(base[b0..b + 1]) <= Slashes(base[b0..])
  {
    assert base[b0..b + 1][..b - b0] == base[b0..b];
    assert base[b0..] == base[b0..b + 1] + base[b + 1..];
    SlashesConcat(base[b0..b + 1], base[b + 1..]);
  }

  /** relpath()'s first loop: how far the paths agree, and the last slash up to there. */
  method FindCommon(base: string, path: string) returns (i: nat, lsb: int)
    requires IsAbsolute(base) && IsAbsolute(path)
    ensures lsb >= 0 && Stopped(base, path, i, lsb)
  {
    i, lsb := 0, -1;
    while i < |base| && i < |path| && base[i] == path[i]
      invariant 0 <= i <= |base| && i <= |path| && base[..i] == path[..i]
      invariant i == 0 ==> lsb == -1
      invariant i > 0 ==> 0 <= lsb < i && base[lsb] == '/' && forall j :: lsb < j < i ==> base[j] != '/'
    {
      assert base[..i + 1] == base[..i] + [base[i]] && path[..i + 1] == path[..i] + [path[i]];
      if base[i] == '/' { lsb := i; }
      i := i + 1;
    }
  }

  /** relpath()'s end: "../" for every slash of base from b on, then path from p on, without a slash at the end. */
  method UpAndDown(base: string, path: string, b: nat, p: nat) returns (out: string)
    requires b < |base| && base[b] == '/' && p <= |path|
    requires var text := UpText(Slashes(base[b + 1..]) + 1) + path[p..]; |text| < MAXPATH && path[p..] != "/"
    requires |path| > p ==> path[|path| - 1] != '/'
    ensures var text := UpText(Slashes(base[b + 1..]) + 1) + path[p..];
            out == if path[p..] == "" then text[..|text| - 1] else text
  {
    hide Slashes, UpText;
    assert base[b..] == "/" + base[b + 1..];
    SlashFirst(base[b + 1..]);
    var rel := new char[MAXPATH];
    var r := PutUps(base, b, rel);
    Strcpy(rel, r, path[p..]);
    var end := r + (|path| - p);
    assert rel[..end] == rel[..r] + rel[r..end];
    r := end;
    if r > 1 && rel[r - 1] == '/' { r := r - 1; }
    out := rel[..r];
    assert rel[..end][..end - 1] == rel[..end - 1];
  }

  /** What one would type in `base` to get to `path`. */
  method Relpath(base: string, path: string) returns (out: string)
    requires CleanAbs(base) && CleanAbs(path)
    requires |Relative(base, path)| + 2 <= MAXPATH
    ensures out == Relative(base, path)
  {
    hide Comps, Join, Common, Slashes, UpText, Relative, IsSegment;
    var i, lsb := FindCommon(base, path);
    var p, b := i, i;
    if i == |base| {
      if i == |path| {
        Same(base);
        assert base == base[..i] == path[..i] == path;
        return ".";
      }
      if i - 1 == lsb { p := p - 1; }  // base is root
      if path[p] == '/' {  // subpath
        Below(base, path, i, lsb, p);
        return path[p + 1..];
      }
    }
    if !(i == |path| && b < |base| && base[b] == '/') {  // unless pure ../..
      NamesDiffer(base, path, i, lsb);
      b, p := lsb, lsb + 1;
      assert path[b] == path[..i][b] == base[..i][b];
      assert path[..b] == path[..i][..b] == base[..i][..b] == base[..b];
    } else {
      assert path == path[..i] == base[..b];
    }
    AcrossIs(base, path, b, p);
    out := UpAndDown(base, path, b, p);
  }

  lemma CommonSelf(b: seq<string>)
    ensures Common(b, b) == |b|
  {
    assert b + [] == b;
    CommonFront(b, [], []);
  }

  lemma Same(base: string)
    ensures Relative(base, base) == "."
  {
    CommonSelf(Comps(base));
  }

  /** The path continues where base ends. */
  lemma Below(base: string, path: string, i: nat, lsb: nat, p: nat)
    requires CleanAbs(base) && CleanAbs(path) && Stopped(base, path, i, lsb)
    requires i == |base| < |path| && p == (if i - 1 == lsb then i - 1 else i) && path[p] == '/'
    ensures Relative(base, path) == path[p + 1..]
  {
    hide Comps, Join;
    var v := path[p + 1..];
    CutAtSlash(path, p);
    SegmentText(v);
    assert base == base[..i] == path[..i];
    assert path[..p] == base[..p];
    if i - 1 == lsb {
      assert base == "/" && base[..p] == "";
      CutAtSlash(base, 0);
      assert base[0 + 1..] == "" && base[..0] == "";
      SegmentText("");
    }
    assert Comps(base) == Comps(path[..p]) by { assert i - 1 != lsb ==> base[..p] == base; }
    CommonFront(Comps(path[..p]), [], Comps(v));
    assert Comps(base) + [] == Comps(base);
    assert Ups(0) + Comps(v) == Comps(v);
  }

  /** Up from behind the slash at b, down to what follows in path. */
  lemma AcrossIs(base: string, path: string, b: nat, p: nat)
    requires CleanAbs(base) && CleanAbs(path) && b < |base| && base[b] == '/' && p <= |path|
    requires (b == p == |path| && path == base[..b] && b > 0) ||
             (p == b + 1 && b < |path| && path[b] == '/' && path[..b] == base[..b] && base[b + 1..] != "" &&
              var u, v := Comps(base[b + 1..]), Comps(path[p..]); u == [] || v == [] || u[0] != v[0])
    ensures IsSegment(path[p..]) && base[b + 1..] != ""
    ensures var u, v := base[b + 1..], path[p..];
            var text := UpText(Slashes(u) + 1) + v;
            Relative(base, path) == if v == "" then text[..|text| - 1] else text
  {
    hide Comps, Join, Slashes, UpText, Common;
    CutAtSlash(base, b);
    var x, u, v := Comps(base[..b]), base[b + 1..], path[p..];
    if p == b {
      SegmentText("");
      assert x + [] == x && v == "";
    } else {
      CutAtSlash(path, b);
    }
    SegmentText(u);
    CommonFront(x, Comps(u), Comps(v));
    assert Comps(path) == x + Comps(v);
    assert |Comps(base)| - |x| == Slashes(u) + 1;
    UpsSegment(Slashes(u) + 1, v);
  }

  // -------------------------------------------------------------- concat_path

  /** concat_path() into a buffer that is not `second`. */
  function Concat(first: string, second: string): string
  {
    if first == "" then second
    else if second == "" then first
    else Slashed(first) + (if second[0] == '/' then second[1..] else second)
  }

  /** The first path without a "." behind its last slash, and with a slash at its end. */
  function Slashed(first: string): (s: string)
    requires first != ""
    ensures 0 < |s| <= |first| + 1
  {
    var front := if |first| >= 2 && first[|first| - 2] == '/' && first[|first| - 1] == '.'
                 then first[..|first| - 1] else first;
    front + if front[|front| - 1] == '/' then "" else "/"
  }

  /** concat_path() into the buffer that holds `second`: `first` goes in front of it as it is. */
  function Insert(first: string, second: string): string
  {
    if first == "" then second else if second == "" then first else first + "/" + second
  }

  /** It stands there with one slash in front of `second`, and leads through `first`. */
  lemma InsertLeads(first: string, second: string)
    ensures first == "" ==> Insert(first, second) == second
    ensures second == "" && first != "" ==> Insert(first, second) == first
    ensures first != "" && second != "" ==>
      var s, n := Insert(first, second), |first|;
      |s| == n + 1 + |second| && s[..n] == first && s[n] == '/' && s[n + 1..] == second
    ensures Comps(Insert(first, second)) == Comps(first) + Comps(second)
    ensures first != "" ==> (IsAbsolute(Insert(first, second)) <==> IsAbsolute(first))
  {
    hide Comps;
    NoComps();
    assert [] + Comps(second) == Comps(second) && Comps(first) + [] == Comps(first);
    if first != "" && second != "" { CompsSplit(first, second); }
  }

  /** However the two paths end and begin, one slash stands between them. */
  lemma FourForms(first: string, second: string)
    requires first != "" && second != "" && first[|first| - 1] != '/' && second[0] != '/'
    requires !(|first| >= 2 && first[|first| - 2] == '/' && first[|first| - 1] == '.')
    ensures Concat(first, second) == first + "/" + second
    ensures Concat(first + "/", second) == first + "/" + second
    ensures Concat(first + "/.", second) == first + "/" + second
    ensures Concat(first, "/" + second) == first + "/" + second
  {
    assert (first + "/.")[..|first| + 1] == first + "/";
    assert ("/" + second)[1..] == second;
    assert (first + "/") + "" == first + "/";
  }

  lemma {:induction false} DotInside(a: seq<string>, b: seq<string>)
    ensures Reduce(a + ["."] + b) == Reduce(a + b)
  {
    if b == [] {
      assert a + ["."] + b == a + ["."] && a + b == a;
      assert (a + ["."])[..|a|] == a;
    } else {
      var init, last := b[..|b| - 1], b[|b| - 1];
      DotInside(a, init);
      assert (a + ["."] + b)[..|a| + |b|] == a + ["."] + init;
      assert (a + b)[..|a| + |b| - 1] == a + init;
    }
  }

  /** The components of a path that was trimmed and completed. */
  lemma SlashedComps(first: string)
    requires first != ""
    ensures Slashed(first) != "" && Slashed(first)[|Slashed(first)| - 1] == '/'
    ensures Comps(first) == Comps(Slashed(first)) || Comps(first) == Comps(Slashed(first)) + ["."]
    ensures IsAbsolute(Slashed(first)) <==> IsAbsolute(first)
  {
    hide Comps;
    if |first| >= 2 && first[|first| - 2] == '/' && first[|first| - 1] == '.' {
      var front := first[..|first| - 1];
      assert first == front + ".";
      CompsName(front, ".");
      assert front + "" == front;
    } else if first[|first| - 1] != '/' {
      CompsSlash(first);
    } else {
      assert first + "" == first;
    }
  }

  /** concat_path() leads where `second` leads from `first`. */
  lemma ConcatLeads(first: string, second: string)
    requires first != "" && second != ""
    ensures Reduce(Comps(Concat(first, second))) == Reduce(Comps(first) + Comps(second))
    ensures IsAbsolute(Concat(first, second)) <==> IsAbsolute(first)
  {
    hide Comps, Reduce, Slashed;
    SlashedComps(first);
    var s := Slashed(first);
    var front, tail := s[..|s| - 1], if second[0] == '/' then second[1..] else second;
    assert s == front + "/" && Concat(first, second) == front + "/" + tail;
    CompsSplit(front, tail);
    CompsSlash(front);
    if second[0] == '/' {
      assert second == "" + "/" + tail;
      CompsSplit("", tail);
      NoComps();
      assert [] + Comps(tail) == Comps(tail);
    }
    DotInside(Comps(s), Comps(second));
  }

  /** The C string at the start of a buffer. */
  function CStr(a: seq<char>): (s: string)
    ensures |s| <= |a| && s == a[..|s|] && '\0' !in s
    ensures |s| < |a| ==> a[|s|] == '\0'
  {
    if a == [] || a[0] == '\0' then "" else [a[0]] + CStr(a[1..])
  }

  lemma {:induction false} CStrIs(a: seq<char>, s: string)
    requires |s| < |a| && a[..|s|] == s && a[|s|] == '\0' && '\0' !in s
    ensures CStr(a) == s
  {
    if s != "" {
      assert a[0] == s[0] && s[0] in s;
      assert a[1..][..|s| - 1] == s[1..];
      CStrIs(a[1..], s[1..]);
      assert [s[0]] + s[1..] == s;
    }
  }

  predicate Terminated(a: array<char>)
    reads a
  {
    |CStr(a[..])| < a.Length
  }

  /** strcpy(&buf[|front|], tail) behind what is there. */
  method PutBehind(buf: array<char>, front: string, tail: string)
    requires |front| + |tail| < buf.Length && buf[..|front|] == front && '\0' !in front && '\0' !in tail
    modifies buf
    ensures CStr(buf[..]) == front + tail
  {
    hide CStr;
    var n := |front|;
    Strcpy(buf, n, tail);
    assert buf[..n + |tail|] == buf[..n] + buf[n..n + |tail|];
    CStrIs(buf[..], front + tail);
  }

  /** Trims and completes the first path, which is in the buffer already. */
  method EndInSlash(buf: array<char>, f: string) returns (len: nat)
    requires f != "" && |f| + 2 <= buf.Length && buf[..|f|] == f
    modifies buf
    ensures len == |Slashed(f)| && buf[..len] == Slashed(f)
  {
    len := |f|;
    // first trim trailing . off string ending in /.
    if len >= 2 && buf[len - 2] == '/' && buf[len - 1] == '.' {
      len := len - 1;
      buf[len] := '\0';
    }
    ghost var front := f[..len];
    assert buf[..len] == front;
    // if first doesn't end with /, then add it
    if buf[len - 1] != '/' {
      buf[len] := '/';
      len := len + 1;
      assert buf[..len] == front + "/";
    } else {
      assert front + "" == front;
    }
  }

  /** The common case of concat_path(): `f` is in the buffer already. */
  method AppendPath(buf: array<char>, f: string, s: string)
    requires f != "" && s != "" && '\0' !in f && '\0' !in s
    requires |f| + |s| + 2 <= buf.Length && buf[..|f|] == f
    modifies buf
    ensures CStr(buf[..]) == Concat(f, s)
  {
    // if second starts with /, then skip it
    var tail := if s[0] == '/' then s[1..] else s;
    assert '\0' !in Slashed(f);
    hide CStr, Slashed;
    var len := EndInSlash(buf, f);
    PutBehind(buf, buf[..len], tail);
  }

  /** Concatenate two paths; either may be null, and `buf` may be one of them but not both. */
  method ConcatPath(buf: array<char>, first: array?<char>, second: array?<char>)
    requires (first != null ==> Terminated(first)) && (second != null ==> Terminated(second))
    requires buf == second ==> buf != first
    requires first == null || CStr(first[..]) == "" ==> second != null
    requires (if first != null then |CStr(first[..])| else 0) + (if second != null then |CStr(second[..])| else 0) + 2
             <= buf.Length
    modifies buf
    ensures var f := if first != null then old(CStr(first[..])) else "";
            var s := if second != null then old(CStr(second[..])) else "";
            CStr(buf[..]) == if buf == second then Insert(f, s) else Concat(f, s)
  {
    hide CStr, Concat;
    var f := if first != null then CStr(first[..]) else "";
    var s := if second != null then CStr(second[..]) else "";
    ConcatTrivial(f, s);
    if buf == second {
      // insert first before buf
      if first == null || f == "" { return; }
      if s != "" {
        Overlay(buf, 0, f + "/");
        PutBehind(buf, f + "/", s);
      } else {
        PutBehind(buf, "", f);
        assert "" + f == f;
      }
      return;
    }
    if first == null || f == "" {
      PutBehind(buf, "", s);
      assert "" + s == s;
      return;
    }
    if buf != first {
      PutBehind(buf, "", f);
      assert "" + f == f;
    }
    if second == null || s == "" { return; }
    AppendPath(buf, f, s);
  }

  lemma ConcatTrivial(f: string, s: string)
    ensures f == "" ==> Concat(f, s) == s
    ensures f != "" && s == "" ==> Concat(f, s) == f
  {
  }

  /** memcpy(&a[at], s, strlen(s)) */
  method Overlay(a: array<char>, at: nat, s: string)
    requires at + |s| <= a.Length
    modifies a
    ensures a[..at] == old(a[..at]) && a[at..at + |s|] == s && a[at + |s|..] == old(a[at + |s|..])
  {
    forall i | 0 <= i < |s| { a[at + i] := s[i]; }
  }

  // ------------------------------------------------------------- the inverse

  lemma {:induction false} ReducePops(cs: seq<string>, m: nat)
    requires Reduce(cs).ups == 0 && m <= |Reduce(cs).names|
    ensures Reduce(cs + Ups(m)) == Stack(0, Reduce(cs).names[..|Reduce(cs).names| - m])
  {
    if m == 0 {
      assert cs + Ups(0) == cs;
    } else {
      assert (cs + Ups(m))[..|cs| + m - 1] == cs + Ups(m - 1);
      assert (cs + Ups(m))[|cs| + m - 1] == "..";
      ReducePops(cs, m - 1);
    }
  }

  /** Down in `base`, up and down again: resolving the components leads to the components of path. */
  lemma {:induction false} Resolves(b: seq<string>, p: seq<string>)
    requires (forall c :: c in b ==> IsProper(c)) && (forall c :: c in p ==> IsProper(c))
    ensures var k := Common(b, p); Reduce(b + (Ups(|b| - k) + p[k..])) == Stack(0, p)
  {
    hide Common, Reduce;
    var k := Common(b, p);
    NoneReduced();
    ReducePushes([], b);
    assert [] + b == b;
    assert Reduce(b) == Stack(0, b);
    ReducePops(b, |b| - k);
    assert b[..|b| - (|b| - k)] == b[..k];
    assert forall d :: d in p[k..] ==> d in p;
    ReducePushes(b + Ups(|b| - k), p[k..]);
    Associate(b, Ups(|b| - k), p[k..]);
    assert b[..k] + p[k..] == p;
  }

  lemma RelativeStart(base: string, path: string)
    ensures var rel := Relative(base, path); rel != "" && rel[0] != '/'
    ensures var b, p := Comps(base), Comps(path); var k := Common(b, p);
            Comps(Relative(base, path)) == if b == p then ["."] else Ups(|b| - k) + p[k..]
  {
    hide Comps, Common, Join;
    var b, p := Comps(base), Comps(path);
    var k := Common(b, p);
    var parts := Ups(|b| - k) + p[k..];
    assert parts == [] ==> b == b[..k] && p == p[..k];
    if b == p {
      CommonSelf(b);
      CompsOfName(".");
    } else {
      CompsOfJoin(parts);
      FirstByte(parts);
    }
  }

  lemma DotAtEnd(base: string)
    requires |base| >= 2 && base[|base| - 2] == '/' && base[|base| - 1] == '.'
    ensures "." in Comps(base)
  {
    var front := base[..|base| - 1];
    assert base == front + ".";
    CompsName(front, ".");
  }

  lemma ConcatClean(base: string, rel: string)
    requires CleanAbs(base) && rel != "" && rel[0] != '/'
    ensures Comps(Concat(base, rel)) == Comps(base) + Comps(rel) && IsAbsolute(Concat(base, rel))
  {
    hide Comps;
    var n := |base|;
    if n >= 2 && base[n - 2] == '/' && base[n - 1] == '.' {
      DotAtEnd(base);
      assert false;
    } else if base == "/" {
      assert Concat(base, rel) == "" + "/" + rel;
      CompsSplit("", rel);
      CompsSlash("");
      assert "" + "/" == "/";
    } else {
      ConcatBase(base, rel);
      CompsSplit(base, rel);
    }
  }

  lemma ConcatBase(base: string, rel: string)
    requires CleanAbs(base) && base != "/" && rel != "" && rel[0] != '/'
    ensures Concat(base, rel) == base + "/" + rel
  {
    hide Comps;
    var n := |base|;
    if n >= 2 && base[n - 2] == '/' && base[n - 1] == '.' { DotAtEnd(base); }
  }

  lemma ReduceDot(cs: seq<string>)
    ensures Reduce(cs + ["."]) == Reduce(cs)
  {
    assert (cs + ["."])[..|cs|] == cs;
  }

  // --------------------------------------------- paths that look like drive letters

  lemma {:induction false} NamesBound(cs: seq<string>, m: nat)
    ensures |Reduce(cs).names| <= |cs|
    ensures m >= |cs| ==> Reduce(cs + Ups(m)).names == []
    ensures |Reduce(cs + Ups(m)).names| <= if m <= |cs| then |cs| - m else 0
    decreases |cs| + m
  {
    if m > 0 {
      assert (cs + Ups(m))[..|cs| + m - 1] == cs + Ups(m - 1);
      assert (cs + Ups(m))[|cs| + m - 1] == "..";
      NamesBound(cs, m - 1);
    } else {
      assert cs + Ups(0) == cs;
      if cs != [] {
        var init := cs[..|cs| - 1];
        NamesBound(init, 0);
        assert init + Ups(0) == init;
      }
    }
  }

  /** What resolves by itself resolves to the same names behind anything else. */
  lemma {:induction false} ReduceBehind(front: seq<string>, cs: seq<string>)
    requires Reduce(cs).ups == 0
    ensures Reduce(front + cs) == Stack(Reduce(front).ups, Reduce(front).names + Reduce(cs).names)
  {
    if cs == [] {
      assert front + cs == front && Reduce(front).names + [] == Reduce(front).names;
    } else {
      var init, c := cs[..|cs| - 1], cs[|cs| - 1];
      assert (front + cs)[..|front + cs| - 1] == front + init;
      ReduceBehind(front, init);
    }
  }

  /** A clean path with a colon behind its slash: the rest of its first name, and what is behind the colon. */
  lemma ColonFront(s: string) returns (q: string)
    requires CleanAbs(s) && HasDrive(s)
    ensures Comps(s) != [] && Comps(s)[0] == ":" + q && '/' !in q
    ensures Comps(s[2..]) == (if q == "" then [] else [q]) + Comps(s)[1..]
    ensures q == "" <==> |s| == 2 || s[2] == '/'
    ensures |s| > 2 ==> s[2..] == Piece(q, Comps(s)[1..]) && (q == "" ==> Comps(s)[1..] != [])
  {
    hide Comps, Join, Piece;
    CutAtSlash(s, 0);
    EmptyFront("x");
    var t := s[1..];
    SegmentText(t);
    var cs := Comps(t);
    assert [] + cs == cs && Comps(s) == cs && s[..0] == "";
    assert IsName(cs[0]);
    q := FirstPiece(cs, 1);
    var cs' := cs[1..];
    assert t[..1] == ":" && t[1..] == s[2..];
    assert [] + cs' == cs';
    if |s| > 2 {
      PieceComps(q, cs');
      PieceFront(q, cs');
    } else {
      assert s[2..] == "";
    }
  }

  lemma PieceFront(q: string, cs: seq<string>)
    requires '/' !in q
    ensures Piece(q, cs) != "" && (Piece(q, cs)[0] == '/' <==> q == "")
  {
    JoinCons(q, cs);
  }

  lemma PieceComps(q: string, cs: seq<string>)
    requires '/' !in q && forall c :: c in cs ==> IsName(c)
    ensures Comps(Piece(q, cs)) == (if q == "" then [] else [q]) + cs
  {
    hide Comps, Join;
    if q == "" {
      CompsOfText(true, cs);
      assert [] + cs == cs;
    } else {
      CompsOfText(false, [q] + cs);
      assert "" + Join([q] + cs) == Join([q] + cs);
    }
  }

  lemma CleanIsJoin(path: string)
    requires CleanAbs(path)
    ensures path == "/" + Join(Comps(path))
  {
    hide Comps, Join;
    CutAtSlash(path, 0);
    assert path[..0] == "" && path == "/" + path[1..];
    EmptyFront("x");
    SegmentText(path[1..]);
    assert [] + Comps(path[1..]) == Comps(path[1..]);
  }

  /** A clean path has clean text. */
  lemma TextOfClean(path: string)
    requires CleanAbs(path)
    ensures Text(path) == path
  {
    hide Comps, Join, Reduce;
    var p := Comps(path);
    CleanIsJoin(path);
    ReduceOfClean(0, p);
    assert Ups(0) + p == p;
  }

  /** cleanPath() leaves a clean path alone, unless it has nothing or a "." for itself behind a colon. */
  lemma CleanOfClean(path: string)
    requires CleanAbs(path)
    ensures Clean(path) == path <==> path != "/:" && !DotBehindColon(path)
  {
    hide Comps, Text, Piece, Clean;
    TextOfClean(path);
    if !HasDrive(path) {
      CleanWithoutDrive(path);
    } else {
      var q := ColonFront(path);
      assert path == path[..2] + path[2..];
      CleanBehindDrive(path[..2], path[2..]);
      if |path| > 2 {
        PieceText(q, Comps(path)[1..]);
        DotBehindDrive(path);
      }
    }
  }

  /** What makes cleanPath() take the front of base or path for a drive letter. */
  predicate Astray(base: string, path: string)
  {
    || path == "/:"
    || (HasDrive(base) && Common(Comps(base), Comps(path)) == 0)
    || (DotBehindColon(path) && (HasDrive(base) || base == "/"))
  }

  lemma RelativeFromRoot(path: string)
    ensures Comps("/") == []
    ensures Relative("/", path) == if Comps(path) == [] then "." else Join(Comps(path))
  {
    hide Comps, Join;
    NoComps();
    CompsSlash("");
    assert "" + "/" == "/";
    var p := Comps(path);
    assert Ups(0) + p == p;
  }

  lemma ConcatRoot(path: string)
    requires CleanAbs(path)
    ensures Concat("/", Relative("/", path)) == if path == "/" then "/." else path
  {
    hide Comps, Join, Relative;
    RelativeFromRoot(path);
    RelativeStart("/", path);
    CleanIsJoin(path);
    JoinNone();
    if path == "/" { RelativeFromRoot("/"); }
  }

  lemma CommonStep(b: seq<string>, p: seq<string>)
    requires Common(b, p) > 0
    ensures b != [] && p != [] && b[0] == p[0]
    ensures Common(b[1..], p[1..]) == Common(b, p) - 1
    ensures p[1..][Common(b, p) - 1..] == p[Common(b, p)..]
  {
  }

  /** Up and down again behind any front, which may itself be all that is left of the first common name. */
  lemma {:induction false} SharedFront(b: seq<string>, p: seq<string>, front: seq<string>)
    requires (forall c :: c in b ==> IsProper(c)) && (forall c :: c in p ==> IsProper(c))
    requires Common(b, p) > 0
    ensures var k := Common(b, p);
            Reduce(front + b[1..] + (Ups(|b| - k) + p[k..])) == Reduce(front + p[1..])
  {
    hide Reduce, Common, IsProper, Ups;
    var k := Common(b, p);
    CommonStep(b, p);
    var b', p' := b[1..], p[1..];
    var rest := Ups(|b'| - (k - 1)) + p'[k - 1..];
    Resolves(b', p');
    ReduceBehind(front, b' + rest);
    Associate(front, b', rest);
    NoneReduced();
    ReducePushes([], p');
    assert [] + p' == p';
    ReduceBehind(front, p');
  }

  /** Without common names all of path stands behind what is left. */
  lemma NothingShared(b: seq<string>, p: seq<string>, front: seq<string>)
    requires forall c :: c in p ==> IsProper(c)
    requires Common(b, p) == 0 && |front| <= 1 && b != []
    ensures Reduce(front + b[1..] + (Ups(|b|) + p[0..])).names == p
  {
    hide Reduce;
    var a := front + b[1..];
    NamesBound(a, |b|);
    ReducePushes(a + Ups(|b|), p);
    Associate(a, Ups(|b|), p);
    assert p[0..] == p && [] + p == p;
  }

  /** The relative path, resolved behind other names; "." leads nowhere else. */
  lemma ReduceRelative(base: string, path: string, front: seq<string>)
    requires CleanAbs(base) && CleanAbs(path)
    ensures var b, p := Comps(base), Comps(path); var k := Common(b, p);
            Reduce(front + Comps(Relative(base, path))) == Reduce(front + (Ups(|b| - k) + p[k..]))
  {
    hide Comps, Relative, Reduce;
    var b, p := Comps(base), Comps(path);
    RelativeStart(base, path);
    if b == p {
      CommonSelf(b);
      ReduceDot(front);
      assert Ups(0) + p[|p|..] == [] && front + [] == front;
    }
  }

  lemma SameText(s: string, t: string)
    requires (IsAbsolute(s) <==> IsAbsolute(t)) && Reduce(Comps(s)) == Reduce(Comps(t))
    ensures Text(s) == Text(t)
  {
  }

  /** Drive letters aside, going to base and then along the relative path leads to path. */
  lemma RelativeText(base: string, path: string)
    requires CleanAbs(base) && CleanAbs(path)
    ensures Text(Concat(base, Relative(base, path))) == path
  {
    hide Comps, Join, Relative, Common, Reduce, Concat, Text;
    var b, p, rel := Comps(base), Comps(path), Relative(base, path);
    RelativeStart(base, path);
    ConcatClean(base, rel);
    ReduceRelative(base, path, b);
    Resolves(b, p);
    NoneReduced();
    ReducePushes([], p);
    assert [] + p == p;
    SameText(Concat(base, rel), path);
    TextOfClean(path);
  }

  /** What cleanPath() resolves when it takes the front of base for a drive letter. */
  lemma BehindDrive(base: string, path: string) returns (rest: string)
    requires CleanAbs(base) && CleanAbs(path) && HasDrive(base)
    ensures Concat(base, Relative(base, path)) == "/:" + rest
    ensures IsAbsolute(rest) <==> |base| == 2 || base[2] == '/'
    ensures Common(Comps(base), Comps(path)) == 0 ==> Reduce(Comps(rest)).names == Comps(path)
    ensures Common(Comps(base), Comps(path)) > 0 ==>
      HasDrive(path) && (IsAbsolute(rest) <==> |path| == 2 || path[2] == '/')
      && Reduce(Comps(rest)) == Reduce(Comps(path[2..]))
  {
    hide Comps, Relative, Common, Reduce, Concat, Piece;
    var b, p, rel := Comps(base), Comps(path), Relative(base, path);
    RelativeStart(base, path);
    ConcatBase(base, rel);
    rest := base[2..] + "/" + rel;
    assert base == "/:" + base[2..];
    Associate("/:", base[2..], "/" + rel);
    var q := ColonFront(base);
    var front := if q == "" then [] else [q];
    CompsSplit(base[2..], rel);
    ReduceRelative(base, path, front + b[1..]);
    if Common(b, p) == 0 {
      NothingShared(b, p, front);
    } else {
      CommonStep(b, p);
      SharedFront(b, p, front);
      ColonSecond(path);
      var q' := ColonFront(path);
      assert q' == (":" + q')[1..] == (":" + q)[1..] == q;
    }
  }

  lemma ColonSecond(path: string)
    requires CleanAbs(path) && Comps(path) != [] && Comps(path)[0] != "" && Comps(path)[0][0] == ':'
    ensures HasDrive(path)
  {
    hide Comps, Join;
    CleanIsJoin(path);
    var cs := Comps(path);
    assert cs == [cs[0]] + cs[1..];
    JoinCons(cs[0], cs[1..]);
  }

  lemma TextHoldsNames(s: string)
    ensures |Join(Reduce(Comps(s)).names)| <= |Text(s)|
  {
    hide Reduce, Comps, Join;
    var st := Reduce(Comps(s));
    JoinSuffix(Ups(st.ups), st.names);
  }

  /** The case of a base that looks like a drive letter. */
  lemma LedByDrive(base: string, path: string)
    requires CleanAbs(base) && CleanAbs(path) && HasDrive(base)
    ensures Clean(Concat(base, Relative(base, path))) == path <==> !Astray(base, path)
  {
    hide Comps, Relative, Common, Reduce, Concat, Text, Join, Clean, CleanAbs;
    var rest := BehindDrive(base, path);
    CleanBehindDrive("/:", rest);
    CleanIsJoin(path);
    if Common(Comps(base), Comps(path)) == 0 {
      TextHoldsNames(rest);
    } else if |path| == 2 {
      TextKeepsAbsolute(rest);
    } else {
      SameText(rest, path[2..]);
      assert path == "/:" + path[2..];
      CleanBehindDrive("/:", path[2..]);
      CleanOfClean(path);
    }
  }

  /** Going to base and then along the relative path leads to path, unless that looks like a drive letter. */
  lemma RelativeLeadsToPath(base: string, path: string)
    requires CleanAbs(base) && CleanAbs(path)
    ensures Clean(Concat(base, Relative(base, path))) == path <==> !Astray(base, path)
  {
    hide Comps, Relative, Common, Reduce, Concat, Text, Join, Clean;
    RelativeText(base, path);
    if base == "/" {
      ConcatRoot(path);
      CleanOfClean(path);
      CleanWithoutDrive("/.");
    } else if HasDrive(base) {
      LedByDrive(base, path);
    } else {
      RelativeStart(base, path);
      ConcatBase(base, Relative(base, path));
      assert !HasDrive(base + "/" + Relative(base, path));
      CleanWithoutDrive(Concat(base, Relative(base, path)));
    }
  }

  /** For instance, from "/:a" one does not get to "/b". */
  lemma ColonMisleads()
    ensures CleanAbs("/:a") && CleanAbs("/b")
    ensures Clean(Concat("/:a", Relative("/:a", "/b"))) != "/b"
  {
    hide Comps, Clean, Concat, Relative;
    NoComps();
    CompsSlash("");
    assert "" + "/" == "/" && "/" + ":a" == "/:a" && "/" + "b" == "/b";
    CompsName("/", ":a");
    CompsName("/", "b");
    assert [] + [":a"] == [":a"] && [] + ["b"] == ["b"];
    RelativeLeadsToPath("/:a", "/b");
  }
}
