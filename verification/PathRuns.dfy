/** The three path functions together. */
module PathRuns {
  import opened Paths
  import opened CleanPathMethod
  import opened RelPath

  lemma RelativeFree(base: string, path: string, bad: set<char>)
    requires Free(path, bad) && '/' !in bad && '.' !in bad
    ensures Free(Relative(base, path), bad)
  {
    hide Comps, Common, Join;
    CompsFree(path, bad);
    var b, p := Comps(base), Comps(path);
    var k := Common(b, p);
    var parts := Ups(|b| - k) + p[k..];
    forall c | c in parts
      ensures Free(c, bad)
    {
    }
    JoinFree(parts, bad);
  }

  lemma ConcatFree(first: string, second: string, bad: set<char>)
    requires Free(first, bad) && Free(second, bad) && '/' !in bad
    ensures Free(Concat(first, second), bad)
    ensures |Concat(first, second)| <= |first| + |second| + 1
  {
  }

  /** The path as a C string in memory of its own. */
  method Strdup(s: string) returns (a: array<char>)
    requires '\0' !in s
    ensures fresh(a) && Terminated(a) && CStr(a[..]) == s
  {
    a := new char[|s| + 1](i => if 0 <= i < |s| then s[i] else '\0');
    assert a[..|s|] == s;
    CStrIs(a[..], s);
  }

  /** From base along the relative path, cleaned: one arrives at path, or is led astray. */
  method ThereAndBack(base: string, path: string) returns (out: string)
    requires CleanAbs(base) && CleanAbs(path) && Free(base, {'\0'}) && Free(path, {'\0'})
    requires |base| + |Relative(base, path)| + 2 < MAXPATH
    ensures out == path <==> !Astray(base, path)
  {
    hide CleanAbs, Comps, Relative, Concat, Clean, CStr, Astray;
    RelativeFree(base, path, {'\0'});
    var rel := Relpath(base, path);
    ConcatFree(base, rel, {'\0'});
    var first := Strdup(base);
    var second := Strdup(rel);
    var buf := new char[MAXPATH];
    ConcatPath(buf, first, second);
    out := CleanPath(CStr(buf[..]));
    RelativeLeadsToPath(base, path);
  }
}
