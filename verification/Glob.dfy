/** match_one() of utils/glob.c: literals, `\c`, `?`, `*` and brackets, well formed or not. */
module Glob {
  import opened Wrappers
  import opened Seqs

  /** A byte of a C string. */
  type letter = c: char | '\0' < c <= '\U{FF}' witness 'a'

  datatype Token =
    | Lit(c: letter)
    | Any
    | Star
    | Class(inverted: bool, items: seq<(letter, letter)>)
    | Unclosed  // a bracket that is refused, as there is no ']' behind it
    | Runaway   // a bracket that takes its ']' for a member and does not find another one
    | Dangling  // a backslash at the end

  /** What a call does: it returns 1, it returns 0, or it reads behind the end of one of its strings. */
  datatype Outcome = Yes | No | Outside

  /** C(): the character, in lower case when case is ignored. */
  function Fold(c: char, ignorecase: bool): char
  {
    if ignorecase && 'A' <= c <= 'Z' then c + 32 as char else c
  }

  // ------------------------------------------------------------------ patterns

  /** One member of a bracket, and how many characters it takes; none if they are not there. */
  function Item(u: seq<letter>): Option<((letter, letter), nat)>
    requires u != []
  {
    if |u| >= 2 && u[1] == '-' then
      if |u| == 2 then None else Some(((u[0], u[2]), 3))
    else Some(((u[0], u[0]), 1))
  }

  /** The members of a bracket, of which there is at least one, and what follows its ']'. */
  function Items(u: seq<letter>): (r: Option<(seq<(letter, letter)>, seq<letter>)>)
    requires u != []
    ensures r.Some? ==> |r.value.1| < |u|
  {
    var item := Item(u);
    if item.None? || |u| <= item.value.1 then None
    else
      var (member, n) := item.value;
      if u[n] == ']' then Some(([member], u[n + 1..]))
      else
        var more := Items(u[n..]);
        if more.None? then None else Some(([member] + more.value.0, more.value.1))
  }

  /** The bracket in front of which u stands, and the pattern behind it. */
  function Bracket(u: seq<letter>): (r: (Token, seq<letter>))
    ensures |r.1| <= |u| && r.0 != Star
  {
    var inverted := u != [] && u[0] == '^';
    var v := if inverted then u[1..] else u;
    if ']' !in v then (Unclosed, [])
    else
      var items := Items(v);
      if items.None? then (Runaway, []) else (Class(inverted, items.value.0), items.value.1)
  }

  function Tokens(glob: seq<letter>): (t: seq<Token>)
    ensures glob == [] <==> t == []
    decreases |glob|
  {
    if glob == [] then []
    else if glob[0] == '\\' then
      if |glob| == 1 then [Dangling] else [Lit(glob[1])] + Tokens(glob[2..])
    else if glob[0] == '[' then
      var (token, rest) := Bracket(glob[1..]);
      [token] + Tokens(rest)
    else [if glob[0] == '?' then Any else if glob[0] == '*' then Star else Lit(glob[0])] + Tokens(glob[1..])
  }

  // ------------------------------------------------------------------- meaning

  predicate Within(c: char, item: (letter, letter), ic: bool)
  {
    Fold(item.0, ic) <= Fold(c, ic) <= Fold(item.1, ic)
  }

  predicate InClass(c: char, items: seq<(letter, letter)>, ic: bool)
  {
    exists i :: 0 <= i < |items| && Within(c, items[i], ic)
  }

  predicate Accepts(token: Token, c: letter, ic: bool)
  {
    match token
    case Lit(d) => Fold(c, ic) == Fold(d, ic)
    case Any => true
    case Class(inverted, items) => InClass(c, items, ic) != inverted
    case _ => false
  }

  /** What a pattern means. */
  ghost predicate Matches(t: seq<Token>, s: seq<letter>, ic: bool)
    decreases |t|
  {
    if t == [] then s == []
    else if t[0] == Star then exists k :: 0 <= k <= |s| && Matches(t[1..], s[k..], ic)
    else s != [] && Accepts(t[0], s[0], ic) && Matches(t[1..], s[1..], ic)
  }

  ghost function Meaning(t: seq<Token>, s: seq<letter>, ic: bool): Outcome
  {
    if Matches(t, s, ic) then Yes else No
  }

  // ------------------------------------------------------------------ execution

  /** What match_one() does with s, the rest of the string. */
  function Run(t: seq<Token>, s: seq<letter>, ic: bool): Outcome
    decreases |t|, |s|, 0
  {
    if t == [] then if s == [] then Yes else No
    else
      match t[0]
      case Star => if |t| == 1 then Yes else FirstOf(t[1..], s, ic)
      case Unclosed => No
      case Runaway => Outside
      case Dangling => if s == [] then Outside else No
      case _ =>
        if s != [] then if Accepts(t[0], s[0], ic) then Run(t[1..], s[1..], ic) else No
        else if t[0].Class? && t[0].inverted then Past(t[1..])
        else No
  }

  /** The scan behind a star: the first rest of s, the empty one left out, with which the call does not return 0. */
  function FirstOf(t: seq<Token>, s: seq<letter>, ic: bool): Outcome
    decreases |t|, |s|, 1
  {
    if s == [] then No
    else
      var r := Run(t, s, ic);
      if r != No then r else FirstOf(t, s[1..], ic)
  }

  /** An inverted bracket accepts the NUL; few patterns go on without looking behind it. */
  function Past(t: seq<Token>): Outcome
  {
    if t == [Star] then Yes else if t != [] && t[0] == Unclosed then No else Outside
  }

  // ------------------------------------------- where execution has the meaning

  predicate AllStars(t: seq<Token>) { forall i :: 0 <= i < |t| ==> t[i] == Star }

  /** Some character gets behind a token. */
  ghost predicate HasMember(token: Token, ic: bool)
  {
    exists c: letter :: Accepts(token, c, ic)
  }

  /**
   The patterns that match_one() decides correctly; `after` says that they stand behind
   a star, where the string is never empty.  They do not end in two stars and have no
   runaway bracket.  A backslash at the end, and an inverted bracket in front of anything
   but an unclosed one, stand directly behind a star.  What follows a bracket without
   members does not matter.
   */
  ghost predicate Fine(t: seq<Token>, after: bool, ic: bool)
  {
    t == [] ||
    match t[0]
    case Star => |t| == 1 || (!AllStars(t) && Fine(t[1..], true, ic))
    case Unclosed => true
    case Runaway => false
    case Dangling => after
    case Class(inverted, items) =>
      && (inverted && !after ==> |t| > 1 && t[1] == Unclosed)
      && (HasMember(t[0], ic) ==> Fine(t[1..], false, ic))
    case _ => Fine(t[1..], false, ic)
  }

  lemma {:induction false} MatchNeedsText(t: seq<Token>, ic: bool)
    requires !AllStars(t)
    ensures !Matches(t, [], ic)
  {
    if t[0] == Star {
      assert !AllStars(t[1..]) by {
        var i :| 0 <= i < |t| && t[i] != Star;
        assert t[1..][i - 1] == t[i];
      }
      MatchNeedsText(t[1..], ic);
      var none: seq<letter> := [];
      assert none[0..] == none;
    }
  }

  /** Some rest of s that is not empty matches. */
  ghost predicate SomeRest(t: seq<Token>, s: seq<letter>, ic: bool)
  {
    exists k :: 0 <= k < |s| && Matches(t, s[k..], ic)
  }

  lemma SomeRestStep(t: seq<Token>, s: seq<letter>, ic: bool)
    requires s != []
    ensures SomeRest(t, s, ic) <==> Matches(t, s, ic) || SomeRest(t, s[1..], ic)
  {
    hide Matches;
    assert s[0..] == s;
    forall k | 0 <= k < |s| - 1
      ensures s[1..][k..] == s[k + 1..]
    {
    }
    if SomeRest(t, s, ic) {
      var k :| 0 <= k < |s| && Matches(t, s[k..], ic);
      if k > 0 { assert s[1..][k - 1..] == s[k..]; }
    }
  }

  /** A star in front of something else than stars takes all but a rest that is not empty. */
  lemma StarMeans(t: seq<Token>, s: seq<letter>, ic: bool)
    requires t != [] && t[0] == Star && !AllStars(t)
    ensures Matches(t, s, ic) <==> SomeRest(t[1..], s, ic)
  {
    assert !AllStars(t[1..]) by {
      var i :| 0 <= i < |t| && t[i] != Star;
      assert t[1..][i - 1] == t[i];
    }
    MatchNeedsText(t[1..], ic);
    assert s[|s|..] == [];
  }

  lemma LastStar(s: seq<letter>, ic: bool)
    ensures Matches([Star], s, ic)
  {
    assert [Star][1..] == [] && s[|s|..] == [];
    assert Matches([], s[|s|..], ic);
  }

  lemma {:induction false} FineRuns(t: seq<Token>, after: bool, s: seq<letter>, ic: bool)
    requires Fine(t, after, ic) && (after ==> s != [])
    ensures Run(t, s, ic) == Meaning(t, s, ic)
    decreases |t|, |s|, 0
  {
    if t != [] {
      hide SomeRest;
      if t[0] == Star {
        if |t| == 1 {
          LastStar(s, ic);
          assert t == [Star];
        } else {
          StarMeans(t, s, ic);
          FineScan(t[1..], s, ic);
        }
      } else if s != [] && Accepts(t[0], s[0], ic) {
        FineRuns(t[1..], false, s[1..], ic);
      }
    }
  }

  lemma {:induction false} FineScan(t: seq<Token>, s: seq<letter>, ic: bool)
    requires Fine(t, true, ic)
    ensures FirstOf(t, s, ic) == if SomeRest(t, s, ic) then Yes else No
    decreases |t|, |s|, 1
  {
    hide Matches, Run, Fine;
    if s != [] {
      FineRuns(t, true, s, ic);
      SomeRestStep(t, s, ic);
      hide SomeRest;
      FineScan(t, s[1..], ic);
    }
  }

  // ----------------------------------------------------- where it has another one

  /** No string of at most n characters matches. */
  ghost predicate Longer(t: seq<Token>, n: nat, ic: bool)
  {
    forall u: seq<letter> :: |u| <= n ==> !Matches(t, u, ic)
  }

  /** No string of at most n characters gets the answer 1. */
  ghost predicate Slower(t: seq<Token>, n: nat, ic: bool)
  {
    forall u: seq<letter> :: |u| <= n ==> Run(t, u, ic) != Yes
  }

  /** A string too short to match is not answered 0, or a string that matches is shorter than any answered 1. */
  ghost predicate Wrong(t: seq<Token>, s: seq<letter>, ic: bool)
  {
    || (Run(t, s, ic) != No && Longer(t, |s|, ic))
    || (Matches(t, s, ic) && Slower(t, |s|, ic))
  }

  lemma WrongDiffers(t: seq<Token>, s: seq<letter>, ic: bool)
    requires Wrong(t, s, ic)
    ensures Run(t, s, ic) != Meaning(t, s, ic)
  {
  }

  lemma {:induction false} FirstOfNo(t: seq<Token>, n: nat, s: seq<letter>, ic: bool)
    requires Slower(t, n, ic) && |s| <= n
    ensures FirstOf(t, s, ic) != Yes
    decreases |s|
  {
    hide Run;
    if s != [] { FirstOfNo(t, n, s[1..], ic); }
  }

  /** A star in front keeps it wrong. */
  lemma WrongBehindStar(t: seq<Token>, s: seq<letter>, ic: bool)
    requires t != [] && t[0] == Star && !AllStars(t) && s != [] && Wrong(t[1..], s, ic)
    ensures Wrong(t, s, ic)
  {
    var r := t[1..];
    assert s[0..] == s;
    if Run(r, s, ic) != No && Longer(r, |s|, ic) {
      forall u: seq<letter> | |u| <= |s|
        ensures !Matches(t, u, ic)
      {
        StarMeans(t, u, ic);
      }
    } else {
      assert Matches(t, s, ic);
      forall u: seq<letter> | |u| <= |s|
        ensures Run(t, u, ic) != Yes
      {
        FirstOfNo(r, |s|, u, ic);
      }
    }
  }

  /** So does a token with a character for it. */
  lemma WrongBehindToken(t: seq<Token>, c: letter, s: seq<letter>, ic: bool)
    requires t != [] && Accepts(t[0], c, ic) && t[1..] != [Star] && Wrong(t[1..], s, ic)
    ensures Wrong(t, [c] + s, ic)
  {
    var r, s' := t[1..], [c] + s;
    assert s'[1..] == s;
    if Run(r, s, ic) != No && Longer(r, |s|, ic) {
      forall u: seq<letter> | |u| <= |s'|
        ensures !Matches(t, u, ic)
      {
      }
    } else {
      forall u: seq<letter> | |u| <= |s'|
        ensures Run(t, u, ic) != Yes
      {
      }
    }
  }

  /** A string with which a pattern that is not fine goes wrong. */
  lemma {:induction false} Witness(t: seq<Token>, after: bool, ic: bool) returns (s: seq<letter>)
    requires !Fine(t, after, ic) && (after ==> !AllStars(t))
    ensures (after ==> s != []) && Wrong(t, s, ic)
    decreases |t|
  {
    hide Run, Matches, Wrong, Accepts;
    match t[0]
    case Star =>
      if AllStars(t) {
        s := [];
        StarsWrong(t, ic);
      } else {
        s := Witness(t[1..], true, ic);
        WrongBehindStar(t, s, ic);
      }
    case Class(inverted, items) =>
      if inverted && !after && !(|t| > 1 && t[1] == Unclosed) {
        s := [];
        AtTheEnd(t, ic);
      } else {
        var c: letter :| Accepts(t[0], c, ic);
        s := Witness(t[1..], false, ic);
        WrongBehindToken(t, c, s, ic);
        s := [c] + s;
      }
    case Runaway =>
      s := ['x'];
      RunawayWrong(t, s, ic);
    case Dangling =>
      s := [];
      AtTheEnd(t, ic);
    case Lit(c) =>
      TakesItself(t[0], c, ic);
      s := Witness(t[1..], false, ic);
      WrongBehindToken(t, c, s, ic);
      s := [c] + s;
    case Any =>
      TakesItself(t[0], 'x', ic);
      s := Witness(t[1..], false, ic);
      WrongBehindToken(t, 'x', s, ic);
      s := ['x'] + s;
  }

  lemma TakesItself(token: Token, c: letter, ic: bool)
    requires token == Lit(c) || token == Any
    ensures Accepts(token, c, ic)
  {
  }

  lemma RunawayWrong(t: seq<Token>, s: seq<letter>, ic: bool)
    requires t != [] && t[0] == Runaway
    ensures Wrong(t, s, ic)
  {
  }

  lemma AtTheEnd(t: seq<Token>, ic: bool)
    requires t != [] && (t[0] == Dangling || (t[0].Class? && t[0].inverted && !(|t| > 1 && t[1] == Unclosed)))
    ensures Wrong(t, [], ic)
  {
  }

  lemma StarsWrong(t: seq<Token>, ic: bool)
    requires |t| >= 2 && AllStars(t)
    ensures Wrong(t, [], ic)
  {
    StarsMatchNothing(t, ic);
    assert FirstOf(t[1..], [], ic) == No && t[0] == Star;
  }

  lemma {:induction false} StarsMatchNothing(t: seq<Token>, ic: bool)
    requires AllStars(t)
    ensures Matches(t, [], ic)
  {
    if t != [] {
      StarsMatchNothing(t[1..], ic);
      var none: seq<letter> := [];
      assert none[0..] == none;
    }
  }

  /** match_one() decides what the pattern means, for every string, exactly if the pattern is fine. */
  lemma AgreesExactly(t: seq<Token>, ic: bool)
    ensures (forall s: seq<letter> :: Run(t, s, ic) == Meaning(t, s, ic)) <==> Fine(t, false, ic)
  {
    hide Run, Meaning, Fine;
    if Fine(t, false, ic) {
      forall s: seq<letter>
        ensures Run(t, s, ic) == Meaning(t, s, ic)
      {
        FineRuns(t, false, s, ic);
      }
    } else {
      var s := Witness(t, false, ic);
      WrongDiffers(t, s, ic);
    }
  }

  // ------------------------------------------------------- stars at the end

  predicate Plain(t: seq<Token>)
  {
    forall i :: 0 <= i < |t| ==> t[i].Lit? || t[i].Any? || t[i].Star?
  }

  predicate EndsInTwoStars(t: seq<Token>) { |t| >= 2 && t[|t| - 1] == Star && t[|t| - 2] == Star }

  /** The pattern that is really looked for: two or more stars at the end need at least one character. */
  function Actual(t: seq<Token>): (r: seq<Token>)
    ensures r == [] <==> t == []
    ensures Plain(t) ==> Plain(r)
  {
    if |t| >= 2 && AllStars(t) then [Any, Star]
    else if t == [] then []
    else [t[0]] + Actual(t[1..])
  }

  lemma {:induction false} ActualRuns(t: seq<Token>, s: seq<letter>, ic: bool)
    ensures Run(Actual(t), s, ic) == Run(t, s, ic)
    decreases |t|, |s|, 0
  {
    if |t| >= 2 && AllStars(t) {
      assert t[0] == Star && [Any, Star][1..] == [Star];
      StarsRun(t[1..], s, ic);
    } else if t != [] {
      var a := Actual(t);
      assert a[0] == t[0] && a[1..] == Actual(t[1..]);
      ActualPast(t[1..]);
      hide Past;
      if t[0] == Star {
        assert |t| > 1 ==> |a| > 1;
        ActualScans(t[1..], s, ic);
      } else if s != [] {
        ActualRuns(t[1..], s[1..], ic);
      }
    }
  }

  lemma ActualPast(t: seq<Token>)
    ensures Past(Actual(t)) == Past(t)
  {
    if t != [] && !(|t| >= 2 && AllStars(t)) {
      assert |t| == 1 ==> t == [t[0]] && Actual(t) == t;
      assert |t| > 1 ==> Actual(t[1..]) != [];
    }
  }

  lemma {:induction false} ActualScans(t: seq<Token>, s: seq<letter>, ic: bool)
    ensures FirstOf(Actual(t), s, ic) == FirstOf(t, s, ic)
    decreases |t|, |s|, 1
  {
    hide Run, Actual;
    if s != [] {
      ActualRuns(t, s, ic);
      ActualScans(t, s[1..], ic);
    }
  }

  lemma {:induction false} StarsRun(t: seq<Token>, s: seq<letter>, ic: bool)
    requires t != [] && AllStars(t)
    ensures FirstOf(t, s, ic) == if s == [] then No else Yes
    decreases |t|
  {
    if s != [] && |t| > 1 {
      assert t[0] == Star;
      StarsRun(t[1..], s, ic);
    }
  }

  lemma {:induction false} PlainFine(t: seq<Token>, after: bool, ic: bool)
    requires Plain(t) && (after ==> !AllStars(t))
    ensures Fine(t, after, ic) <==> !EndsInTwoStars(t)
  {
    if |t| >= 2 {
      var r := t[1..];
      assert r[|r| - 1] == t[|t| - 1];
      assert |t| >= 3 ==> r[|r| - 2] == t[|t| - 2];
      if t[0] == Star {
        if AllStars(t) {
          assert t[|t| - 1] == Star && t[|t| - 2] == Star;
        } else {
          assert !AllStars(r) by {
            var i :| 0 <= i < |t| && t[i] != Star;
            assert r[i - 1] == t[i];
          }
          PlainFine(r, true, ic);
        }
      } else {
        PlainFine(r, false, ic);
      }
    } else if |t| == 1 {
      assert t[1..] == [];
    }
  }

  lemma {:induction false} ActualEnds(t: seq<Token>)
    ensures !EndsInTwoStars(Actual(t))
  {
    if t != [] && !(|t| >= 2 && AllStars(t)) {
      ActualEnds(t[1..]);
      var r := Actual(t[1..]);
      assert Actual(t) == [t[0]] + r;
      if |r| == 1 && r == [Star] && t[0] == Star {
        OnlyStar(t[1..]);
        assert false;
      }
      assert |r| >= 2 ==> Actual(t)[|r|] == r[|r| - 1] && Actual(t)[|r| - 1] == r[|r| - 2];
    }
  }

  lemma ActualLength(t: seq<Token>)
    ensures |Actual(t)| == 1 <==> |t| == 1
  {
    if t != [] && !(|t| >= 2 && AllStars(t)) {
      assert Actual(t) == [t[0]] + Actual(t[1..]);
    }
  }

  lemma OnlyStar(t: seq<Token>)
    requires Actual(t) == [Star]
    ensures t == [Star]
  {
    ActualLength(t);
    assert t == [t[0]];
  }

  /**
   Without brackets and a backslash at the end, a pattern is decided as it is meant
   exactly if it does not end in two stars, and else with one character more.
   */
  lemma PlainPatterns(t: seq<Token>, ic: bool)
    requires Plain(t)
    ensures (forall s: seq<letter> :: Run(t, s, ic) == Meaning(t, s, ic)) <==> !EndsInTwoStars(t)
    ensures forall s: seq<letter> :: Run(t, s, ic) == Meaning(Actual(t), s, ic)
  {
    hide Run, Meaning, Fine, Actual, EndsInTwoStars;
    AgreesExactly(t, ic);
    PlainFine(t, false, ic);
    AgreesExactly(Actual(t), ic);
    PlainFine(Actual(t), false, ic);
    ActualEnds(t);
    forall s: seq<letter>
      ensures Run(t, s, ic) == Meaning(Actual(t), s, ic)
    {
      ActualRuns(t, s, ic);
    }
  }

  // ------------------------------------------------------------------- methods

  /** Members already read, in front of those that are read next. */
  function Behind(done: seq<(letter, letter)>, r: Option<(seq<(letter, letter)>, seq<letter>)>):
    Option<(seq<(letter, letter)>, seq<letter>)>
  {
    if r.None? then None else Some((done + r.value.0, r.value.1))
  }

  lemma BehindNone(r: Option<(seq<(letter, letter)>, seq<letter>)>)
    ensures Behind([], r) == r
  {
    if r.Some? { assert [] + r.value.0 == r.value.0; }
  }

  /** One member more. */
  lemma ItemsStep(done: seq<(letter, letter)>, u: seq<letter>)
    requires u != []
    ensures var item := Item(u);
            if item.None? || |u| <= item.value.1 then Behind(done, Items(u)) == None
            else
              var (member, n) := item.value;
              if u[n] == ']' then Behind(done, Items(u)) == Some((done + [member], u[n + 1..]))
              else Behind(done, Items(u)) == Behind(done + [member], Items(u[n..]))
  {
    var item := Item(u);
    if item.Some? && |u| > item.value.1 {
      var (member, n) := item.value;
      if u[n] != ']' {
        var more := Items(u[n..]);
        if more.Some? { Associate(done, [member], more.value.0); }
      }
    }
  }

  lemma InClassStep(c: char, done: seq<(letter, letter)>, member: (letter, letter), ic: bool)
    ensures InClass(c, done + [member], ic) <==> InClass(c, done, ic) || Within(c, member, ic)
  {
    var more := done + [member];
    assert more[|done|] == member && forall i :: 0 <= i < |done| ==> more[i] == done[i];
  }

  /** The NUL is no member. */
  lemma NulIsOut(items: seq<(letter, letter)>, ic: bool)
    ensures !InClass('\0', items, ic)
  {
  }

  /**
   A bracket against the character `cur`, the NUL included: Yes if it is accepted,
   with g' at the ']'.
   */
  method ReadBracket(cur: char, glob: seq<letter>, g: nat, ignorecase: bool) returns (r: Outcome, g': nat)
    requires g < |glob| && glob[g] == '['
    ensures var (token, rest) := Bracket(glob[g + 1..]);
            && (token == Runaway ==> r == Outside)
            && (token == Unclosed ==> r == No)
            && (token.Class? ==>
                 && g < g' < |glob| && rest == glob[g' + 1..]
                 && r == if InClass(cur, token.items, ignorecase) != token.inverted then Yes else No)
  {
    g' := g + 1;
    var invert := g' < |glob| && glob[g'] == '^';
    if invert { g' := g' + 1; }
    ghost var v := glob[g'..];
    assert invert ==> glob[g + 1..][1..] == v;
    if ']' !in glob[g'..] { return No, g'; }  // bad glob
    var ok, m;
    ok, m, g' := ReadItems(cur, glob, g', ignorecase);
    r := if !ok then Outside else if m != invert then Yes else No;
  }

  /** The members of a bracket up to its ']', at which g' is left. */
  method ReadItems(cur: char, glob: seq<letter>, g: nat, ignorecase: bool) returns (ok: bool, m: bool, g': nat)
    requires g < |glob|
    ensures ok <==> Items(glob[g..]).Some?
    ensures ok ==>
      && g < g' < |glob| && Items(glob[g..]).value.1 == glob[g' + 1..]
      && (m <==> InClass(cur, Items(glob[g..]).value.0, ignorecase))
  {
    hide Items, InClass, Within, Behind;
    m, g' := false, g;
    ghost var u := glob[g..];
    ghost var done: seq<(letter, letter)> := [];
    BehindNone(Items(u));
    NoMember(cur, ignorecase);
    while true
      invariant g <= g' < |glob| && Behind(done, Items(glob[g'..])) == Items(u)
      invariant m <==> InClass(cur, done, ignorecase)
      decreases |glob| - g'
    {
      ItemsStep(done, glob[g'..]);
      BehindIs(done, Items(glob[g'..]));
      ghost var from := g';
      var member := (glob[g'], glob[g']);
      if g' + 1 < |glob| && glob[g' + 1] == '-' {
        if g' + 2 == |glob| { return false, m, g'; }  // the end of the range is the NUL
        member := (glob[g'], glob[g' + 2]);
        g' := g' + 2;
      }
      InClassStep(cur, done, member, ignorecase);
      if Fold(member.0, ignorecase) <= Fold(cur, ignorecase) <= Fold(member.1, ignorecase) { m := true; }
      WithinIs(cur, member, ignorecase);
      done := done + [member];
      g' := g' + 1;
      if g' == |glob| { return false, m, g'; }  // behind the NUL
      assert glob[from..][g' - from] == glob[g'] && glob[from..][g' - from..] == glob[g'..];
      assert glob[from..][g' - from + 1..] == glob[g' + 1..];
      if glob[g'] == ']' { return true, m, g'; }
    }
  }

  lemma NoMember(c: char, ic: bool)
    ensures !InClass(c, [], ic)
  {
  }

  lemma WithinIs(c: char, item: (letter, letter), ic: bool)
    ensures Within(c, item, ic) <==> Fold(item.0, ic) <= Fold(c, ic) <= Fold(item.1, ic)
  {
  }

  lemma BehindIs(done: seq<(letter, letter)>, r: Option<(seq<(letter, letter)>, seq<letter>)>)
    ensures Behind(done, r) == None <==> r == None
  {
  }

  lemma RunBracket(u: seq<letter>, s: seq<letter>, ic: bool)
    requires u != [] && u[0] == '['
    ensures var (token, rest) := Bracket(u[1..]); var cur: char := if s != [] then s[0] else '\0';
            && (token == Runaway ==> Run(Tokens(u), s, ic) == Outside)
            && (token == Unclosed ==> Run(Tokens(u), s, ic) == No)
            && (token.Class? ==>
                 Run(Tokens(u), s, ic) ==
                   if InClass(cur, token.items, ic) == token.inverted then No
                   else if s == [] then Past(Tokens(rest)) else Run(Tokens(rest), s[1..], ic))
    ensures var token := Bracket(u[1..]).0; token == Runaway || token == Unclosed || token.Class?
  {
    hide Items, InClass, Tokens, Past;
    var (token, rest) := Bracket(u[1..]);
    TokensOfBracket(u);
    if token.Class? { NulIsOut(token.items, ic); }
  }

  lemma TokensOfBracket(u: seq<letter>)
    requires u != [] && u[0] == '['
    ensures var (token, rest) := Bracket(u[1..]);
            Tokens(u) != [] && Tokens(u)[0] == token && Tokens(u)[1..] == Tokens(rest)
  {
  }

  /** A pattern character other than a star and a bracket, and what follows it. */
  lemma RunPlain(u: seq<letter>, s: seq<letter>, ic: bool)
    requires u != [] && u[0] != '*' && u[0] != '['
    ensures u == ['\\'] ==> Run(Tokens(u), s, ic) == if s == [] then Outside else No
    ensures u[0] == '?' ==> Run(Tokens(u), s, ic) == if s == [] then No else Run(Tokens(u[1..]), s[1..], ic)
    ensures u[0] != '?' && u != ['\\'] ==>
      var n := if u[0] == '\\' then 1 else 0;
      Run(Tokens(u), s, ic) ==
        if s == [] || Fold(s[0], ic) != Fold(u[n], ic) then No else Run(Tokens(u[n + 1..]), s[1..], ic)
  {
  }

  /**
   A pattern character other than a star against the text at p: Yes to go on behind
   g', the last character it used, and behind the end of the text if p is there.
   */
  method MatchToken(text: seq<letter>, p: nat, glob: seq<letter>, g: nat, ignorecase: bool)
    returns (r: Outcome, g': nat)
    requires p <= |text| && g < |glob| && glob[g] != '*'
    ensures r != Yes ==> Run(Tokens(glob[g..]), text[p..], ignorecase) == r
    ensures r == Yes ==>
      && g <= g' < |glob|
      && Run(Tokens(glob[g..]), text[p..], ignorecase) ==
         if p == |text| then Past(Tokens(glob[g' + 1..])) else Run(Tokens(glob[g' + 1..]), text[p + 1..], ignorecase)
  {
    hide Run, Past, Tokens, Bracket;
    ghost var u, s := glob[g..], text[p..];
    assert u[1..] == glob[g + 1..] && (p < |text| ==> s[1..] == text[p + 1..]);
    g' := g;
    if glob[g] == '?' {
      RunPlain(u, s, ignorecase);
      r := if p < |text| then Yes else No;
    } else if glob[g] == '[' {
      RunBracket(u, s, ignorecase);
      var cur := if p < |text| then text[p] as char else '\0';
      r, g' := ReadBracket(cur, glob, g, ignorecase);
    } else {
      RunPlain(u, s, ignorecase);
      if glob[g] == '\\' {
        if g + 1 == |glob| { return if p == |text| then Outside else No, g; }
        g' := g + 1;
        assert u[2..] == glob[g + 2..];
      }
      r := if p < |text| && Fold(text[p], ignorecase) == Fold(glob[g'], ignorecase) then Yes else No;
    }
  }

  lemma RunEnd(u: seq<letter>, s: seq<letter>, ic: bool)
    requires u == []
    ensures Run(Tokens(u), s, ic) == if s == [] then Yes else No
  {
  }

  lemma PastIs(u: seq<letter>)
    ensures Past(Tokens(u)) ==
      if u == ['*'] then Yes else if u != [] && u[0] == '[' && Bracket(u[1..]).0 == Unclosed then No else Outside
  {
    hide Bracket;
    if u != [] && u[0] == '[' { TokensOfBracket(u); }
    if u != [] && u[0] == '*' {
      assert Tokens(u) == [Star] + Tokens(u[1..]);
      assert u[1..] == [] ==> u == ['*'] && Tokens(u) == [Star];
      assert u[1..] != [] ==> |Tokens(u)| > 1;
    }
  }

  /** What the loop does once p is behind the NUL. */
  method BehindText(glob: seq<letter>, g: nat) returns (r: Outcome)
    requires g <= |glob|
    ensures r == Past(Tokens(glob[g..]))
  {
    hide Past, Tokens;
    PastIs(glob[g..]);
    r := Outside;
    if g < |glob| {
      assert glob[g..][1..] == glob[g + 1..];
      if glob[g] == '*' {
        if g + 1 == |glob| { r := Yes; }
        assert g + 1 == |glob| <==> glob[g..] == ['*'];
      } else if glob[g] == '[' {
        var h := if g + 1 < |glob| && glob[g + 1] == '^' then g + 2 else g + 1;
        assert h == g + 2 ==> glob[g + 1..][1..] == glob[h..];
        if ']' !in glob[h..] { r := No; }
      }
    }
  }

  /** match_one(): the text against the pattern. */
  method MatchOne(text: seq<letter>, glob: seq<letter>, ignorecase: bool) returns (r: Outcome)
    ensures r == Run(Tokens(glob), text, ignorecase)
    decreases |glob|, 0
  {
    hide Run, Tokens, Past;
    var p: nat, g: nat := 0, 0;
    assert text[0..] == text && glob[0..] == glob;
    while g < |glob|
      invariant p <= |text| && g <= |glob|
      invariant Run(Tokens(glob[g..]), text[p..], ignorecase) == Run(Tokens(glob), text, ignorecase)
    {
      if glob[g] == '*' {
        StarToken(glob, g);
        r := ScanAhead(text, p, glob, g + 1, ignorecase);
        return;
      }
      var g';
      r, g' := MatchToken(text, p, glob, g, ignorecase);
      if r != Yes { return; }
      if p == |text| {
        r := BehindText(glob, g' + 1);
        return;
      }
      p := p + 1;
      g := g' + 1;
    }
    RunEnd(glob[g..], text[p..], ignorecase);
    r := if p == |text| then Yes else No;
  }

  lemma StarToken(glob: seq<letter>, g: nat)
    requires g < |glob| && glob[g] == '*'
    ensures Tokens(glob[g..]) == [Star] + Tokens(glob[g + 1..])
  {
    assert glob[g..][1..] == glob[g + 1..];
  }

  predicate Meta(c: char) { c == '\\' || c == '[' || c == '?' || c == '*' }

  lemma FirstToken(glob: seq<letter>)
    requires glob != []
    ensures Tokens(glob) != [] && (!Meta(glob[0]) ==> Tokens(glob)[0] == Lit(glob[0]))
  {
  }

  lemma FirstOfStep(t: seq<Token>, text: seq<letter>, p: nat, ic: bool)
    requires p <= |text|
    ensures p == |text| ==> FirstOf(t, text[p..], ic) == No
    ensures p < |text| ==>
      var r := Run(t, text[p..], ic);
      FirstOf(t, text[p..], ic) == if r != No then r else FirstOf(t, text[p + 1..], ic)
  {
    hide Run;
    if p < |text| { assert text[p..][1..] == text[p + 1..]; }
  }

  /** Where the rest of the pattern begins with a character, only a rest of the text that begins with it can match. */
  lemma FirstDiffers(t: seq<Token>, s: seq<letter>, ic: bool)
    requires t != [] && t[0].Lit? && s != [] && Fold(s[0], ic) != Fold(t[0].c, ic)
    ensures Run(t, s, ic) == No
  {
  }

  /** Skips to the next occurrence of the character that the pattern begins with. */
  method Seek(text: seq<letter>, from: nat, c: letter, ignorecase: bool, ghost t: seq<Token>) returns (p: nat)
    requires from <= |text| && t != [] && t[0] == Lit(c)
    ensures from <= p <= |text| && FirstOf(t, text[p..], ignorecase) == FirstOf(t, text[from..], ignorecase)
  {
    hide Run, FirstOf;
    p := from;
    while p < |text| && Fold(text[p], ignorecase) != Fold(c, ignorecase)
      invariant from <= p <= |text|
      invariant FirstOf(t, text[p..], ignorecase) == FirstOf(t, text[from..], ignorecase)
    {
      FirstDiffers(t, text[p..], ignorecase);
      FirstOfStep(t, text, p, ignorecase);
      p := p + 1;
    }
  }

  lemma RunStar(t: seq<Token>, s: seq<letter>, ic: bool)
    ensures Run([Star] + t, s, ic) == if t == [] then Yes else FirstOf(t, s, ic)
  {
    assert ([Star] + t)[1..] == t;
  }

  /** Behind a star: scan ahead for the next place where the rest of the pattern may match. */
  method ScanAhead(text: seq<letter>, start: nat, glob: seq<letter>, g: nat, ignorecase: bool) returns (r: Outcome)
    requires start <= |text| && 0 < g <= |glob| && glob[g - 1] == '*'
    ensures r == Run([Star] + Tokens(glob[g..]), text[start..], ignorecase)
    decreases |glob| - g, 1
  {
    hide Run, FirstOf, Tokens;
    ghost var t := Tokens(glob[g..]);
    RunStar(t, text[start..], ignorecase);
    if g == |glob| { return Yes; }
    FirstToken(glob[g..]);
    var p := start;
    while p < |text|
      invariant start <= p <= |text|
      invariant FirstOf(t, text[p..], ignorecase) == FirstOf(t, text[start..], ignorecase)
    {
      if !Meta(glob[g]) {
        p := Seek(text, p, glob[g], ignorecase, t);
        if p == |text| {
          FirstOfStep(t, text, p, ignorecase);
          return No;
        }
      }
      FirstOfStep(t, text, p, ignorecase);
      r := MatchOne(text[p..], glob[g..], ignorecase);
      if r != No { return; }
      p := p + 1;
    }
    FirstOfStep(t, text, p, ignorecase);
    r := No;
  }

  /**
   Patterns that go wrong: an inverted bracket at the end of the text, a bracket that
   begins with its ']' or ends in '-', and a backslash at the end.
   */
  lemma BrokenPatterns(s: seq<letter>, ic: bool)
    ensures Run(Tokens("[^a]"), "", ic) == Outside
    ensures Run(Tokens("[^a]*"), "", ic) == Yes && !Matches(Tokens("[^a]*"), "", ic)
    ensures Run(Tokens("[]"), s, ic) == Outside && Run(Tokens("[a-]"), s, ic) == Outside
    ensures Run(Tokens("\\"), "", ic) == Outside
  {
  }
}
