/** The patterns of utils/glob.c as they are written, character by character, and what they mean. */
module GlobText {
  import opened Wrappers
  import opened Glob

  /** A member of a bracket: a character, or two with a '-' between them. */
  datatype Member = One(c: letter) | Range(lo: letter, hi: letter)

  /** A part of a pattern. */
  datatype Piece =
    | Plain(c: letter)
    | Escaped(c: letter)
    | Question
    | Asterisk
    | Bracketed(inverted: bool, ms: seq<Member>)

  // ------------------------------------------------------------ how it is written

  function MemberText(m: Member): (u: seq<letter>)
    ensures u != []
  {
    match m
    case One(c) => [c]
    case Range(lo, hi) => [lo, '-', hi]
  }

  function MembersText(ms: seq<Member>): (u: seq<letter>)
    ensures ms != [] ==> u != []
  {
    if ms == [] then [] else MemberText(ms[0]) + MembersText(ms[1..])
  }

  function PieceText(p: Piece): (u: seq<letter>)
  {
    match p
    case Plain(c) => [c]
    case Escaped(c) => ['\\', c]
    case Question => ['?']
    case Asterisk => ['*']
    case Bracketed(inverted, ms) => (if inverted then ['[', '^'] else ['[']) + MembersText(ms) + [']']
  }

  function Text(ps: seq<Piece>): seq<letter>
  {
    if ps == [] then [] else PieceText(ps[0]) + Text(ps[1..])
  }

  function First(m: Member): letter { if m.One? then m.c else m.lo }

  /** Behind the first member a ']' ends the bracket, and a '-' behind a character makes a range. */
  predicate MembersOk(ms: seq<Member>)
  {
    ms != [] && forall i :: 0 < i < |ms| ==> First(ms[i]) != ']' && (ms[i - 1].One? ==> First(ms[i]) != '-')
  }

  predicate PieceOk(p: Piece)
  {
    match p
    case Plain(c) => c != '\\' && c != '[' && c != '?' && c != '*'
    case Bracketed(inverted, ms) => MembersOk(ms) && (inverted || First(ms[0]) != '^')
    case _ => true
  }

  predicate Written(ps: seq<Piece>) { forall i :: 0 <= i < |ps| ==> PieceOk(ps[i]) }

  // ---------------------------------------------------------------- what it means

  const UPPER: string := "ABCDEFGHIJKLMNOPQRSTUVWXYZ"
  const LOWER: string := "abcdefghijklmnopqrstuvwxyz"

  /** Ignoring case, a capital stands for its small letter. */
  lemma FoldIs(c: char, i: nat)
    requires i < 26
    ensures |UPPER| == |LOWER| == 26
    ensures Fold(c, false) == c
    ensures Fold(UPPER[i], true) == LOWER[i] && Fold(LOWER[i], true) == LOWER[i]
    ensures c !in UPPER ==> Fold(c, true) == c
  {
    InUpper(c);
  }

  lemma InUpper(c: char)
    ensures |UPPER| == 26 && (c in UPPER <==> 'A' <= c <= 'Z')
  {
    if 'A' <= c <= 'Z' {
      assert UPPER[(c - 'A') as int] == c;
    }
  }

  predicate MemberHas(m: Member, c: letter, ic: bool)
  {
    match m
    case One(d) => Fold(c, ic) == Fold(d, ic)
    case Range(lo, hi) => Fold(lo, ic) <= Fold(c, ic) <= Fold(hi, ic)
  }

  predicate Has(ms: seq<Member>, c: letter, ic: bool)
  {
    exists i :: 0 <= i < |ms| && MemberHas(ms[i], c, ic)
  }

  ghost predicate Means(ps: seq<Piece>, s: seq<letter>, ic: bool)
    decreases |ps|
  {
    if ps == [] then s == []
    else
      match ps[0]
      case Asterisk => exists k :: 0 <= k <= |s| && Means(ps[1..], s[k..], ic)
      case Question => s != [] && Means(ps[1..], s[1..], ic)
      case Bracketed(inverted, ms) => s != [] && Has(ms, s[0], ic) != inverted && Means(ps[1..], s[1..], ic)
      case _ => s != [] && Fold(s[0], ic) == Fold(ps[0].c, ic) && Means(ps[1..], s[1..], ic)
  }

  // ------------------------------------------------------------- they are the same

  function PairOf(m: Member): (letter, letter) { if m.One? then (m.c, m.c) else (m.lo, m.hi) }

  function PairsOf(ms: seq<Member>): (ps: seq<(letter, letter)>)
    ensures |ps| == |ms| && forall i :: 0 <= i < |ms| ==> ps[i] == PairOf(ms[i])
  {
    if ms == [] then [] else [PairOf(ms[0])] + PairsOf(ms[1..])
  }

  function TokenOf(p: Piece): Token
  {
    match p
    case Question => Any
    case Asterisk => Star
    case Bracketed(inverted, ms) => Class(inverted, PairsOf(ms))
    case _ => Lit(p.c)
  }

  function TokensOf(ps: seq<Piece>): (t: seq<Token>)
    ensures |t| == |ps|
  {
    if ps == [] then [] else [TokenOf(ps[0])] + TokensOf(ps[1..])
  }

  /** The members of a bracket are read as they are written. */
  lemma {:induction false} MembersAreRead(ms: seq<Member>, rest: seq<letter>)
    requires MembersOk(ms)
    ensures Items(MembersText(ms) + [']'] + rest) == Some((PairsOf(ms), rest))
    decreases |ms|
  {
    hide Items;
    var m, tail := MemberText(ms[0]), MembersText(ms[1..]) + [']'] + rest;
    var u := MembersText(ms) + [']'] + rest;
    assert u == m + tail;
    if |ms| == 1 {
      assert tail == [']'] + rest;
      LastMember(ms[0], rest);
      assert PairsOf(ms) == [PairOf(ms[0])];
    } else {
      assert MembersOk(ms[1..]);
      MembersAreRead(ms[1..], rest);
      assert First(ms[1]) == MembersText(ms[1..])[0] == tail[0] by { FirstIs(ms[1..]); }
      assert First(ms[1]) != ']' && (ms[0].One? ==> First(ms[1]) != '-');
      NextMember(ms[0], tail);
    }
  }

  lemma FirstIs(ms: seq<Member>)
    requires ms != []
    ensures MembersText(ms) != [] && MembersText(ms)[0] == First(ms[0])
  {
  }

  lemma LastMember(m: Member, rest: seq<letter>)
    ensures Items(MemberText(m) + ([']'] + rest)) == Some(([PairOf(m)], rest))
  {
    var u := MemberText(m) + ([']'] + rest);
    var n := |MemberText(m)|;
    assert u[n] == ']' && u[n + 1..] == rest;
  }

  lemma NextMember(m: Member, tail: seq<letter>)
    requires tail != [] && tail[0] != ']' && (m.One? ==> tail[0] != '-')
    ensures Items(MemberText(m) + tail) ==
            var more := Items(tail); if more.None? then None else Some(([PairOf(m)] + more.value.0, more.value.1))
  {
    var u := MemberText(m) + tail;
    var n := |MemberText(m)|;
    assert u[n] == tail[0] && u[n..] == tail;
  }

  lemma BracketIsRead(inverted: bool, ms: seq<Member>, rest: seq<letter>)
    requires PieceOk(Bracketed(inverted, ms))
    ensures Bracket((if inverted then ['^'] else []) + MembersText(ms) + [']'] + rest)
            == (Class(inverted, PairsOf(ms)), rest)
  {
    hide Items;
    var v := MembersText(ms) + [']'] + rest;
    var u := (if inverted then ['^'] else []) + MembersText(ms) + [']'] + rest;
    FirstIs(ms);
    assert v[0] == First(ms[0]);
    assert v[|MembersText(ms)|] == ']';
    assert inverted ==> u[1..] == v;
    assert !inverted ==> u == v;
    MembersAreRead(ms, rest);
  }

  lemma PieceIsRead(p: Piece, rest: seq<letter>)
    requires PieceOk(p)
    ensures Tokens(PieceText(p) + rest) == [TokenOf(p)] + Tokens(rest)
  {
    hide Tokens, MembersText, PairsOf, MembersOk;
    match p
    case Bracketed(inverted, ms) => BracketPiece(inverted, ms, rest);
    case Escaped(c) => EscapeToken(c, rest);
    case Plain(c) => SimpleToken(c, rest);
    case Question => SimpleToken('?', rest);
    case Asterisk => SimpleToken('*', rest);
  }

  lemma BracketPiece(inverted: bool, ms: seq<Member>, rest: seq<letter>)
    requires PieceOk(Bracketed(inverted, ms))
    ensures Tokens((if inverted then ['[', '^'] else ['[']) + MembersText(ms) + [']'] + rest)
            == [Class(inverted, PairsOf(ms))] + Tokens(rest)
  {
    hide Tokens, Bracket, MembersText, PairsOf, MembersOk;
    BracketIsRead(inverted, ms, rest);
    var v := (if inverted then ['^'] else []) + MembersText(ms) + [']'] + rest;
    assert (if inverted then ['[', '^'] else ['[']) + MembersText(ms) + [']'] + rest == ['['] + v;
    BracketToken(v);
  }

  lemma BracketToken(v: seq<letter>)
    ensures Tokens(['['] + v) == [Bracket(v).0] + Tokens(Bracket(v).1)
  {
    hide Bracket;
    assert (['['] + v)[1..] == v;
  }

  lemma EscapeToken(c: letter, rest: seq<letter>)
    ensures Tokens(['\\', c] + rest) == [Lit(c)] + Tokens(rest)
  {
    assert (['\\', c] + rest)[2..] == rest;
  }

  lemma SimpleToken(c: letter, rest: seq<letter>)
    requires c != '\\' && c != '['
    ensures Tokens([c] + rest) == [if c == '?' then Any else if c == '*' then Star else Lit(c)] + Tokens(rest)
  {
    assert ([c] + rest)[1..] == rest;
  }

  lemma {:induction false} TextIsRead(ps: seq<Piece>)
    requires Written(ps)
    ensures Tokens(Text(ps)) == TokensOf(ps)
  {
    hide Tokens;
    if ps == [] {
      NoTokens();
    } else {
      TextIsRead(ps[1..]);
      PieceIsRead(ps[0], Text(ps[1..]));
    }
  }

  lemma NoTokens()
    ensures Tokens([]) == []
  {
  }

  lemma HasIs(ms: seq<Member>, c: letter, ic: bool)
    ensures InClass(c, PairsOf(ms), ic) <==> Has(ms, c, ic)
  {
    hide MemberHas, Within, PairOf;
    forall i | 0 <= i < |ms|
      ensures Within(c, PairsOf(ms)[i], ic) <==> MemberHas(ms[i], c, ic)
    {
      MemberIs(ms[i], c, ic);
    }
  }

  lemma MemberIs(m: Member, c: letter, ic: bool)
    ensures Within(c, PairOf(m), ic) <==> MemberHas(m, c, ic)
  {
    hide Fold;
  }

  lemma {:induction false} TokensMean(ps: seq<Piece>, s: seq<letter>, ic: bool)
    ensures Matches(TokensOf(ps), s, ic) <==> Means(ps, s, ic)
    decreases |ps|
  {
    hide InClass, Has, Fold;
    if ps != [] {
      var t := TokensOf(ps);
      assert t[0] == TokenOf(ps[0]) && t[1..] == TokensOf(ps[1..]);
      if ps[0].Asterisk? {
        forall k | 0 <= k <= |s|
          ensures Matches(t[1..], s[k..], ic) <==> Means(ps[1..], s[k..], ic)
        {
          TokensMean(ps[1..], s[k..], ic);
        }
      } else if s != [] {
        TokensMean(ps[1..], s[1..], ic);
        if ps[0].Bracketed? { HasIs(ps[0].ms, s[0], ic); }
      }
    }
  }

  /** No inverted bracket, and not two stars at the end. */
  predicate Sound(ps: seq<Piece>)
  {
    && (forall i :: 0 <= i < |ps| ==> !(ps[i].Bracketed? && ps[i].inverted))
    && !(|ps| >= 2 && ps[|ps| - 1].Asterisk? && ps[|ps| - 2].Asterisk?)
  }

  lemma {:induction false} SoundFine(ps: seq<Piece>, after: bool, ic: bool)
    requires Sound(ps) && (after ==> !AllStars(TokensOf(ps)))
    ensures Fine(TokensOf(ps), after, ic)
  {
    hide HasMember;
    if ps != [] {
      var t, r := TokensOf(ps), ps[1..];
      assert t[0] == TokenOf(ps[0]) && t[1..] == TokensOf(r);
      assert Sound(r);
      if ps[0].Asterisk? {
        if |ps| > 1 {
          NotAllStars(ps);
          SoundFine(r, true, ic);
        }
      } else {
        SoundFine(r, false, ic);
      }
    }
  }

  lemma {:induction false} LastToken(ps: seq<Piece>)
    requires ps != []
    ensures TokensOf(ps)[|ps| - 1] == TokenOf(ps[|ps| - 1])
    ensures |ps| >= 2 ==> TokensOf(ps)[|ps| - 2] == TokenOf(ps[|ps| - 2])
  {
    if |ps| >= 2 {
      assert TokensOf(ps)[1..] == TokensOf(ps[1..]);
      LastToken(ps[1..]);
    }
  }

  lemma NotAllStars(ps: seq<Piece>)
    requires Sound(ps) && |ps| >= 2 && ps[0].Asterisk?
    ensures !AllStars(TokensOf(ps)) && !AllStars(TokensOf(ps[1..]))
  {
    LastToken(ps);
    var t, u := TokensOf(ps), TokensOf(ps[1..]);
    assert t[1..] == u;
    var n := |ps| - 1;
    assert t[n] == u[n - 1];
    if n >= 2 { assert t[n - 1] == u[n - 2]; }
  }

  /** match_one() gives the answer that the characters of the pattern mean. */
  lemma AnswerIs(ps: seq<Piece>, s: seq<letter>, ic: bool)
    requires Written(ps) && Sound(ps)
    ensures Run(Tokens(Text(ps)), s, ic) == if Means(ps, s, ic) then Yes else No
  {
    hide Run, Tokens, Fine, Means;
    TextIsRead(ps);
    TokensMean(ps, s, ic);
    SoundFine(ps, false, ic);
    FineRuns(TokensOf(ps), false, s, ic);
  }

  /** The same as a run. */
  method MatchText(ps: seq<Piece>, s: seq<letter>, ic: bool) returns (yes: bool)
    requires Written(ps) && Sound(ps)
    ensures yes <==> Means(ps, s, ic)
  {
    hide Run, Tokens, Means;
    AnswerIs(ps, s, ic);
    var r := MatchOne(s, Text(ps), ic);
    yes := r == Yes;
  }

  // -------------------------------------------------------------------- ranges

  /** One bracket and one character. */
  lemma OneBracket(inverted: bool, ms: seq<Member>, c: letter, ic: bool)
    requires PieceOk(Bracketed(inverted, ms))
    ensures Run(Tokens(PieceText(Bracketed(inverted, ms))), [c], ic) == if Has(ms, c, ic) != inverted then Yes else No
  {
    hide Tokens, Has, InClass;
    var p := Bracketed(inverted, ms);
    assert PieceText(p) + [] == PieceText(p);
    PieceIsRead(p, []);
    NoTokens();
    HasIs(ms, c, ic);
    assert [TokenOf(p)][1..] == [] && [c][1..] == [];
  }

  lemma HasOne(m: Member, c: letter, ic: bool)
    ensures Has([m], c, ic) <==> MemberHas(m, c, ic)
  {
    assert [m][0] == m;
  }

  /** "[lo-hi]" takes the characters from lo to hi, and "[^lo-hi]" all others. */
  lemma RangeAnswers(lo: letter, hi: letter, c: letter)
    ensures lo != '^' ==> (Run(Tokens(['[', lo, '-', hi, ']']), [c], false) == Yes <==> lo <= c <= hi)
    ensures Run(Tokens(['[', '^', lo, '-', hi, ']']), [c], false) == Yes <==> !(lo <= c <= hi)
  {
    hide Run, Tokens, Has;
    RangeText(lo, hi);
    HasOne(Range(lo, hi), c, false);
    if lo != '^' { OneBracket(false, [Range(lo, hi)], c, false); }
    OneBracket(true, [Range(lo, hi)], c, false);
  }

  lemma RangeText(lo: letter, hi: letter)
    ensures PieceText(Bracketed(false, [Range(lo, hi)])) == ['[', lo, '-', hi, ']']
    ensures PieceText(Bracketed(true, [Range(lo, hi)])) == ['[', '^', lo, '-', hi, ']']
  {
    assert MembersText([Range(lo, hi)]) == [lo, '-', hi] by { assert [Range(lo, hi)][1..] == []; }
  }

  /** Ignoring case, a range of letters takes the letters in between, small or capital. */
  lemma LettersAnswer(lo: letter, hi: letter, c: letter, i: nat, j: nat, k: nat)
    requires i < 26 && j < 26 && k < 26 && |UPPER| == |LOWER| == 26
    requires (lo == UPPER[i] || lo == LOWER[i]) && (hi == UPPER[j] || hi == LOWER[j])
    requires c == UPPER[k] || c == LOWER[k]
    ensures Run(Tokens(['[', lo, '-', hi, ']']), [c], true) == Yes <==> i <= k <= j
  {
    hide Run, Tokens, Has, Fold;
    RangeText(lo, hi);
    HasOne(Range(lo, hi), c, true);
    FoldIs(lo, i);
    FoldIs(hi, j);
    FoldIs(c, k);
    SmallLetters(i, k);
    SmallLetters(k, j);
    NotCaret(lo, i);
    OneBracket(false, [Range(lo, hi)], c, true);
  }

  lemma SmallLetters(i: nat, k: nat)
    requires i < 26 && k < 26
    ensures |LOWER| == 26 && (LOWER[i] <= LOWER[k] <==> i <= k)
  {
    LetterIs(i);
    LetterIs(k);
  }

  lemma LetterIs(i: nat)
    requires i < 26
    ensures |LOWER| == |UPPER| == 26 && LOWER[i] == 'a' + i as char && UPPER[i] == 'A' + i as char
  {
  }

  lemma NotCaret(c: letter, i: nat)
    requires i < 26 && |UPPER| == |LOWER| == 26 && (c == UPPER[i] || c == LOWER[i])
    ensures c != '^'
  {
    LetterIs(i);
  }
}
