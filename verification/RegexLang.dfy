/** What a regular expression matches: for a NUL-free string s, the pairs of positions (i, j)
    such that s[i..j] is matched, with ^ and $ as tests of the position. */
module RegexLang {
  import opened Basics
  import opened RegexSyntax

  ghost predicate Matches(re: Re, s: seq<Byte>, i: nat, j: nat)
    decreases re, 0, 0
  {
    match re
    case Bol => i == j == 0
    case Eol => i == j == |s|
    case Any => i < |s| && j == i + 1
    case Class(neg, chars) => i < |s| && j == i + 1 && (s[i] in chars) != neg
    case Lit(str) => i + |str| <= |s| && s[i..i + |str|] == str && j == i + |str|
    case Group(_, alts) => MatchesAlts(alts, s, i, j)
    case Rep(op, x) =>
      match op
      case Star => exists n: nat :: MatchesTimes(x, n, s, i, j)
      case Plus => exists n: nat :: n > 0 && MatchesTimes(x, n, s, i, j)
      case Opt => i == j || Matches(x, s, i, j)
  }

  /** n consecutive matches of x. */
  ghost predicate MatchesTimes(x: Re, n: nat, s: seq<Byte>, i: nat, j: nat)
    decreases x, 1, n
  {
    if n == 0 then i == j
    else exists m: nat :: Matches(x, s, i, m) && MatchesTimes(x, n - 1, s, m, j)
  }

  ghost predicate MatchesAlts(alts: seq<Branch>, s: seq<Byte>, i: nat, j: nat)
    decreases alts, 0, 0
  {
    exists t :: 0 <= t < |alts| && MatchesPieces(alts[t].pieces, s, i, j)
  }

  ghost predicate MatchesPieces(ps: seq<Re>, s: seq<Byte>, i: nat, j: nat)
    decreases ps, 0, 0
  {
    if ps == [] then i == j
    else exists m: nat :: Matches(ps[0], s, i, m) && MatchesPieces(ps[1..], s, m, j)
  }

  lemma PlusCount(x: Re, s: seq<Byte>, i: nat, j: nat) returns (n: nat)
    requires Matches(Rep(Plus, x), s, i, j)
    ensures n > 0 && MatchesTimes(x, n, s, i, j)
  {
    assert exists n: nat :: n > 0 && MatchesTimes(x, n, s, i, j);
    n :| n > 0 && MatchesTimes(x, n, s, i, j);
  }

  lemma StarCount(x: Re, s: seq<Byte>, i: nat, j: nat) returns (n: nat)
    requires Matches(Rep(Star, x), s, i, j)
    ensures MatchesTimes(x, n, s, i, j)
  {
    n :| MatchesTimes(x, n, s, i, j);
  }

  lemma TimesStep(x: Re, n: nat, s: seq<Byte>, i: nat, j: nat) returns (m: nat)
    requires n > 0 && MatchesTimes(x, n, s, i, j)
    ensures Matches(x, s, i, m) && MatchesTimes(x, n - 1, s, m, j)
  {
    m :| Matches(x, s, i, m) && MatchesTimes(x, n - 1, s, m, j);
  }

  lemma PiecesSplit(ps: seq<Re>, s: seq<Byte>, i: nat, j: nat) returns (m: nat)
    requires ps != [] && MatchesPieces(ps, s, i, j)
    ensures Matches(ps[0], s, i, m) && MatchesPieces(ps[1..], s, m, j)
  {
    m :| Matches(ps[0], s, i, m) && MatchesPieces(ps[1..], s, m, j);
  }

  lemma PiecesJoin(ps: seq<Re>, s: seq<Byte>, i: nat, m: nat, j: nat)
    requires ps != [] && Matches(ps[0], s, i, m) && MatchesPieces(ps[1..], s, m, j)
    ensures MatchesPieces(ps, s, i, j)
  {
  }

  // ---------- Bounds ----------

  /** A match stays inside the string. */
  lemma {:induction false} Bounds(re: Re, s: seq<Byte>, i: nat, j: nat)
    requires Matches(re, s, i, j) && i <= |s|
    ensures i <= j <= |s|
    decreases re, 0, 0
  {
    match re
    case Group(_, alts) => AltsBounds(alts, s, i, j);
    case Rep(op, x) =>
      if op == Star {
        var n: nat :| MatchesTimes(x, n, s, i, j);
        TimesBounds(x, n, s, i, j);
      } else if op == Plus {
        var n := PlusCount(x, s, i, j);
        TimesBounds(x, n, s, i, j);
      } else if i != j {
        Bounds(x, s, i, j);
      }
    case _ =>
  }

  lemma {:induction false} TimesBounds(x: Re, n: nat, s: seq<Byte>, i: nat, j: nat)
    requires MatchesTimes(x, n, s, i, j) && i <= |s|
    ensures i <= j <= |s|
    decreases x, 1, n
  {
    if n > 0 {
      var m: nat :| Matches(x, s, i, m) && MatchesTimes(x, n - 1, s, m, j);
      Bounds(x, s, i, m);
      TimesBounds(x, n - 1, s, m, j);
    }
  }

  lemma {:induction false} AltsBounds(alts: seq<Branch>, s: seq<Byte>, i: nat, j: nat)
    requires MatchesAlts(alts, s, i, j) && i <= |s|
    ensures i <= j <= |s|
    decreases alts, 0, 0
  {
    var t :| 0 <= t < |alts| && MatchesPieces(alts[t].pieces, s, i, j);
    PiecesBounds(alts[t].pieces, s, i, j);
  }

  lemma {:induction false} PiecesBounds(ps: seq<Re>, s: seq<Byte>, i: nat, j: nat)
    requires MatchesPieces(ps, s, i, j) && i <= |s|
    ensures i <= j <= |s|
    decreases ps, 0, 0
  {
    if ps != [] {
      var m: nat :| Matches(ps[0], s, i, m) && MatchesPieces(ps[1..], s, m, j);
      Bounds(ps[0], s, i, m);
      PiecesBounds(ps[1..], s, m, j);
    }
  }

  // ---------- HASWIDTH is sound ----------

  /** A piece that is known to have width never matches the empty string. */
  lemma {:induction false} WidthSound(re: Re, s: seq<Byte>, i: nat, j: nat)
    requires Wf(re) && HasWidth(re) && Matches(re, s, i, j) && i <= |s|
    ensures i < j
    decreases re, 0, 0
  {
    match re
    case Group(_, alts) =>
      var t :| 0 <= t < |alts| && MatchesPieces(alts[t].pieces, s, i, j);
      AltWidth(alts, t);
      PiecesWidthSound(alts[t].pieces, s, i, j);
    case Rep(op, x) =>
      var n := PlusCount(x, s, i, j);
      var m := TimesStep(x, n, s, i, j);
      Bounds(x, s, i, m);
      WidthSound(x, s, i, m);
      TimesBounds(x, n - 1, s, m, j);
    case _ =>
  }

  lemma {:induction false} AltWidth(alts: seq<Branch>, t: nat)
    requires t < |alts|
    ensures AltsHaveWidth(alts) ==> PiecesHaveWidth(alts[t].pieces)
    ensures WfAlts(alts) ==> WfPieces(alts[t].pieces)
    decreases |alts|
  {
    if t > 0 {
      AltWidth(alts[1..], t - 1);
    }
  }

  lemma {:induction false} PiecesWidthSound(ps: seq<Re>, s: seq<Byte>, i: nat, j: nat)
    requires WfPieces(ps) && PiecesHaveWidth(ps) && MatchesPieces(ps, s, i, j) && i <= |s|
    ensures i < j
    decreases ps, 0, 0
  {
    var m: nat :| Matches(ps[0], s, i, m) && MatchesPieces(ps[1..], s, m, j);
    Bounds(ps[0], s, i, m);
    PiecesBounds(ps[1..], s, m, j);
    if HasWidth(ps[0]) {
      WidthSound(ps[0], s, i, m);
    } else {
      PiecesWidthSound(ps[1..], s, m, j);
    }
  }

  /** HASWIDTH is exact: without it the expression matches the empty string, at least in an empty string. */
  lemma {:induction false} WidthExact(re: Re)
    requires Wf(re)
    ensures HasWidth(re) <==> !Matches(re, [], 0, 0)
    decreases re, 0
  {
    if HasWidth(re) {
      if Matches(re, [], 0, 0) {
        WidthSound(re, [], 0, 0);
      }
    } else {
      match re
      case Group(_, alts) => AltEmpty(alts);
      case Rep(op, x) =>
        assert MatchesTimes(x, 0, [], 0, 0);
      case _ =>
    }
  }

  lemma {:induction false} AltEmpty(alts: seq<Branch>)
    requires WfAlts(alts) && !AltsHaveWidth(alts)
    ensures MatchesAlts(alts, [], 0, 0)
    decreases alts, 0
  {
    if PiecesHaveWidth(alts[0].pieces) {
      AltEmpty(alts[1..]);
      var t :| 0 <= t < |alts[1..]| && MatchesPieces(alts[1..][t].pieces, [], 0, 0);
      assert MatchesPieces(alts[t + 1].pieces, [], 0, 0);
    } else {
      PiecesEmpty(alts[0].pieces);
    }
  }

  lemma {:induction false} PiecesEmpty(ps: seq<Re>)
    requires WfPieces(ps) && !PiecesHaveWidth(ps)
    ensures MatchesPieces(ps, [], 0, 0)
    decreases ps, 0
  {
    if ps != [] {
      WidthExact(ps[0]);
      PiecesEmpty(ps[1..]);
      PiecesJoin(ps, [], 0, 0, 0);
    }
  }

  // ---------- Repetitions ----------

  /** x* is empty, or x followed by x*. */
  lemma StarUnfold(x: Re, s: seq<Byte>, i: nat, j: nat)
    ensures Matches(Rep(Star, x), s, i, j) <==> i == j || Matches(Rep(Plus, x), s, i, j)
  {
    if Matches(Rep(Star, x), s, i, j) {
      var n := StarCount(x, s, i, j);
      assert n == 0 || MatchesTimes(x, n, s, i, j);
    }
    if i == j {
      assert MatchesTimes(x, 0, s, i, j);
    }
    if Matches(Rep(Plus, x), s, i, j) {
      var n := PlusCount(x, s, i, j);
    }
  }

  /** x+ is x followed by x*. */
  lemma PlusUnfold(x: Re, s: seq<Byte>, i: nat, j: nat) returns (m: nat)
    requires Matches(Rep(Plus, x), s, i, j)
    ensures Matches(x, s, i, m) && Matches(Rep(Star, x), s, m, j)
  {
    var n := PlusCount(x, s, i, j);
    m := TimesStep(x, n, s, i, j);
  }

  lemma PlusFold(x: Re, s: seq<Byte>, i: nat, m: nat, j: nat)
    requires Matches(x, s, i, m) && Matches(Rep(Star, x), s, m, j)
    ensures Matches(Rep(Plus, x), s, i, j)
  {
    var n := StarCount(x, s, m, j);
    assert MatchesTimes(x, n + 1, s, i, j);
  }

  // ---------- Simple pieces: one character per match ----------

  predicate One(x: Re, c: Byte)
    requires IsSimple(x)
  {
    match x
    case Any => true
    case Class(neg, chars) => (c in chars) != neg
    case Lit(str) => c == str[0]
  }

  /** How many characters from position i on x matches one after the other. */
  function Run(x: Re, s: seq<Byte>, i: nat): (n: nat)
    requires IsSimple(x)
    ensures i <= |s| ==> i + n <= |s|
    decreases |s| - i
  {
    if i < |s| && One(x, s[i]) then 1 + Run(x, s, i + 1) else 0
  }

  // ---------- What a match must contain ----------

  /** Every literal piece of a sequence appears in what the sequence matches. */
  lemma {:induction false} LitAppears(ps: seq<Re>, s: seq<Byte>, i: nat, j: nat, k: nat) returns (a: nat)
    requires MatchesPieces(ps, s, i, j) && k < |ps| && ps[k].Lit?
    ensures Matches(ps[k], s, a, a + |ps[k].str|)
    decreases k
  {
    var m: nat :| Matches(ps[0], s, i, m) && MatchesPieces(ps[1..], s, m, j);
    if k == 0 {
      a := i;
    } else {
      a := LitAppears(ps[1..], s, m, j, k - 1);
    }
  }
}
