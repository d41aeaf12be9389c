/** The ways in which an expression matches, in order of preference: earlier alternatives first,
    more repetitions first. A matcher that backtracks tries them in this order. */
module RegexWays {
  import opened Basics
  import opened RegexSyntax
  import opened RegexLang
  import opened RegexGroups

  /** The start (open) or the end of a group is passed at a position. */
  datatype Mark = Mark(open: bool, no: nat, pos: nat)

  /** Where a match ends, and the marks passed on the way. */
  datatype Way = Way(end: nat, marks: seq<Mark>)

  function Prefixed(marks: seq<Mark>, ws: seq<Way>): seq<Way> {
    seq(|ws|, k requires 0 <= k < |ws| => Way(ws[k].end, marks + ws[k].marks))
  }

  /** Where a leaf's only match from position i ends; -1 if there is none. */
  function LeafEnd(re: Re, s: seq<Byte>, i: nat): int
    requires Leaf(re)
  {
    match re
    case Bol => if i == 0 then i else -1
    case Eol => if i == |s| then i else -1
    case Any => if i < |s| then i + 1 else -1
    case Class(neg, chars) => if i < |s| && (s[i] in chars) != neg then i + 1 else -1
    case Lit(str) => if i + |str| <= |s| && s[i..i + |str|] == str then i + |str| else -1
  }

  function Ways(re: Re, s: seq<Byte>, i: nat): seq<Way>
    decreases re, 0, 0, 0, 0
  {
    match re
    case Group(no, alts) => Grouped(no, i, AltsWays(alts, s, i))
    case Rep(op, x) =>
      (match op
       case Star => StarWays(x, s, i)
       case Plus => ThenStar(Ways(x, s, i), x, s, i)
       case Opt => Ways(x, s, i) + [Way(i, [])])
    case _ => var e := LeafEnd(re, s, i); if e < 0 then [] else [Way(e, [])]
  }

  /** A group's marks around those of what is inside it. */
  function Grouped(no: nat, i: nat, ws: seq<Way>): seq<Way> {
    seq(|ws|, k requires 0 <= k < |ws| =>
      Way(ws[k].end, [Mark(true, no, i)] + ws[k].marks + [Mark(false, no, ws[k].end)]))
  }

  function AltsWays(alts: seq<Branch>, s: seq<Byte>, i: nat): seq<Way>
    decreases alts, 0, 0, 0, 0
  {
    if alts == [] then [] else PiecesWays(alts[0].pieces, s, i) + AltsWays(alts[1..], s, i)
  }

  function PiecesWays(ps: seq<Re>, s: seq<Byte>, i: nat): seq<Way>
    decreases ps, 0, 0, 0, 0
  {
    if ps == [] then [Way(i, [])] else ThenPieces(Ways(ps[0], s, i), ps[1..], s)
  }

  /** Each of the ways so far, followed by the pieces. */
  function ThenPieces(ws: seq<Way>, ps: seq<Re>, s: seq<Byte>): seq<Way>
    decreases ps, 1, 0, 0, |ws|
  {
    if ws == [] then [] else Prefixed(ws[0].marks, PiecesWays(ps, s, ws[0].end)) + ThenPieces(ws[1..], ps, s)
  }

  /** More repetitions are preferred to fewer. */
  function StarWays(x: Re, s: seq<Byte>, i: nat): seq<Way>
    decreases x, 1, |s| - i, 1, 0
  {
    ThenStar(Ways(x, s, i), x, s, i) + [Way(i, [])]
  }

  /** Each of the ways of a turn that began at i, followed by more turns. */
  function ThenStar(ws: seq<Way>, x: Re, s: seq<Byte>, i: nat): seq<Way>
    decreases x, 1, |s| - i, 0, |ws|
  {
    if ws == [] then []
    else
      var first := if i < ws[0].end <= |s| then Prefixed(ws[0].marks, StarWays(x, s, ws[0].end)) else [];
      first + ThenStar(ws[1..], x, s, i)
  }

  // ---------- The ways are the matches ----------

  ghost predicate EndsAt(ws: seq<Way>, j: nat) {
    exists k :: 0 <= k < |ws| && ws[k].end == j
  }

  lemma EndsConcat(a: seq<Way>, b: seq<Way>, j: nat)
    ensures EndsAt(a + b, j) <==> EndsAt(a, j) || EndsAt(b, j)
  {
    if k :| 0 <= k < |a| && a[k].end == j {
      assert (a + b)[k].end == j;
    }
    if k :| 0 <= k < |b| && b[k].end == j {
      assert (a + b)[|a| + k].end == j;
    }
  }

  lemma EndsPrefixed(marks: seq<Mark>, ws: seq<Way>, j: nat)
    ensures EndsAt(Prefixed(marks, ws), j) <==> EndsAt(ws, j)
  {
    if k :| 0 <= k < |ws| && ws[k].end == j {
      assert Prefixed(marks, ws)[k].end == j;
    }
  }

  lemma EndsGrouped(no: nat, i: nat, ws: seq<Way>, j: nat)
    ensures EndsAt(Grouped(no, i, ws), j) <==> EndsAt(ws, j)
  {
    if k :| 0 <= k < |ws| && ws[k].end == j {
      assert Grouped(no, i, ws)[k].end == j;
    }
  }

  lemma EndsOne(i: nat, marks: seq<Mark>, j: nat)
    ensures EndsAt([Way(i, marks)], j) <==> i == j
  {
    assert [Way(i, marks)][0].end == i;
  }

  /** The ways end exactly where matches do. */
  lemma {:induction false} WaysMatch(re: Re, s: seq<Byte>, i: nat, j: nat)
    requires Wf(re) && i <= |s|
    ensures EndsAt(Ways(re, s, i), j) <==> Matches(re, s, i, j)
    decreases re, 0, 0, 0, 0
  {
    hide EndsAt;
    match re
    case Group(no, alts) =>
      EndsGrouped(no, i, AltsWays(alts, s, i), j);
      AltsMatch(alts, s, i, j);
    case Rep(op, x) =>
      if op == Opt {
        WaysMatch(x, s, i, j);
        EndsConcat(Ways(x, s, i), [Way(i, [])], j);
        EndsOne(i, [], j);
      } else {
        if op == Star {
          StarMatch(x, s, i, j);
        } else {
          PlusMatch(x, s, i, j);
        }
      }
    case _ =>
      LeafMatch(re, s, i, j);
      LeafEnds(re, s, i, j);
  }

  lemma LeafMatch(re: Re, s: seq<Byte>, i: nat, m: nat)
    requires Leaf(re)
    ensures Matches(re, s, i, m) <==> m == LeafEnd(re, s, i)
  {
  }

  lemma LeafEnds(re: Re, s: seq<Byte>, i: nat, j: nat)
    requires Leaf(re)
    ensures EndsAt(Ways(re, s, i), j) <==> j == LeafEnd(re, s, i)
  {
    var e := LeafEnd(re, s, i);
    if e >= 0 {
      EndsOne(e, [], j);
    }
  }

  lemma {:induction false} AltsMatch(alts: seq<Branch>, s: seq<Byte>, i: nat, j: nat)
    requires WfAlts(alts) && i <= |s|
    ensures EndsAt(AltsWays(alts, s, i), j) <==> MatchesAlts(alts, s, i, j)
    decreases alts, 0, 0, 0, 0
  {
    if alts != [] {
      PiecesMatch(alts[0].pieces, s, i, j);
      AltsMatch(alts[1..], s, i, j);
      EndsConcat(PiecesWays(alts[0].pieces, s, i), AltsWays(alts[1..], s, i), j);
      AltsFirst(alts, s, i, j);
    }
  }

  lemma AltsFirst(alts: seq<Branch>, s: seq<Byte>, i: nat, j: nat)
    requires alts != []
    ensures MatchesAlts(alts, s, i, j) <==> MatchesPieces(alts[0].pieces, s, i, j) || MatchesAlts(alts[1..], s, i, j)
  {
    hide MatchesPieces;
    if t :| 0 <= t < |alts| && MatchesPieces(alts[t].pieces, s, i, j) {
      assert t > 0 ==> alts[1..][t - 1] == alts[t];
    }
    if t :| 0 <= t < |alts[1..]| && MatchesPieces(alts[1..][t].pieces, s, i, j) {
      assert alts[t + 1] == alts[1..][t];
    }
  }

  lemma {:induction false} PiecesMatch(ps: seq<Re>, s: seq<Byte>, i: nat, j: nat)
    requires WfPieces(ps) && i <= |s|
    ensures EndsAt(PiecesWays(ps, s, i), j) <==> MatchesPieces(ps, s, i, j)
    decreases ps, 0, 0, 0, 0
  {
    hide EndsAt, MatchesPieces, Matches;
    if ps == [] {
      EndsOne(i, [], j);
      NoPieces(s, i, j);
    } else {
      var ws := Ways(ps[0], s, i);
      ThenPiecesEnds(ws, ps[1..], s, j);
      if MatchesPieces(ps, s, i, j) {
        var m := PiecesSplit(ps, s, i, j);
        WaysMatch(ps[0], s, i, m);
        Bounds(ps[0], s, i, m);
        PiecesMatch(ps[1..], s, m, j);
        var k := EndIndex(ws, m);
      }
      if k :| 0 <= k < |ws| && EndsAt(PiecesWays(ps[1..], s, ws[k].end), j) {
        IndexEnd(ws, k);
        WaysMatch(ps[0], s, i, ws[k].end);
        Bounds(ps[0], s, i, ws[k].end);
        PiecesMatch(ps[1..], s, ws[k].end, j);
        PiecesJoin(ps, s, i, ws[k].end, j);
      }
    }
  }

  lemma NoPieces(s: seq<Byte>, i: nat, j: nat)
    ensures MatchesPieces([], s, i, j) <==> i == j
  {
  }

  lemma EndIndex(ws: seq<Way>, j: nat) returns (k: nat)
    requires EndsAt(ws, j)
    ensures k < |ws| && ws[k].end == j
  {
    k :| 0 <= k < |ws| && ws[k].end == j;
  }

  lemma IndexEnd(ws: seq<Way>, k: nat)
    requires k < |ws|
    ensures EndsAt(ws, ws[k].end)
  {
  }

  lemma {:induction false} ThenPiecesEnds(ws: seq<Way>, ps: seq<Re>, s: seq<Byte>, j: nat)
    ensures EndsAt(ThenPieces(ws, ps, s), j) <==> exists k :: 0 <= k < |ws| && EndsAt(PiecesWays(ps, s, ws[k].end), j)
    decreases |ws|
  {
    hide EndsAt, PiecesWays;
    if ws == [] {
      NoEnds(j);
    } else {
      EndsConcat(Prefixed(ws[0].marks, PiecesWays(ps, s, ws[0].end)), ThenPieces(ws[1..], ps, s), j);
      EndsPrefixed(ws[0].marks, PiecesWays(ps, s, ws[0].end), j);
      ThenPiecesEnds(ws[1..], ps, s, j);
      if k :| 0 <= k < |ws| && EndsAt(PiecesWays(ps, s, ws[k].end), j) {
        assert k > 0 ==> ws[1..][k - 1] == ws[k];
      }
    }
  }

  lemma NoEnds(j: nat)
    ensures !EndsAt([], j)
  {
  }

  lemma {:induction false} ThenStarEnds(ws: seq<Way>, x: Re, s: seq<Byte>, i: nat, j: nat)
    ensures EndsAt(ThenStar(ws, x, s, i), j) <==>
            exists k :: 0 <= k < |ws| && i < ws[k].end <= |s| && EndsAt(StarWays(x, s, ws[k].end), j)
    decreases |ws|
  {
    hide EndsAt, StarWays;
    NoEnds(j);
    if ws != [] {
      var first := if i < ws[0].end <= |s| then Prefixed(ws[0].marks, StarWays(x, s, ws[0].end)) else [];
      EndsConcat(first, ThenStar(ws[1..], x, s, i), j);
      EndsPrefixed(ws[0].marks, StarWays(x, s, ws[0].end), j);
      ThenStarEnds(ws[1..], x, s, i, j);
      if k :| 0 <= k < |ws| && i < ws[k].end <= |s| && EndsAt(StarWays(x, s, ws[k].end), j) {
        assert k > 0 ==> ws[1..][k - 1] == ws[k];
      }
    }
  }

  lemma {:induction false} StarMatch(x: Re, s: seq<Byte>, i: nat, j: nat)
    requires Wf(x) && HasWidth(x) && i <= |s|
    ensures EndsAt(StarWays(x, s, i), j) <==> Matches(Rep(Star, x), s, i, j)
    decreases x, 1, |s| - i, 1, 0
  {
    hide EndsAt, Matches;
    EndsConcat(ThenStar(Ways(x, s, i), x, s, i), [Way(i, [])], j);
    EndsOne(i, [], j);
    PlusMatch(x, s, i, j);
    StarUnfold(x, s, i, j);
  }

  lemma {:induction false} PlusMatch(x: Re, s: seq<Byte>, i: nat, j: nat)
    requires Wf(x) && HasWidth(x) && i <= |s|
    ensures EndsAt(ThenStar(Ways(x, s, i), x, s, i), j) <==> Matches(Rep(Plus, x), s, i, j)
    decreases x, 1, |s| - i, 0, 0
  {
    hide EndsAt, Matches, Wf, HasWidth;
    var ws := Ways(x, s, i);
    ThenStarEnds(ws, x, s, i, j);
    if Matches(Rep(Plus, x), s, i, j) {
      var m := PlusUnfold(x, s, i, j);
      WaysMatch(x, s, i, m);
      Bounds(x, s, i, m);
      WidthSound(x, s, i, m);
      StarMatch(x, s, m, j);
      var k := EndIndex(ws, m);
    }
    if k :| 0 <= k < |ws| && i < ws[k].end <= |s| && EndsAt(StarWays(x, s, ws[k].end), j) {
      IndexEnd(ws, k);
      WaysMatch(x, s, i, ws[k].end);
      StarMatch(x, s, ws[k].end, j);
      PlusFold(x, s, i, ws[k].end, j);
    }
  }

  lemma WaysBounds(re: Re, s: seq<Byte>, i: nat, k: nat)
    requires Wf(re) && i <= |s| && k < |Ways(re, s, i)|
    ensures i <= Ways(re, s, i)[k].end <= |s| && (HasWidth(re) ==> i < Ways(re, s, i)[k].end)
  {
    hide Ways, Matches, Wf, HasWidth;
    var j := Ways(re, s, i)[k].end;
    IndexEnd(Ways(re, s, i), k);
    WaysMatch(re, s, i, j);
    Bounds(re, s, i, j);
    if HasWidth(re) {
      WidthSound(re, s, i, j);
    }
  }

  // ---------- What is preferred ----------

  /** The first alternative that matches at all. */
  lemma {:induction false} EarlierPreferred(alts: seq<Branch>, t: nat, s: seq<Byte>, i: nat)
    requires t < |alts| && WfAlts(alts) && i <= |s| && exists j: nat :: MatchesPieces(alts[t].pieces, s, i, j)
    requires forall k, j: nat | 0 <= k < t :: !MatchesPieces(alts[k].pieces, s, i, j)
    ensures AltsWays(alts, s, i) != [] && PiecesWays(alts[t].pieces, s, i) != []
    ensures AltsWays(alts, s, i)[0] == PiecesWays(alts[t].pieces, s, i)[0]
    decreases t
  {
    hide MatchesPieces, PiecesWays;
    var ws := PiecesWays(alts[0].pieces, s, i);
    if t == 0 {
      var j: nat :| MatchesPieces(alts[0].pieces, s, i, j);
      PiecesMatch(alts[0].pieces, s, i, j);
    } else {
      if ws != [] {
        IndexEnd(ws, 0);
        PiecesMatch(alts[0].pieces, s, i, ws[0].end);
      }
      assert alts[1..][t - 1] == alts[t];
      forall k, j: nat | 0 <= k < t - 1 ensures !MatchesPieces(alts[1..][k].pieces, s, i, j) {
        assert alts[1..][k] == alts[k + 1];
      }
      EarlierPreferred(alts[1..], t - 1, s, i);
    }
  }

  /** One turn rather than none, wherever the operand matches. */
  lemma MorePreferred(op: RepOp, x: Re, s: seq<Byte>, i: nat)
    requires Wf(Rep(op, x)) && i <= |s| && op != Plus && exists j: nat :: Matches(x, s, i, j)
    ensures Ways(x, s, i) != [] && Ways(Rep(op, x), s, i) != []
    ensures op == Opt ==> Ways(Rep(op, x), s, i)[0] == Ways(x, s, i)[0]
    ensures op == Star ==> Ways(Rep(op, x), s, i)[0].end >= Ways(x, s, i)[0].end > i
  {
    var j: nat :| Matches(x, s, i, j);
    WaysMatch(x, s, i, j);
    if op == Star {
      var e := Ways(x, s, i)[0].end;
      WaysBounds(x, s, i, 0);
      WaysBounds(Rep(Star, x), s, e, 0);
      assert Ways(Rep(Star, x), s, i) == StarWays(x, s, i);
      assert StarWays(x, s, i)[0].end == StarWays(x, s, e)[0].end;
    }
  }

  // ---------- What the last marks of a group delimit ----------

  /** Where group no was last started (open) or ended; -1 if it was not. */
  function LastMark(marks: seq<Mark>, open: bool, no: nat): (p: int)
    ensures p >= -1
  {
    if marks == [] then -1
    else
      var p := LastMark(marks[1..], open, no);
      if p != -1 then p else if marks[0].open == open && marks[0].no == no then marks[0].pos else -1
  }

  /** It is the place of the last such mark. */
  lemma {:induction false} LastMarkIs(marks: seq<Mark>, open: bool, no: nat)
    ensures var p := LastMark(marks, open, no);
            if p == -1 then forall k | 0 <= k < |marks| :: marks[k].open != open || marks[k].no != no
            else exists k | 0 <= k < |marks| ::
              && marks[k] == Mark(open, no, p)
              && forall m | k < m < |marks| :: marks[m].open != open || marks[m].no != no
    decreases |marks|
  {
    if marks != [] {
      LastMarkIs(marks[1..], open, no);
      var p := LastMark(marks[1..], open, no);
      if p == -1 {
        assert forall m | 0 < m < |marks| :: marks[m] == marks[1..][m - 1];
      } else {
        var k :| 0 <= k < |marks[1..]| && marks[1..][k] == Mark(open, no, p)
                 && forall m | k < m < |marks[1..]| :: marks[1..][m].open != open || marks[1..][m].no != no;
        assert marks[k + 1] == Mark(open, no, p);
        assert forall m | k + 1 < m < |marks| :: marks[m] == marks[1..][m - 1];
      }
    }
  }

  lemma {:induction false} LastOfTwo(a: seq<Mark>, b: seq<Mark>, open: bool, no: nat)
    ensures var q := LastMark(b, open, no); LastMark(a + b, open, no) == if q != -1 then q else LastMark(a, open, no)
    decreases |a|
  {
    if a == [] {
      assert a + b == b;
    } else {
      assert (a + b)[1..] == a[1..] + b;
      LastOfTwo(a[1..], b, open, no);
    }
  }

  /** Both marks of a group are there or neither, and what is between them matches the group. */
  ghost predicate Delimits(p: int, q: int, no: nat, tab: Table, s: seq<Byte>) {
    (p == -1 <==> q == -1) && (p != -1 ==> no in tab && 0 <= p <= q <= |s| && MatchesAlts(tab[no], s, p, q))
  }

  ghost predicate Delimited(marks: seq<Mark>, tab: Table, s: seq<Byte>) {
    forall no: nat :: Delimits(LastMark(marks, true, no), LastMark(marks, false, no), no, tab, s)
  }

  /** The marks are of groups with numbers above n, at positions from lo to hi. */
  predicate Within(marks: seq<Mark>, n: nat, lo: nat, hi: nat) {
    forall k | 0 <= k < |marks| :: marks[k].no > n && lo <= marks[k].pos <= hi
  }

  ghost predicate Proper(w: Way, tab: Table, n: nat, s: seq<Byte>, i: nat) {
    i <= w.end <= |s| && Within(w.marks, n, i, w.end) && Delimited(w.marks, tab, s)
  }

  ghost predicate AllProper(ws: seq<Way>, tab: Table, n: nat, s: seq<Byte>, i: nat) {
    forall k | 0 <= k < |ws| :: Proper(ws[k], tab, n, s, i)
  }

  lemma ProperOn(w: Way, v: Way, tab: Table, n: nat, s: seq<Byte>, i: nat)
    requires Proper(w, tab, n, s, i) && Proper(v, tab, n, s, w.end)
    ensures Proper(Way(v.end, w.marks + v.marks), tab, n, s, i)
  {
    hide LastMark, MatchesAlts;
    forall no: nat
      ensures Delimits(LastMark(w.marks + v.marks, true, no), LastMark(w.marks + v.marks, false, no), no, tab, s)
    {
      LastOfTwo(w.marks, v.marks, true, no);
      LastOfTwo(w.marks, v.marks, false, no);
      assert Delimits(LastMark(w.marks, true, no), LastMark(w.marks, false, no), no, tab, s);
      assert Delimits(LastMark(v.marks, true, no), LastMark(v.marks, false, no), no, tab, s);
    }
  }

  lemma PrefixedProper(w: Way, vs: seq<Way>, tab: Table, n: nat, s: seq<Byte>, i: nat)
    requires Proper(w, tab, n, s, i) && AllProper(vs, tab, n, s, w.end)
    ensures AllProper(Prefixed(w.marks, vs), tab, n, s, i)
  {
    hide Proper;
    forall k | 0 <= k < |vs| ensures Proper(Prefixed(w.marks, vs)[k], tab, n, s, i) {
      ProperOn(w, vs[k], tab, n, s, i);
    }
  }

  lemma ProperConcat(a: seq<Way>, b: seq<Way>, tab: Table, n: nat, s: seq<Byte>, i: nat)
    requires AllProper(a, tab, n, s, i) && AllProper(b, tab, n, s, i)
    ensures AllProper(a + b, tab, n, s, i)
  {
    hide Proper;
  }

  lemma ProperNone(tab: Table, n: nat, s: seq<Byte>, i: nat, e: nat)
    requires i <= e <= |s|
    ensures AllProper([Way(e, [])], tab, n, s, i)
  {
  }

  lemma {:induction false} NoMark(marks: seq<Mark>, n: nat, lo: nat, hi: nat, open: bool, no: nat)
    requires Within(marks, n, lo, hi) && no <= n
    ensures LastMark(marks, open, no) == -1
    decreases |marks|
  {
    if marks != [] {
      NoMark(marks[1..], n, lo, hi, open, no);
    }
  }

  lemma GroupProper(w: Way, tab: Table, no: nat, n: nat, s: seq<Byte>, i: nat)
    requires Proper(w, tab, no, s, i) && n < no && no in tab && MatchesAlts(tab[no], s, i, w.end)
    ensures Proper(Way(w.end, [Mark(true, no, i)] + w.marks + [Mark(false, no, w.end)]), tab, n, s, i)
  {
    hide MatchesAlts;
    var a, b := [Mark(true, no, i)], [Mark(false, no, w.end)];
    forall m: nat ensures Delimits(LastMark(a + w.marks + b, true, m), LastMark(a + w.marks + b, false, m), m, tab, s) {
      forall open: bool ensures var q := LastMark(w.marks, open, m);
                                LastMark(a + w.marks + b, open, m) == if m != no then q else if open then i else w.end {
        OneMark(a[0], open, m);
        OneMark(b[0], open, m);
        LastOfTwo(a, w.marks, open, m);
        LastOfTwo(a + w.marks, b, open, m);
        if m == no {
          NoMark(w.marks, no, i, w.end, open, m);
        }
      }
      assert Delimits(LastMark(w.marks, true, m), LastMark(w.marks, false, m), m, tab, s);
    }
  }

  lemma OneMark(m: Mark, open: bool, no: nat)
    ensures LastMark([m], open, no) == if m.open == open && m.no == no then m.pos else -1
  {
    assert [m][1..] == [] && LastMark([], open, no) == -1;
  }

  /** In every way an expression matches, each group's last marks delimit a match of that group. */
  lemma {:induction false} WaysProper(re: Re, tab: Table, n: nat, s: seq<Byte>, i: nat)
    requires Wf(re) && Numbered(re, tab, n) && i <= |s|
    ensures AllProper(Ways(re, s, i), tab, n, s, i)
    decreases re, 0, 0, 0, 0
  {
    hide AllProper, Proper;
    match re
    case Group(no, alts) =>
      AltsProper(alts, tab, no, s, i);
      GroupedProper(no, alts, tab, n, s, i);
    case Rep(op, x) =>
      WaysProper(x, tab, n, s, i);
      ProperNone(tab, n, s, i, i);
      if op == Star {
        StarProper(x, tab, n, s, i);
      } else if op == Plus {
        ThenStarProper(Ways(x, s, i), x, tab, n, s, i);
      } else {
        ProperConcat(Ways(x, s, i), [Way(i, [])], tab, n, s, i);
      }
    case _ =>
      LeafProper(re, tab, n, s, i);
  }

  lemma LeafProper(re: Re, tab: Table, n: nat, s: seq<Byte>, i: nat)
    requires Leaf(re) && i <= |s|
    ensures AllProper(Ways(re, s, i), tab, n, s, i)
  {
    hide Proper;
    var e := LeafEnd(re, s, i);
    if e >= 0 {
      ProperNone(tab, n, s, i, e);
    }
  }

  lemma GroupedProper(no: nat, alts: seq<Branch>, tab: Table, n: nat, s: seq<Byte>, i: nat)
    requires WfAlts(alts) && n < no && no in tab && tab[no] == alts && i <= |s|
    requires AllProper(AltsWays(alts, s, i), tab, no, s, i)
    ensures AllProper(Grouped(no, i, AltsWays(alts, s, i)), tab, n, s, i)
  {
    hide Proper, MatchesAlts, AltsWays;
    var ws := AltsWays(alts, s, i);
    forall k | 0 <= k < |ws| ensures Proper(Grouped(no, i, ws)[k], tab, n, s, i) {
      IndexEnd(ws, k);
      AltsMatch(alts, s, i, ws[k].end);
      GroupProper(ws[k], tab, no, n, s, i);
    }
  }

  lemma {:induction false} AltsProper(alts: seq<Branch>, tab: Table, n: nat, s: seq<Byte>, i: nat)
    requires WfAlts(alts) && AltsNumbered(alts, tab, n) && i <= |s|
    ensures AllProper(AltsWays(alts, s, i), tab, n, s, i)
    decreases alts, 0, 0, 0, 0
  {
    hide Proper;
    if alts != [] {
      PiecesProper(alts[0].pieces, tab, n, s, i);
      AltsProper(alts[1..], tab, n, s, i);
      ProperConcat(PiecesWays(alts[0].pieces, s, i), AltsWays(alts[1..], s, i), tab, n, s, i);
    }
  }

  lemma {:induction false} PiecesProper(ps: seq<Re>, tab: Table, n: nat, s: seq<Byte>, i: nat)
    requires WfPieces(ps) && PiecesNumbered(ps, tab, n) && i <= |s|
    ensures AllProper(PiecesWays(ps, s, i), tab, n, s, i)
    decreases ps, 0, 0, 0, 0
  {
    hide AllProper, Proper;
    if ps == [] {
      ProperNone(tab, n, s, i, i);
    } else {
      WaysProper(ps[0], tab, n, s, i);
      ThenPiecesProper(Ways(ps[0], s, i), ps[1..], tab, n, s, i);
    }
  }

  lemma {:induction false} ThenPiecesProper(ws: seq<Way>, ps: seq<Re>, tab: Table, n: nat, s: seq<Byte>, i: nat)
    requires AllProper(ws, tab, n, s, i) && WfPieces(ps) && PiecesNumbered(ps, tab, n) && i <= |s|
    ensures AllProper(ThenPieces(ws, ps, s), tab, n, s, i)
    decreases ps, 1, 0, 0, |ws|
  {
    hide Within, Delimited, PiecesWays;
    if ws != [] {
      var w := ws[0];
      assert Proper(w, tab, n, s, i);
      PiecesProper(ps, tab, n, s, w.end);
      PrefixedProper(w, PiecesWays(ps, s, w.end), tab, n, s, i);
      ThenPiecesProper(ws[1..], ps, tab, n, s, i);
      ProperConcat(Prefixed(w.marks, PiecesWays(ps, s, w.end)), ThenPieces(ws[1..], ps, s), tab, n, s, i);
    }
  }

  lemma {:induction false} StarProper(x: Re, tab: Table, n: nat, s: seq<Byte>, i: nat)
    requires Wf(x) && Numbered(x, tab, n) && i <= |s|
    ensures AllProper(StarWays(x, s, i), tab, n, s, i)
    decreases x, 1, |s| - i, 1, 0
  {
    hide AllProper, Proper;
    WaysProper(x, tab, n, s, i);
    ThenStarProper(Ways(x, s, i), x, tab, n, s, i);
    ProperNone(tab, n, s, i, i);
    ProperConcat(ThenStar(Ways(x, s, i), x, s, i), [Way(i, [])], tab, n, s, i);
  }

  lemma {:induction false} ThenStarProper(ws: seq<Way>, x: Re, tab: Table, n: nat, s: seq<Byte>, i: nat)
    requires AllProper(ws, tab, n, s, i) && Wf(x) && Numbered(x, tab, n) && i <= |s|
    ensures AllProper(ThenStar(ws, x, s, i), tab, n, s, i)
    decreases x, 1, |s| - i, 0, |ws|
  {
    hide Within, Delimited, StarWays;
    if ws != [] {
      var w := ws[0];
      assert Proper(w, tab, n, s, i);
      ThenStarProper(ws[1..], x, tab, n, s, i);
      var first := if i < w.end <= |s| then Prefixed(w.marks, StarWays(x, s, w.end)) else [];
      if i < w.end {
        StarProper(x, tab, n, s, w.end);
        PrefixedProper(w, StarWays(x, s, w.end), tab, n, s, i);
      }
      ProperConcat(first, ThenStar(ws[1..], x, s, i), tab, n, s, i);
    }
  }
}
