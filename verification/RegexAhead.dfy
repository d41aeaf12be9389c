/** How the ways ahead of the matcher change from one stack of frames to the next. */
module RegexAhead {
  import opened Basics
  import opened RegexSyntax
  import opened RegexLang
  import opened RegexCode
  import opened RegexWays
  import opened RegexFrames

  // ---------- Lists of ways ----------

  lemma PrefixedTwice(p: seq<Mark>, q: seq<Mark>, ws: seq<Way>)
    ensures Prefixed(p, Prefixed(q, ws)) == Prefixed(p + q, ws)
  {
    forall k | 0 <= k < |ws| ensures Prefixed(p, Prefixed(q, ws))[k] == Prefixed(p + q, ws)[k] {
      assert p + (q + ws[k].marks) == (p + q) + ws[k].marks;
    }
  }

  lemma PrefixedConcat(p: seq<Mark>, a: seq<Way>, b: seq<Way>)
    ensures Prefixed(p, a + b) == Prefixed(p, a) + Prefixed(p, b)
  {
  }

  lemma PrefixedNone(ws: seq<Way>)
    ensures Prefixed([], ws) == ws
  {
    forall k | 0 <= k < |ws| ensures Prefixed([], ws)[k] == ws[k] {
      assert [] + ws[k].marks == ws[k].marks;
    }
  }

  lemma AfterOne(i: nat, k: Cont, s: seq<Byte>)
    ensures After([Way(i, [])], k, s) == Ahead(k, s, i)
  {
    hide Ahead, Prefixed;
    var ws := [Way(i, [])];
    assert ws[1..] == [] && After([], k, s) == [];
    PrefixedNone(Ahead(k, s, i));
  }

  lemma {:induction false} AfterConcat(a: seq<Way>, b: seq<Way>, k: Cont, s: seq<Byte>)
    ensures After(a + b, k, s) == After(a, k, s) + After(b, k, s)
    decreases |a|
  {
    hide Ahead, Prefixed;
    if a == [] {
      assert a + b == b;
    } else {
      assert (a + b)[1..] == a[1..] + b;
      AfterConcat(a[1..], b, k, s);
    }
  }

  lemma {:induction false} AfterPrefixed(p: seq<Mark>, ws: seq<Way>, k: Cont, s: seq<Byte>)
    ensures After(Prefixed(p, ws), k, s) == Prefixed(p, After(ws, k, s))
    decreases |ws|
  {
    hide Ahead;
    if ws != [] {
      var next := Ahead(k, s, ws[0].end);
      assert Prefixed(p, ws)[1..] == Prefixed(p, ws[1..]);
      AfterPrefixed(p, ws[1..], k, s);
      PrefixedTwice(p, ws[0].marks, next);
      PrefixedConcat(p, Prefixed(ws[0].marks, next), After(ws[1..], k, s));
    }
  }

  // ---------- Pieces ----------

  lemma LeafAhead(re: Re, d: nat, k: Cont, s: seq<Byte>, i: nat)
    requires Leaf(re)
    ensures var e := LeafEnd(re, s, i); Ahead(Piece(re, d, k), s, i) == if e < 0 then [] else Ahead(k, s, e)
  {
    var e := LeafEnd(re, s, i);
    if e >= 0 {
      AfterOne(e, k, s);
    }
  }

  /** A group: its start is passed, then one of its alternatives, and then its end. */
  lemma GroupAhead(no: nat, alts: seq<Branch>, d: nat, k: Cont, s: seq<Byte>, i: nat)
    ensures Ahead(Piece(Group(no, alts), d, k), s, i)
            == Prefixed([Mark(true, no, i)], Ahead(Choice(alts, Close(no, d, k)), s, i))
  {
    GroupedAfter(no, i, AltsWays(alts, s, i), d, k, s);
  }

  lemma {:induction false} GroupedAfter(no: nat, i: nat, ws: seq<Way>, d: nat, k: Cont, s: seq<Byte>)
    ensures After(Grouped(no, i, ws), k, s) == Prefixed([Mark(true, no, i)], After(ws, Close(no, d, k), s))
    decreases |ws|
  {
    if ws != [] {
      var p, q, marks, next := [Mark(true, no, i)], [Mark(false, no, ws[0].end)], ws[0].marks, Ahead(k, s, ws[0].end);
      assert Grouped(no, i, ws)[1..] == Grouped(no, i, ws[1..]);
      GroupedAfter(no, i, ws[1..], d, k, s);
      var rest := After(ws[1..], Close(no, d, k), s);
      assert Ahead(Close(no, d, k), s, ws[0].end) == Prefixed(q, next);
      PrefixedTwice(marks, q, next);
      PrefixedTwice(p, marks + q, next);
      assert p + (marks + q) == p + marks + q;
      PrefixedConcat(p, Prefixed(marks, Prefixed(q, next)), rest);
    }
  }

  /** x followed by frames that go round or on. */
  lemma TurnAhead(x: Re, d: nat, t: Cont, k: Cont, s: seq<Byte>, i: nat)
    requires Wf(x) && HasWidth(x) && i <= |s|
    requires forall m: nat :: Ahead(t, s, m) == After(StarWays(x, s, m), k, s)
    ensures Ahead(Piece(x, d, t), s, i) == After(Ways(Rep(Plus, x), s, i), k, s)
  {
    hide Wf, HasWidth, Ways;
    var ws := Ways(x, s, i);
    forall j | 0 <= j < |ws| ensures i < ws[j].end <= |s| {
      WaysBounds(x, s, i, j);
    }
    ThenStarAfter(ws, x, t, k, s, i);
    PlusWays(x, s, i);
    PieceAhead(x, d, t, s, i);
  }

  lemma PlusWays(x: Re, s: seq<Byte>, i: nat)
    ensures Ways(Rep(Plus, x), s, i) == ThenStar(Ways(x, s, i), x, s, i)
    ensures Ways(Rep(Star, x), s, i) == StarWays(x, s, i) == Ways(Rep(Plus, x), s, i) + [Way(i, [])]
  {
  }

  lemma PieceAhead(re: Re, d: nat, k: Cont, s: seq<Byte>, i: nat)
    ensures Ahead(Piece(re, d, k), s, i) == After(Ways(re, s, i), k, s)
  {
  }

  lemma {:induction false} ThenStarAfter(ws: seq<Way>, x: Re, t: Cont, k: Cont, s: seq<Byte>, i: nat)
    requires forall j | 0 <= j < |ws| :: i < ws[j].end <= |s|
    requires forall m: nat :: Ahead(t, s, m) == After(StarWays(x, s, m), k, s)
    ensures After(ThenStar(ws, x, s, i), k, s) == After(ws, t, s)
    decreases |ws|
  {
    hide Ahead, StarWays, Prefixed;
    if ws != [] {
      var turns := StarWays(x, s, ws[0].end);
      ThenStarAfter(ws[1..], x, t, k, s, i);
      AfterConcat(Prefixed(ws[0].marks, turns), ThenStar(ws[1..], x, s, i), k, s);
      AfterPrefixed(ws[0].marks, turns, k, s);
    }
  }

  /** Another turn first, and then none. */
  lemma StarAhead(x: Re, k: Cont, s: seq<Byte>, i: nat)
    ensures After(StarWays(x, s, i), k, s) == After(Ways(Rep(Plus, x), s, i), k, s) + Ahead(k, s, i)
  {
    hide Ahead;
    PlusWays(x, s, i);
    AfterConcat(Ways(Rep(Plus, x), s, i), [Way(i, [])], k, s);
    AfterOne(i, k, s);
  }

  /** x+ begins with x. */
  lemma PlusAhead(x: Re, e: nat, d: nat, k: Cont, s: seq<Byte>, i: nat)
    requires Wf(x) && HasWidth(x) && i <= |s|
    ensures Ahead(Piece(x, 0, PlusTail(x, e, d, k)), s, i) == After(Ways(Rep(Plus, x), s, i), k, s)
  {
    hide Wf, HasWidth, Ways;
    TurnAhead(x, 0, PlusTail(x, e, d, k), k, s, i);
  }

  lemma OptAhead(x: Re, d: nat, k: Cont, s: seq<Byte>, i: nat)
    ensures Ahead(Piece(Rep(Opt, x), d, k), s, i) == Ahead(Piece(x, 3, Empty(d, k)), s, i) + Ahead(Empty(d, k), s, i)
  {
    AfterConcat(Ways(x, s, i), [Way(i, [])], k, s);
    AfterOne(i, k, s);
    AfterEmpty(Ways(x, s, i), d, k, s);
  }

  lemma {:induction false} AfterEmpty(ws: seq<Way>, d: nat, k: Cont, s: seq<Byte>)
    ensures After(ws, Empty(d, k), s) == After(ws, k, s)
    decreases |ws|
  {
    if ws != [] {
      AfterEmpty(ws[1..], d, k, s);
    }
  }

  // ---------- Alternatives ----------

  /** The operand of an alternative: its pieces one after the other. */
  function BodyOf(ps: seq<Re>, d: nat, k: Cont): Cont
    decreases |ps|
  {
    if ps == [] then Empty(d, k) else if |ps| == 1 then Piece(ps[0], d, k) else Piece(ps[0], 0, BodyOf(ps[1..], d, k))
  }

  function AltConts(bs: seq<Branch>, k: Cont): (fs: seq<Cont>)
    ensures |fs| == |bs|
  {
    if bs == [] then [] else [BodyOf(bs[0].pieces, |EncAlts(bs[1..])|, k)] + AltConts(bs[1..], k)
  }

  /** What is ahead of several frames tried in order. */
  function AllAhead(fs: seq<Cont>, s: seq<Byte>, i: nat): seq<Way> {
    if fs == [] then [] else Ahead(fs[0], s, i) + AllAhead(fs[1..], s, i)
  }

  lemma {:induction false} BodyAhead(ps: seq<Re>, d: nat, k: Cont, s: seq<Byte>, i: nat)
    ensures Ahead(BodyOf(ps, d, k), s, i) == After(PiecesWays(ps, s, i), k, s)
    decreases |ps|
  {
    hide Ways;
    if ps == [] {
      AfterOne(i, k, s);
    } else {
      var rest := if |ps| == 1 then k else BodyOf(ps[1..], d, k);
      forall m: nat ensures Ahead(rest, s, m) == After(PiecesWays(ps[1..], s, m), k, s) {
        if |ps| == 1 {
          AfterOne(m, k, s);
        } else {
          BodyAhead(ps[1..], d, k, s, m);
        }
      }
      ThenPiecesAfter(Ways(ps[0], s, i), ps[1..], rest, k, s);
    }
  }

  lemma {:induction false} ThenPiecesAfter(ws: seq<Way>, ps: seq<Re>, t: Cont, k: Cont, s: seq<Byte>)
    requires forall m: nat :: Ahead(t, s, m) == After(PiecesWays(ps, s, m), k, s)
    ensures After(ThenPieces(ws, ps, s), k, s) == After(ws, t, s)
    decreases |ws|
  {
    hide Ahead, PiecesWays, Prefixed;
    if ws != [] {
      var next := PiecesWays(ps, s, ws[0].end);
      ThenPiecesAfter(ws[1..], ps, t, k, s);
      AfterConcat(Prefixed(ws[0].marks, next), ThenPieces(ws[1..], ps, s), k, s);
      AfterPrefixed(ws[0].marks, next, k, s);
    }
  }

  /** The alternatives are tried in order. */
  lemma {:induction false} AltsAhead(bs: seq<Branch>, k: Cont, s: seq<Byte>, i: nat)
    ensures AllAhead(AltConts(bs, k), s, i) == After(AltsWays(bs, s, i), k, s)
    decreases |bs|
  {
    hide Ahead, BodyOf, PiecesWays, EncAlts;
    if bs != [] {
      var ps := bs[0].pieces;
      BodyAhead(ps, |EncAlts(bs[1..])|, k, s, i);
      AltsAhead(bs[1..], k, s, i);
      AfterConcat(PiecesWays(ps, s, i), AltsWays(bs[1..], s, i), k, s);
      assert AltConts(bs, k)[1..] == AltConts(bs[1..], k);
    }
  }

  lemma TwoAhead(f1: Cont, f2: Cont, s: seq<Byte>, i: nat)
    ensures AllAhead([f1, f2], s, i) == Ahead(f1, s, i) + Ahead(f2, s, i)
  {
    hide Ahead;
    assert [f1, f2][1..] == [f2] && [f2][1..] == [] && AllAhead([], s, i) == [];
  }

  // ---------- Repetitions of a simple piece ----------

  /** The positions from hi down to lo. */
  function Down(lo: nat, hi: int): seq<Way>
    decreases hi + 1 - lo
  {
    if hi < lo then [] else [Way(hi, [])] + Down(lo, hi - 1)
  }

  lemma {:induction false} DownEnd(lo: nat, hi: int)
    requires lo <= hi
    ensures Down(lo, hi) == Down(lo + 1, hi) + [Way(lo, [])]
    decreases hi
  {
    if lo < hi {
      DownEnd(lo, hi - 1);
    }
  }

  /** How few repetitions a STAR or PLUS node allows. */
  function Least(op: RepOp): nat {
    if op == Star then 0 else 1
  }

  /** The longest run is preferred, then shorter ones. */
  lemma {:induction false} SimpleWays(op: RepOp, x: Re, s: seq<Byte>, i: nat)
    requires IsSimple(x) && op != Opt && i <= |s|
    ensures Ways(Rep(op, x), s, i) == Down(i + Least(op), i + Run(x, s, i))
    decreases |s| - i, op == Star
  {
    hide Ways;
    PlusWays(x, s, i);
    if op == Star {
      SimpleWays(Plus, x, s, i);
      DownEnd(i, i + Run(x, s, i));
    } else {
      OneWay(x, s, i);
      if Run(x, s, i) > 0 {
        SimpleWays(Star, x, s, i + 1);
        PlusWays(x, s, i + 1);
        PrefixedNone(StarWays(x, s, i + 1));
        assert [Way(i + 1, [])][1..] == [] && ThenStar([], x, s, i) == [];
      }
    }
  }

  /** No match of a repeated character is longer than the preferred one. */
  lemma LongestPreferred(op: RepOp, x: Re, s: seq<Byte>, i: nat, j: nat)
    requires Wf(Rep(op, x)) && IsSimple(x) && op != Opt && i <= |s| && Matches(Rep(op, x), s, i, j)
    ensures Ways(Rep(op, x), s, i) != [] && j <= Ways(Rep(op, x), s, i)[0].end
  {
    hide Ways, Matches;
    WaysMatch(Rep(op, x), s, i, j);
    SimpleWays(op, x, s, i);
    var k := EndIndex(Ways(Rep(op, x), s, i), j);
    DownAt(i + Least(op), i + Run(x, s, i), k);
  }

  lemma {:induction false} DownAt(lo: nat, hi: int, k: nat)
    requires k < |Down(lo, hi)|
    ensures Down(lo, hi)[k].end == hi - k
    decreases hi - lo
  {
    if k > 0 {
      DownAt(lo, hi - 1, k - 1);
    }
  }

  lemma OneWay(x: Re, s: seq<Byte>, i: nat)
    requires IsSimple(x)
    ensures Ways(x, s, i) == if Run(x, s, i) > 0 then [Way(i + 1, [])] else []
  {
    if x.Lit? && i < |s| {
      assert s[i..i + 1] == [s[i]];
    }
  }

  lemma RepeatAhead(f: Cont, s: seq<Byte>, i: nat)
    requires f.Piece? && f.re.Rep? && f.re.op != Opt && IsSimple(f.re.x) && i <= |s|
    ensures Ahead(f, s, i) == After(Down(i + Least(f.re.op), i + Run(f.re.x, s, i)), f.k, s)
  {
    hide Ahead, After, Ways, Down, Run;
    SimpleWays(f.re.op, f.re.x, s, i);
    assert f.re == Rep(f.re.op, f.re.x) && f == Piece(f.re, f.d, f.k);
    PieceAhead(f.re, f.d, f.k, s, i);
  }

  lemma DownAhead(lo: nat, hi: nat, k: Cont, s: seq<Byte>)
    requires lo <= hi
    ensures After(Down(lo, hi), k, s) == Ahead(k, s, hi) + After(Down(lo, hi - 1), k, s)
  {
    hide Ahead;
    AfterConcat([Way(hi, [])], Down(lo, hi - 1), k, s);
    AfterOne(hi, k, s);
  }
}
