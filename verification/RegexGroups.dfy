/** Parenthesized groups: which group has which number. */
module RegexGroups {
  import opened Basics
  import opened RegexSyntax

  /** The alternatives of each numbered group. */
  type Table = map<nat, seq<Branch>>

  function Tab(re: Re): Table
    decreases re, 0
  {
    match re
    case Group(no, alts) => AltsTab(alts)[no := alts]
    case Rep(_, x) => Tab(x)
    case _ => map[]
  }

  function AltsTab(alts: seq<Branch>): Table
    decreases alts, 0
  {
    if alts == [] then map[] else PiecesTab(alts[0].pieces) + AltsTab(alts[1..])
  }

  function PiecesTab(ps: seq<Re>): Table
    decreases ps, 0
  {
    if ps == [] then map[] else Tab(ps[0]) + PiecesTab(ps[1..])
  }

  /** The groups are those of the table; their numbers are above n, and above that of the group
      around them. */
  predicate Numbered(re: Re, tab: Table, n: nat)
    decreases re, 0
  {
    match re
    case Group(no, alts) => no > n && no in tab && tab[no] == alts && AltsNumbered(alts, tab, no)
    case Rep(_, x) => Numbered(x, tab, n)
    case _ => true
  }

  predicate AltsNumbered(alts: seq<Branch>, tab: Table, n: nat)
    decreases alts, 0
  {
    alts == [] || (PiecesNumbered(alts[0].pieces, tab, n) && AltsNumbered(alts[1..], tab, n))
  }

  predicate PiecesNumbered(ps: seq<Re>, tab: Table, n: nat)
    decreases ps, 0
  {
    ps == [] || (Numbered(ps[0], tab, n) && PiecesNumbered(ps[1..], tab, n))
  }

  predicate Extends(tab: Table, tab': Table) {
    forall k | k in tab :: k in tab' && tab'[k] == tab[k]
  }

  lemma {:induction false} Widen(re: Re, tab: Table, n: nat, tab': Table, n': nat)
    requires Numbered(re, tab, n) && n' <= n && Extends(tab, tab')
    ensures Numbered(re, tab', n')
    decreases re, 0
  {
    match re
    case Group(no, alts) => AltsWiden(alts, tab, no, tab', no);
    case Rep(_, x) => Widen(x, tab, n, tab', n');
    case _ =>
  }

  lemma {:induction false} AltsWiden(alts: seq<Branch>, tab: Table, n: nat, tab': Table, n': nat)
    requires AltsNumbered(alts, tab, n) && n' <= n && Extends(tab, tab')
    ensures AltsNumbered(alts, tab', n')
    decreases alts, 0
  {
    if alts != [] {
      PiecesWiden(alts[0].pieces, tab, n, tab', n');
      AltsWiden(alts[1..], tab, n, tab', n');
    }
  }

  lemma {:induction false} PiecesWiden(ps: seq<Re>, tab: Table, n: nat, tab': Table, n': nat)
    requires PiecesNumbered(ps, tab, n) && n' <= n && Extends(tab, tab')
    ensures PiecesNumbered(ps, tab', n')
    decreases ps, 0
  {
    if ps != [] {
      Widen(ps[0], tab, n, tab', n');
      PiecesWiden(ps[1..], tab, n, tab', n');
    }
  }

  // ---------- The parser numbers groups from left to right ----------

  /** The numbers of the groups, in the order of their opening parentheses. */
  function Numbers(re: Re): seq<nat>
    decreases re, 0
  {
    match re
    case Group(no, alts) => [no] + AltsNos(alts)
    case Rep(_, x) => Numbers(x)
    case _ => []
  }

  function AltsNos(alts: seq<Branch>): seq<nat>
    decreases alts, 0
  {
    if alts == [] then [] else PiecesNos(alts[0].pieces) + AltsNos(alts[1..])
  }

  function PiecesNos(ps: seq<Re>): seq<nat>
    decreases ps, 0
  {
    if ps == [] then [] else Numbers(ps[0]) + PiecesNos(ps[1..])
  }

  /** lo, .., hi-1. */
  function Upto(lo: nat, hi: nat): (s: seq<nat>)
    requires lo <= hi
    ensures |s| == hi - lo && forall k | 0 <= k < |s| :: s[k] == lo + k
  {
    seq(hi - lo, k requires k >= 0 => lo + k)
  }

  predicate Keys(tab: Table, lo: nat, hi: nat) {
    forall k | k in tab :: lo <= k < hi
  }

  lemma {:induction false} AtomNumbers(pat: seq<Byte>, i: nat, npar: nat)
    requires i <= |pat| && npar > 0
    ensures var r := ParseAtom(pat, i, npar);
            r.Good? ==> npar <= r.npar && Numbers(r.val) == Upto(npar, r.npar)
                        && Keys(Tab(r.val), npar, r.npar) && Numbered(r.val, Tab(r.val), npar - 1)
    decreases |pat| - i, 0
  {
    if Char(pat, i) == LPAREN && npar < NSUBEXP {
      AltsNumbers(pat, i + 1, npar + 1);
      var r := ParseAlts(pat, i + 1, npar + 1);
      if r.Good? {
        AltsWiden(r.val, AltsTab(r.val), npar, AltsTab(r.val)[npar := r.val], npar);
      }
    }
  }

  lemma {:induction false} PieceNumbers(pat: seq<Byte>, i: nat, npar: nat)
    requires i <= |pat| && npar > 0
    ensures var r := ParsePiece(pat, i, npar);
            r.Good? ==> npar <= r.npar && Numbers(r.val) == Upto(npar, r.npar)
                        && Keys(Tab(r.val), npar, r.npar) && Numbered(r.val, Tab(r.val), npar - 1)
    decreases |pat| - i, 1
  {
    hide ParseAtom;
    AtomNumbers(pat, i, npar);
  }

  lemma {:induction false} BranchNumbers(pat: seq<Byte>, i: nat, npar: nat)
    requires i <= |pat| && npar > 0
    ensures var r := ParseBranch(pat, i, npar);
            r.Good? ==> npar <= r.npar && PiecesNos(r.val.pieces) == Upto(npar, r.npar)
                        && Keys(PiecesTab(r.val.pieces), npar, r.npar)
                        && PiecesNumbered(r.val.pieces, PiecesTab(r.val.pieces), npar - 1)
    decreases |pat| - i, 2
  {
    hide ParsePiece;
    if !EndsBranch(Char(pat, i)) {
      PieceNumbers(pat, i, npar);
      var p := ParsePiece(pat, i, npar);
      if p.Good? {
        BranchNumbers(pat, p.pos, p.npar);
        var r := ParseBranch(pat, p.pos, p.npar);
        if r.Good? {
          var ps := [p.val] + r.val.pieces;
          assert ps[1..] == r.val.pieces;
          Widen(p.val, Tab(p.val), npar - 1, PiecesTab(ps), npar - 1);
          PiecesWiden(r.val.pieces, PiecesTab(r.val.pieces), p.npar - 1, PiecesTab(ps), npar - 1);
        }
      }
    }
  }

  lemma {:induction false} AltsNumbers(pat: seq<Byte>, i: nat, npar: nat)
    requires i <= |pat| && npar > 0
    ensures var r := ParseAlts(pat, i, npar);
            r.Good? ==> npar <= r.npar && AltsNos(r.val) == Upto(npar, r.npar)
                        && Keys(AltsTab(r.val), npar, r.npar) && AltsNumbered(r.val, AltsTab(r.val), npar - 1)
    decreases |pat| - i, 3
  {
    hide ParseBranch;
    BranchNumbers(pat, i, npar);
    var b := ParseBranch(pat, i, npar);
    if b.Good? {
      if Char(pat, b.pos) != BAR {
        assert [b.val][1..] == [] && AltsTab([]) == map[];
        assert AltsTab([b.val]) == PiecesTab(b.val.pieces) && AltsNos([]) == [];
      } else {
        AltsNumbers(pat, b.pos + 1, b.npar);
        var r := ParseAlts(pat, b.pos + 1, b.npar);
        if r.Good? {
          var alts := [b.val] + r.val;
          assert alts[1..] == r.val;
          PiecesWiden(b.val.pieces, PiecesTab(b.val.pieces), npar - 1, AltsTab(alts), npar - 1);
          AltsWiden(r.val, AltsTab(r.val), b.npar - 1, AltsTab(alts), npar - 1);
        }
      }
    }
  }
}
