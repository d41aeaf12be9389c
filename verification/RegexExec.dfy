/** regexec: where in a string an expression matches first, and the shortcuts that find out sooner. */
module RegexExec {
  import opened Basics
  import opened RegexSyntax
  import opened RegexGrammar
  import opened RegexLang
  import opened RegexCode
  import opened RegexPatch
  import opened RegexCompile
  import opened RegexPrepare
  import opened RegexFrames
  import opened RegexMatch
  import opened RegexGroups
  import opened RegexWays

  // ---------- What the shortcuts rest on ----------

  /** The only alternative's pieces are matched in sequence. */
  lemma OnlyPieces(alts: seq<Branch>, s: seq<Byte>, i: nat, j: nat)
    requires |alts| == 1 && MatchesAlts(alts, s, i, j)
    ensures MatchesPieces(alts[0].pieces, s, i, j)
  {
  }

  /** reganch: a match can only start at the beginning. */
  lemma AnchorSound(alts: seq<Branch>, s: seq<Byte>, i: nat, j: nat)
    requires AnchorOf(alts) && MatchesAlts(alts, s, i, j)
    ensures i == 0
  {
    OnlyPieces(alts, s, i, j);
    var m := PiecesSplit(alts[0].pieces, s, i, j);
  }

  /** regstart: a match can only start at that character. */
  lemma StartSound(alts: seq<Branch>, s: seq<Byte>, i: nat, j: nat)
    requires StartOf(alts) != 0 && MatchesAlts(alts, s, i, j)
    ensures i < |s| && s[i] == StartOf(alts)
  {
    OnlyPieces(alts, s, i, j);
    var m := PiecesSplit(alts[0].pieces, s, i, j);
    var str := alts[0].pieces[0].str;
    assert s[i..i + |str|][0] == s[i];
  }

  /** The text of the literal that regmust points to. */
  function MustText(alts: seq<Branch>): seq<Byte>
    requires MustOf(alts) >= 0
  {
    alts[0].pieces[MustOf(alts)].str
  }

  predicate OccursAt(text: seq<Byte>, s: seq<Byte>, a: nat) {
    a + |text| <= |s| && s[a..a + |text|] == text
  }

  lemma OccursIs(text: seq<Byte>, s: seq<Byte>, a: nat)
    ensures OccursAt(text, s, a) <==> a + |text| <= |s| && s[a..a + |text|] == text
  {
  }

  lemma OccursFirst(text: seq<Byte>, s: seq<Byte>)
    requires text != []
    ensures forall a: nat | OccursAt(text, s, a) :: a < |s| && s[a] == text[0]
  {
    forall a: nat | OccursAt(text, s, a) ensures a < |s| && s[a] == text[0] {
      assert s[a..a + |text|][0] == s[a];
    }
  }

  /** regmust: a string that matches contains that text. */
  lemma MustSound(alts: seq<Branch>, s: seq<Byte>, i: nat, j: nat) returns (a: nat)
    requires MustOf(alts) >= 0 && MatchesAlts(alts, s, i, j)
    ensures OccursAt(MustText(alts), s, a)
  {
    OnlyPieces(alts, s, i, j);
    a := LitAppears(alts[0].pieces, s, i, j, MustOf(alts));
  }

  // ---------- The program's frames ----------

  /** The whole program, from its first node. */
  lemma ProgramLive(r: Regexp, alts: seq<Branch>, s: seq<Byte>, i: nat)
    requires Compiled(r, alts) && i <= |s| && 0 !in s
    ensures Live(r.program, s, Choice(alts, Done), 1, i)
  {
    hide EncAlts, Region, Off;
    MidRegion([MAGIC], EncAlts(alts), Node(END, 0));
    RegionEnd([MAGIC] + EncAlts(alts), Node(END, 0));
    assert r.program == [MAGIC] + EncAlts(alts) + Node(END, 0);
    assert |[MAGIC]| == 1 && |[MAGIC] + EncAlts(alts)| == 1 + |EncAlts(alts)|;
    assert At(r.program, 1 + |EncAlts(alts)|, Done);
    assert Okay(Done, i, AltsHaveWidth(alts));
  }

  lemma ProgramAhead(alts: seq<Branch>, s: seq<Byte>, i: nat)
    ensures Ahead(Choice(alts, Done), s, i) == AltsWays(alts, s, i)
  {
    AfterDone(AltsWays(alts, s, i), s);
  }

  lemma {:induction false} AfterDone(ws: seq<Way>, s: seq<Byte>)
    ensures After(ws, Done, s) == ws
    decreases |ws|
  {
    if ws != [] {
      assert ws[0].marks + [] == ws[0].marks;
      AfterDone(ws[1..], s);
    }
  }

  /** The most preferred of the ways to match from i. */
  function Preferred(alts: seq<Branch>, s: seq<Byte>, i: nat): Way
    requires AltsWays(alts, s, i) != []
  {
    AltsWays(alts, s, i)[0]
  }

  /** What startp and endp say: the whole match, and the last turn of every group. */
  ghost predicate Describes(startp: seq<int>, endp: seq<int>, i: nat, w: Way) {
    && |startp| == |endp| == NSUBEXP && startp[0] == i && endp[0] == w.end
    && forall k | 0 < k < NSUBEXP :: startp[k] == LastMark(w.marks, true, k) && endp[k] == LastMark(w.marks, false, k)
  }

  /** startp and endp delimit a match, and inside it, for every group that took part in it, a match
      of that group. */
  ghost predicate Captures(startp: seq<int>, endp: seq<int>, alts: seq<Branch>, s: seq<Byte>) {
    && |startp| == |endp| == NSUBEXP && 0 <= startp[0] <= endp[0] <= |s| && MatchesAlts(alts, s, startp[0], endp[0])
    && forall k: nat | 0 < k < NSUBEXP :: Delimits(startp[k], endp[k], k, AltsTab(alts), s)
         && (startp[k] != -1 ==> startp[0] <= startp[k] <= endp[k] <= endp[0])
  }

  /** The preferred way is such a match. */
  lemma PreferredCaptures(r: Regexp, alts: seq<Branch>, s: seq<Byte>, i: nat, startp: seq<int>, endp: seq<int>)
    requires Compiled(r, alts) && i <= |s| && AltsWays(alts, s, i) != []
             && Describes(startp, endp, i, Preferred(alts, s, i))
    ensures Captures(startp, endp, alts, s)
  {
    hide AltsWays, MatchesAlts, AltsTab, LastMark, AltsNumbered, WfAlts, EncProgram;
    var w := Preferred(alts, s, i);
    IndexEnd(AltsWays(alts, s, i), 0);
    AltsMatch(alts, s, i, w.end);
    AltsProper(alts, AltsTab(alts), 0, s, i);
    assert Proper(w, AltsTab(alts), 0, s, i);
    forall k: nat | 0 < k < NSUBEXP
      ensures Delimits(startp[k], endp[k], k, AltsTab(alts), s)
              && (startp[k] != -1 ==> startp[0] <= startp[k] <= endp[k] <= endp[0])
    {
      LastWithin(w.marks, 0, i, w.end, true, k);
      LastWithin(w.marks, 0, i, w.end, false, k);
    }
  }

  lemma {:induction false} LastWithin(marks: seq<Mark>, n: nat, lo: nat, hi: nat, open: bool, no: nat)
    requires Within(marks, n, lo, hi)
    ensures var p := LastMark(marks, open, no); p == -1 || lo <= p <= hi
    decreases |marks|
  {
    if marks != [] {
      LastWithin(marks[1..], n, lo, hi, open, no);
    }
  }

  // ---------- regexec ----------

  class Executor {
    const prog: Regexp
    const m: Matcher
    ghost const alts: seq<Branch>

    constructor (prog: Regexp, str: seq<Byte>, ghost alts: seq<Branch>)
      requires Compiled(prog, alts) && 0 !in str
      ensures Valid() && this.prog == prog && this.alts == alts && m.str == str && fresh(m) && fresh(m.regstartp)
              && fresh(m.regendp)
    {
      this.prog, this.alts := prog, alts;
      m := new Matcher(prog.program, str);
    }

    ghost predicate Valid() {
      Compiled(prog, alts) && m.program == prog.program && m.Ready()
    }

    /** A match that starts at position i. */
    ghost predicate StartsAt(i: nat) {
      exists j: nat :: MatchesAlts(alts, m.str, i, j)
    }

    /** A match starts at i exactly when there is a way to match from there. */
    lemma AnyWay(i: nat)
      requires Valid() && i <= |m.str|
      ensures AltsWays(alts, m.str, i) != [] <==> StartsAt(i)
    {
      hide AltsWays, MatchesAlts;
      var ws := AltsWays(alts, m.str, i);
      if ws != [] {
        IndexEnd(ws, 0);
        AltsMatch(alts, m.str, i, ws[0].end);
      }
      if j: nat :| MatchesAlts(alts, m.str, i, j) {
        AltsMatch(alts, m.str, i, j);
      }
    }

    /** The preferred match from position i has been found. */
    ghost predicate Found(i: nat)
      reads m.regstartp, m.regendp
    {
      AltsWays(alts, m.str, i) != [] && Describes(m.regstartp[..], m.regendp[..], i, Preferred(alts, m.str, i))
    }

    /** regtry: the preferred match that starts exactly at start. */
    method RegTry(start: nat) returns (ok: bool)
      requires Valid() && start <= |m.str|
      modifies m`reginput, m.regstartp, m.regendp
      ensures ok <==> StartsAt(start)
      ensures ok ==> Found(start)
      ensures ok ==> Captures(m.regstartp[..], m.regendp[..], alts, m.str)
    {
      hide Compiled, Live, MatchesAlts, Ahead, AltsWays, LastMark, Captures;
      ghost var f := Choice(alts, Done);
      m.reginput := start;
      var i := 0;
      while i != NSUBEXP
        modifies m.regstartp, m.regendp
        invariant i <= NSUBEXP && m.Ready() && m.reginput == start
        invariant forall k | 0 <= k < i :: m.regstartp[k] == m.regendp[k] == -1
      {
        m.regstartp[i], m.regendp[i] := -1, -1;
        i := i + 1;
      }
      ProgramLive(prog, alts, m.str, start);
      ProgramAhead(alts, m.str, start);
      AnyWay(start);
      ok := m.RegMatch(1, f);
      if ok {
        m.regstartp[0], m.regendp[0] := start, m.reginput;
        PreferredCaptures(prog, alts, m.str, start, m.regstartp[..], m.regendp[..]);
      }
    }

    /** strchr: the first ch from position s on; -1 if there is none. */
    method StrChr(s: nat, ch: Byte) returns (p: int)
      requires Valid() && ch != 0 && s <= |m.str|
      ensures p == -1 || (s <= p < |m.str| && m.str[p] == ch)
      ensures forall k | s <= k < (if p == -1 then |m.str| else p) :: m.str[k] != ch
    {
      p := s;
      while Char(m.str, p) != ch
        invariant s <= p <= |m.str| && forall k | s <= k < p :: m.str[k] != ch
        decreases |m.str| - p
      {
        if Char(m.str, p) == 0 {
          return -1;
        }
        p := p + 1;
      }
    }

    /** Whether the text that must appear does. */
    method HasMust() returns (found: bool)
      requires Valid() && MustOf(alts) >= 0
      ensures found <==> exists a: nat :: OccursAt(MustText(alts), m.str, a)
    {
      hide Region, Compiled, OccursAt, MustText;
      ghost var text := MustText(alts);
      MustRegion(prog, alts);
      OccursFirst(text, m.str);
      m.TextAt(prog.regmust, text, 0);
      var ch := prog.program[prog.regmust];
      var s := StrChr(0, ch);
      while s != -1
        invariant s == -1 || (0 <= s < |m.str| && m.str[s] == ch)
        invariant forall a: nat | OccursAt(text, m.str, a) :: s != -1 && s <= a
        decreases if s == -1 then 0 else |m.str| + 1 - s
      {
        found := m.SameText(prog.regmust, s, prog.regmlen, text);
        OccursIs(text, m.str, s);
        if found {
          return;
        }
        s := StrChr(s + 1, ch);
      }
      return false;
    }

    /** The shortcuts only pass over positions at which no match starts. */
    lemma MustBe()
      requires Valid() && MustOf(alts) >= 0
      ensures forall i: nat | StartsAt(i) :: exists a: nat :: OccursAt(MustText(alts), m.str, a)
    {
      hide Compiled, OccursAt;
      forall i: nat | StartsAt(i) ensures exists a: nat :: OccursAt(MustText(alts), m.str, a) {
        var j: nat :| MatchesAlts(alts, m.str, i, j);
        var a := MustSound(alts, m.str, i, j);
      }
    }

    lemma MustAnchor()
      requires Valid() && prog.reganch
      ensures forall i: nat | StartsAt(i) :: i == 0
    {
      forall i: nat | StartsAt(i) ensures i == 0 {
        var j: nat :| MatchesAlts(alts, m.str, i, j);
        AnchorSound(alts, m.str, i, j);
      }
    }

    lemma MustStart()
      requires Valid() && prog.regstart != 0
      ensures forall i: nat | StartsAt(i) :: i < |m.str| && m.str[i] == prog.regstart
    {
      forall i: nat | StartsAt(i) ensures i < |m.str| && m.str[i] == prog.regstart {
        var j: nat :| MatchesAlts(alts, m.str, i, j);
        StartSound(alts, m.str, i, j);
      }
    }

    /** regexec: whether there is a match, and where the first one starts. */
    method RegExec() returns (ok: bool)
      requires Valid()
      modifies m`reginput, m.regstartp, m.regendp
      ensures ok <==> exists i: nat :: i <= |m.str| && StartsAt(i)
      ensures ok ==> exists i: nat :: i <= |m.str| && Found(i) && forall k: nat | k < i :: !StartsAt(k)
      ensures ok ==> Captures(m.regstartp[..], m.regendp[..], alts, m.str)
    {
      hide OccursAt, Found, Captures;
      if prog.regmust != -1 {
        var found := HasMust();
        if !found {
          MustBe();
          return false;
        }
      }
      if prog.reganch {
        MustAnchor();
        ok := RegTry(0);
        return;
      }
      if prog.regstart != 0 {
        MustStart();
        var s := StrChr(0, prog.regstart);
        while s != -1
          invariant s == -1 || 0 <= s < |m.str|
          invariant forall k: nat | StartsAt(k) :: s != -1 && s <= k
          decreases if s == -1 then 0 else |m.str| + 1 - s
        {
          ok := RegTry(s);
          if ok {
            return;
          }
          s := StrChr(s + 1, prog.regstart);
        }
      } else {
        var s := 0;
        while true
          invariant s <= |m.str| && forall k | 0 <= k < s :: !StartsAt(k)
          decreases |m.str| - s
        {
          ok := RegTry(s);
          if ok {
            return;
          }
          if Char(m.str, s) == 0 {
            break;
          }
          s := s + 1;
        }
      }
      return false;
    }
  }

  lemma MustRegion(r: Regexp, alts: seq<Branch>)
    requires Compiled(r, alts) && MustOf(alts) >= 0
    ensures var text := MustText(alts);
            r.regmust >= 0 && Region(r.program, r.regmust, text + [0])
            && r.regmlen == |text| && text != [] && 0 !in text
  {
    hide Region;
    WfAt(alts[0].pieces, MustOf(alts));
  }

  /** The outcome of regexec for an expression: whether it matches anywhere, the leftmost start, the
      preferred match there, and the places of its groups. */
  ghost predicate Finds(alts: seq<Branch>, str: seq<Byte>, found: bool, startp: seq<int>, endp: seq<int>) {
    && (found <==> exists i: nat, j: nat :: i <= |str| && MatchesAlts(alts, str, i, j))
    && (found ==>
          && Captures(startp, endp, alts, str)
          && (forall i: nat, j: nat | i < startp[0] :: !MatchesAlts(alts, str, i, j))
          && AltsWays(alts, str, startp[0]) != []
          && Describes(startp, endp, startp[0], Preferred(alts, str, startp[0])))
  }

  /** What a caller of regcomp and then regexec gets, from the way the pattern is written: accepted are
      the patterns that can be written and whose programs fit, and the match found is the preferred one
      of those that start leftmost, with the places of its groups. */
  method Search(exp: seq<Byte>, str: seq<Byte>) returns (compiled: bool, found: bool, startp: seq<int>, endp: seq<int>)
    requires 0 !in exp && 0 !in str
    ensures compiled <==> exists t :: Writes(exp, t) && Fits(AltsTree(t, 1))
    ensures compiled ==> forall t | Writes(exp, t) :: Finds(AltsTree(t, 1), str, found, startp, endp)
  {
    hide Compiled, EncProgram, Parse, AltsWays, LastMark, Delimits, Preferred, Writes, Fits, AltsTree;
    found, startp, endp := false, [], [];
    var r;
    compiled, r := RegComp(exp);
    ParseMeans(exp);
    if Parse(exp).Good? {
      FitsIs(Parse(exp).val);
    }
    if compiled {
      ghost var alts := Parse(exp).val;
      var e := new Executor(r, str, alts);
      found := e.RegExec();
      if found {
        startp, endp := e.m.regstartp[..], e.m.regendp[..];
        ghost var i: nat, j: nat := startp[0], endp[0];
        assert i <= |str| && MatchesAlts(alts, str, i, j);
      }
      forall i: nat, j: nat | MatchesAlts(alts, str, i, j) ensures e.StartsAt(i) {
      }
      assert Finds(alts, str, found, startp, endp);
    }
  }
}
