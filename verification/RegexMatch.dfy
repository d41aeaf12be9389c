/** regmatch: walks the program, consuming the string, by a loop through the nodes with one way on
    and by recursion where there is a choice. */
module RegexMatch {
  import opened Basics
  import opened RegexSyntax
  import opened RegexLang
  import opened RegexCode
  import opened RegexFrames
  import opened RegexSteps
  import opened RegexWays
  import opened RegexAhead

  class Matcher {
    const program: Code
    const str: seq<Byte>  // the C string, up to its NUL
    var reginput: int
    // where groups start and end; -1 for NULL
    const regstartp: array<int>
    const regendp: array<int>

    constructor (program: Code, str: seq<Byte>)
      requires |program| < 0x7fff && 0 !in str
      ensures Ready() && this.program == program && this.str == str && fresh(regstartp) && fresh(regendp)
    {
      this.program, this.str, this.reginput := program, str, 0;
      regstartp := new int[NSUBEXP](_ => -1);
      regendp := new int[NSUBEXP](_ => -1);
    }

    predicate Ready() {
      |program| < 0x7fff && 0 !in str && regstartp.Length == regendp.Length == NSUBEXP && regstartp != regendp
    }

    /** Control is at scan, where the frames say. */
    ghost predicate Here(scan: nat, f: Cont)
      reads this`reginput
    {
      Ready() && reginput >= 0 && Live(program, str, f, scan, reginput)
    }

    // ---------- The C library's string functions ----------

    /** strchr(text, ch) != NULL, for a text in the program. */
    method InText(p: nat, ch: Byte, ghost text: Code) returns (found: bool)
      requires Region(program, p, text + [0]) && 0 !in text && ch != 0
      ensures found <==> ch in text
    {
      hide Region;
      RegionFits(program, p, text + [0]);
      var k := 0;
      TextAt(p, text, 0);
      while program[p + k] != 0
        invariant k <= |text| && program[p + k] == (text + [0])[k] && ch !in text[..k]
        decreases |text| - k
      {
        if program[p + k] == ch {
          return true;
        }
        k := k + 1;
        TextAt(p, text, k);
      }
      assert text[..k] == text;
      return false;
    }

    lemma TextAt(p: nat, text: Code, k: nat)
      requires Region(program, p, text + [0]) && k <= |text|
      ensures p + k < |program| && program[p + k] == (text + [0])[k]
    {
      RegionAt(program, p, text + [0], k);
    }

    /** strlen(text), for a text in the program. */
    method StrLen(p: nat, ghost text: Code) returns (n: nat)
      requires Region(program, p, text + [0]) && 0 !in text
      ensures n == |text|
    {
      hide Region;
      RegionFits(program, p, text + [0]);
      n := 0;
      TextAt(p, text, 0);
      while program[p + n] != 0
        invariant n <= |text| && program[p + n] == (text + [0])[n]
        decreases |text| - n
      {
        n := n + 1;
        TextAt(p, text, n);
      }
    }

    /** strncmp(text, q, len) == 0, for a text of that length in the program. */
    method SameText(p: nat, q: nat, len: nat, ghost text: Code) returns (same: bool)
      requires Region(program, p, text + [0]) && 0 !in text && len == |text| && 0 !in str && q <= |str|
      ensures same <==> q + len <= |str| && str[q..q + len] == text
    {
      hide Region;
      var k := 0;
      while k < len
        invariant k <= len && q + k <= |str| && str[q..q + k] == text[..k]
      {
        TextAt(p, text, k);
        if program[p + k] != Char(str, q + k) {
          assert q + len <= |str| ==> str[q..q + len][k] == str[q + k];
          return false;
        }
        assert str[q..q + k + 1] == str[q..q + k] + [str[q + k]];
        assert text[..k + 1] == text[..k] + [text[k]];
        k := k + 1;
      }
      assert text[..len] == text;
      return true;
    }

    // ---------- Nodes ----------

    /** The node that the "next" pointer of p leads to; -1 if there is none. */
    method RegNext(p: nat) returns (q: int)
      requires p + 2 < |program|
      ensures q == NextOf(program, p)
    {
      var offset := (program[p + 1] as int) * 256 + program[p + 2] as int;
      if offset == 0 {
        return -1;
      }
      q := if program[p] == BACK then p - offset else p + offset;
    }

    /** A node that matches at most one way. */
    method MatchLeaf(scan: nat, ghost f: Cont) returns (ok: bool)
      requires Here(scan, f) && f.Piece? && Leaf(f.re)
      modifies this`reginput
      ensures var e := LeafEnd(f.re, str, old(reginput)); ok == (e >= 0) && (ok ==> reginput == e)
    {
      hide Live, Region, NodeAt, Steps;
      LeafSees(program, str, f, scan, reginput);
      var op := program[scan];
      if op == BOL {
        ok := reginput == 0;
      } else if op == EOL {
        ok := Char(str, reginput) == 0;
      } else if op == ANY {
        ok := Char(str, reginput) != 0;
        if ok {
          reginput := reginput + 1;
        }
      } else if op == EXACTLY {
        ok := Exactly(scan + 3, f.re.str);
      } else {
        ok := false;
        if Char(str, reginput) != 0 {
          var found := InText(scan + 3, str[reginput], f.re.chars);
          ok := found == (op == ANYOF);
          if ok {
            reginput := reginput + 1;
          }
        }
      }
    }

    /** The text of an EXACTLY node; its first character is compared first, for speed. */
    method Exactly(p: nat, ghost text: Code) returns (ok: bool)
      requires Ready() && Region(program, p, text + [0]) && text != [] && 0 !in text && 0 <= reginput <= |str|
      modifies this`reginput
      ensures var e := LeafEnd(Lit(text), str, old(reginput)); ok == (e >= 0) && (ok ==> reginput == e)
    {
      TextAt(p, text, 0);
      if program[p] != Char(str, reginput) {
        assert reginput + |text| <= |str| ==> str[reginput..reginput + |text|][0] == str[reginput];
        return false;
      }
      var len := StrLen(p, text);
      if len > 1 {
        ok := SameText(p, reginput, len, text);
        if !ok {
          return;
        }
      }
      assert len == 1 ==> str[reginput..reginput + 1] == [str[reginput]];
      reginput := reginput + len;
      return true;
    }

    /** regrepeat: how many characters in a row a simple piece matches. */
    method RegRepeat(p: nat, ghost x: Re) returns (count: nat)
      requires Ready() && IsSimple(x) && Wf(x) && 0 <= reginput <= |str|
      requires p < |program| && program[p] == Pre(x)[0] && Region(program, p + 3, Post(x))
      modifies this`reginput
      ensures count == Run(x, str, old(reginput)) && reginput == old(reginput) + count
    {
      hide Region;
      SimpleSees(program, p, x);
      count := 0;
      var scan := reginput;
      var op := program[p];
      if op == ANY {
        while Char(str, scan) != 0
          modifies {}
          invariant scan == reginput + count <= |str| && Run(x, str, reginput) == count + Run(x, str, scan)
          decreases |str| - scan
        {
          count, scan := count + 1, scan + 1;
        }
      } else if op == EXACTLY {
        TextAt(p + 3, x.str, 0);
        while program[p + 3] == Char(str, scan)
          modifies {}
          invariant scan == reginput + count <= |str| && Run(x, str, reginput) == count + Run(x, str, scan)
          decreases |str| - scan
        {
          count, scan := count + 1, scan + 1;
        }
      } else {
        while Char(str, scan) != 0
          modifies {}
          invariant scan == reginput + count <= |str| && Run(x, str, reginput) == count + Run(x, str, scan)
          decreases |str| - scan
        {
          var found := InText(p + 3, str[scan], x.chars);
          if found != (op == ANYOF) {
            break;
          }
          count, scan := count + 1, scan + 1;
        }
      }
      reginput := scan;
    }

    // ---------- The matcher ----------

    /** The first of the ways ahead is taken, and a group's mark is set to the last one passed on it,
        unless it was set before. */
    ghost predicate Takes(ws: seq<Way>, ss: seq<int>, es: seq<int>, ok: bool)
      reads this`reginput, regstartp, regendp
    {
      if ws == [] then !ok && regstartp[..] == ss && regendp[..] == es
      else
        && ok && reginput == ws[0].end
        && Recorded(regstartp[..], ss, ws[0].marks, true) && Recorded(regendp[..], es, ws[0].marks, false)
    }

    /** regmatch: from the node prog, where the frames f begin. */
    method RegMatch(prog: nat, ghost f: Cont) returns (ok: bool)
      requires Here(prog, f)
      modifies this`reginput, regstartp, regendp
      ensures Takes(Ahead(f, str, old(reginput)), old(regstartp[..]), old(regendp[..]), ok)
      decreases |str| - reginput, Size(f, reginput), 1
    {
      hide Live, Walk, Steps, Goes, Size, Ahead, NextOf, Options, Takes, Normal, LeafEnd;
      ghost var i0, ss, es := reginput, regstartp[..], regendp[..];
      var scan: nat := prog;
      ghost var g := f;
      WalkStart(program, str, f, scan, reginput);
      while true
        invariant reginput >= 0 && Walk(program, str, f, i0, g, scan, reginput)
        invariant regstartp[..] == ss && regendp[..] == es
        decreases |str| - reginput, Size(g, reginput)
      {
        WalkNormal(program, str, f, i0, g, scan, reginput);
        g := Normal(g, reginput);
        WalkLive(program, str, f, i0, g, scan, reginput);
        Dispatch(program, str, g, scan, reginput);
        ghost var i := reginput;
        var next := RegNext(scan);
        var op := program[scan];
        if op == END {
          Ends(ss, es);
          return true;
        } else if op == BRANCH {
          ghost var fs := OptionsOf(g, reginput);
          BranchOptions(program, str, g, scan, reginput);
          OnlyOption(program, str, g, scan, reginput, fs);
          if program[next] == BRANCH {
            ok := TryAll(scan, g, fs);
            return;
          }
          WalkOn(program, str, f, i0, g, scan, reginput, fs[0], scan + 3, reginput);
          scan, g := scan + 3, fs[0];
        } else if op == STAR || op == PLUS {
          RepeatOn(program, str, g, scan, reginput);
          ok := Repeat(scan, next, g);
          return;
        } else if OPEN < op < OPEN + NSUBEXP || CLOSE < op < CLOSE + NSUBEXP {
          PassOn(program, str, g, scan, reginput);
          GoesLive(program, str, g, scan, reginput, Passed(g, reginput), next, reginput);
          if op < CLOSE {
            ok := Open(next, op - OPEN, Passed(g, reginput));
          } else {
            ok := CloseGroup(next, op - CLOSE, Passed(g, reginput));
          }
          return;
        } else if op == NOTHING || op == BACK {
          PassOn(program, str, g, scan, reginput);
          PrefixedNone(Ahead(Passed(g, reginput), str, reginput));
          WalkGoes(program, str, f, i0, g, scan, reginput, Passed(g, reginput), next, reginput);
          scan, g := next, Passed(g, reginput);
        } else {
          LeafOn(program, str, g, scan, reginput);
          ok := MatchLeaf(scan, g);
          if !ok {
            Fails(ss, es);
            return;
          }
          WalkOn(program, str, f, i0, g, scan, i, g.k, next, reginput);
          scan, g := next, g.k;
        }
      }
    }

    /** The END node is reached where it is. */
    lemma Ends(ss: seq<int>, es: seq<int>)
      requires Ready() && reginput >= 0 && regstartp[..] == ss && regendp[..] == es
      ensures Takes(Ahead(Done, str, reginput), ss, es, true)
    {
    }

    lemma Fails(ss: seq<int>, es: seq<int>)
      requires regstartp[..] == ss && regendp[..] == es
      ensures Takes([], ss, es, false)
    {
    }

    /** The choice at a BRANCH node that leads to another one. */
    method TryAll(scan0: nat, ghost g: Cont, ghost fs: seq<Cont>) returns (ok: bool)
      requires Here(scan0, g) && Options(program, str, g, scan0, reginput, fs)
      modifies this`reginput, regstartp, regendp
      ensures Takes(Ahead(g, str, old(reginput)), old(regstartp[..]), old(regendp[..]), ok)
      decreases |str| - reginput, Size(g, reginput), 0
    {
      hide Options, Ahead, AllAhead, Size, Okay, BranchesAt, NextOf, Takes, At;
      ghost var i, ss, es := reginput, regstartp[..], regendp[..];
      OptionsAre(program, str, g, scan0, i, fs);
      var scan: nat := scan0;
      ghost var t := 0;
      while true
        invariant reginput == i && t < |fs| && BranchesAt(program, scan, fs[t..])
        invariant Ahead(g, str, i) == AllAhead(fs[t..], str, i)
        invariant regstartp[..] == ss && regendp[..] == es
        decreases |fs| - t
      {
        BranchIs(program, scan, fs[t..]);
        OptionIs(program, str, g, scan0, i, fs, t);
        AllFirst(fs[t..], str, i);
        var save := reginput;
        ok := RegMatch(scan + 3, fs[t]);
        if ok {
          TakesMore(Ahead(fs[t], str, i), AllAhead(fs[t + 1..], str, i), ss, es);
          return;
        }
        TakesNone(Ahead(fs[t], str, i), ss, es);
        reginput := save;
        scan := RegNext(scan);
        t := t + 1;
        BranchEnds(program, scan, fs[t..]);
        if program[scan] != BRANCH {
          AllNone(str, i);
          Fails(ss, es);
          return false;
        }
      }
    }

    /** Nothing was ahead, and nothing has changed. */
    lemma TakesNone(ws: seq<Way>, ss: seq<int>, es: seq<int>)
      requires Takes(ws, ss, es, false)
      ensures ws == [] && regstartp[..] == ss && regendp[..] == es
    {
    }

    /** What is tried first comes first. */
    lemma TakesMore(ws: seq<Way>, rest: seq<Way>, ss: seq<int>, es: seq<int>)
      requires Takes(ws, ss, es, true)
      ensures Takes(ws + rest, ss, es, true)
    {
    }

    /** A STAR or PLUS node: the longest run first, and then shorter ones, as long as what follows
        could begin there. */
    method Repeat(scan: nat, next: nat, ghost g: Cont) returns (ok: bool)
      requires Here(scan, g) && Repeating(g) && next == NextOf(program, scan)
      modifies this`reginput, regstartp, regendp
      ensures Takes(Ahead(g, str, old(reginput)), old(regstartp[..]), old(regendp[..]), ok)
      decreases |str| - reginput, Size(g, reginput), 0
    {
      hide Live, Ahead, After, Down, Size, At, Takes, Region, Post, Pre, InRun, NextOf;
      ghost var i, ss, es := reginput, regstartp[..], regendp[..];
      ghost var x := g.re.x;
      RepeatOn(program, str, g, scan, reginput);
      NodeFits(program, next, g.k);
      var nextch: Byte := 0;
      if program[next] == EXACTLY {
        LookaheadSound(program, next, g.k, str, 0);
        nextch := program[next + 3];
      }
      var min := if program[scan] == STAR then 0 else 1;
      var save := reginput;
      var no: int := RegRepeat(scan + 3, x);
      RepeatAhead(g, str, i);
      while no >= min
        invariant reginput == save + no && -1 <= no <= Run(x, str, i)
        invariant Ahead(g, str, i) == After(Down(i + min, save + no), g.k, str)
        invariant regstartp[..] == ss && regendp[..] == es
        decreases no
      {
        ghost var p: nat := save + no;
        InRunIs(g.re, str, i, p);
        DownAhead(i + min, p, g.k, str);
        if nextch == 0 || Char(str, reginput) == nextch {
          ok := RegMatch(next, g.k);
          if ok {
            TakesMore(Ahead(g.k, str, p), After(Down(i + min, p - 1), g.k, str), ss, es);
            return;
          }
          TakesNone(Ahead(g.k, str, p), ss, es);
        } else {
          LookaheadSound(program, next, g.k, str, p);
        }
        no := no - 1;
        reginput := save + no;
      }
      DownNone(i + min, save + no, g.k, str);
      Fails(ss, es);
      return false;
    }

    /** OPEN: the rest of the match first; then the group's start, unless a later turn has set it. */
    method Open(next: nat, no: nat, ghost g: Cont) returns (ok: bool)
      requires Here(next, g) && 0 < no < NSUBEXP
      modifies this`reginput, regstartp, regendp
      ensures Takes(Prefixed([Mark(true, no, old(reginput))], Ahead(g, str, old(reginput))),
                    old(regstartp[..]), old(regendp[..]), ok)
      decreases |str| - reginput, Size(g, reginput), 2
    {
      hide Ahead, LastMark, Recorded;
      ghost var i, ss, es := reginput, regstartp[..], regendp[..];
      var save := reginput;
      ok := RegMatch(next, g);
      if ok {
        ghost var marks := Ahead(g, str, i)[0].marks;
        RecordStep(regstartp[..], ss, Mark(true, no, i), marks, true);
        RecordStep(regendp[..], es, Mark(true, no, i), marks, false);
        if regstartp[no] == -1 {
          regstartp[no] := save;
        }
      }
    }

    /** CLOSE: likewise for the group's end. */
    method CloseGroup(next: nat, no: nat, ghost g: Cont) returns (ok: bool)
      requires Here(next, g) && 0 < no < NSUBEXP
      modifies this`reginput, regstartp, regendp
      ensures Takes(Prefixed([Mark(false, no, old(reginput))], Ahead(g, str, old(reginput))),
                    old(regstartp[..]), old(regendp[..]), ok)
      decreases |str| - reginput, Size(g, reginput), 2
    {
      hide Ahead, LastMark, Recorded;
      ghost var i, ss, es := reginput, regstartp[..], regendp[..];
      var save := reginput;
      ok := RegMatch(next, g);
      if ok {
        ghost var marks := Ahead(g, str, i)[0].marks;
        RecordStep(regstartp[..], ss, Mark(false, no, i), marks, true);
        RecordStep(regendp[..], es, Mark(false, no, i), marks, false);
        if regendp[no] == -1 {
          regendp[no] := save;
        }
      }
    }
  }

  /** A group that was marked keeps its mark; another one has the last that was passed, if any. */
  ghost predicate Recorded(now: seq<int>, was: seq<int>, marks: seq<Mark>, open: bool) {
    |now| == |was| && forall k | 0 <= k < |now| :: now[k] == if was[k] != -1 then was[k] else LastMark(marks, open, k)
  }

  /** One more mark in front of the others. */
  lemma RecordStep(now: seq<int>, was: seq<int>, m: Mark, marks: seq<Mark>, open: bool)
    requires Recorded(now, was, marks, open) && m.no < |now|
    ensures Recorded(if m.open == open && now[m.no] == -1 then now[m.no := m.pos] else now, was, [m] + marks, open)
  {
    assert ([m] + marks)[1..] == marks;
  }

  lemma AllFirst(fs: seq<Cont>, s: seq<Byte>, i: nat)
    requires fs != []
    ensures AllAhead(fs, s, i) == Ahead(fs[0], s, i) + AllAhead(fs[1..], s, i)
  {
    hide Ahead;
  }

  lemma AllNone(s: seq<Byte>, i: nat)
    ensures AllAhead([], s, i) == []
  {
  }

  lemma DownNone(lo: nat, hi: int, k: Cont, s: seq<Byte>)
    requires hi < lo
    ensures After(Down(lo, hi), k, s) == []
  {
  }

  lemma NodeFits(c: Code, a: nat, f: Cont)
    requires At(c, a, f)
    ensures a + 2 < |c|
  {
    AtFits(c, a, f);
  }

  lemma InRunIs(re: Re, s: seq<Byte>, i: nat, p: nat)
    requires re.Rep? && IsSimple(re.x)
    ensures InRun(re, s, i, p) <==> i + Least(re.op) <= p <= i + Run(re.x, s, i)
  {
  }

  lemma OptionsAre(c: Code, s: seq<Byte>, f: Cont, a: nat, i: nat, fs: seq<Cont>)
    requires Options(c, s, f, a, i, fs)
    ensures fs != [] && BranchesAt(c, a, fs[0..]) && Ahead(f, s, i) == AllAhead(fs[0..], s, i)
  {
    hide Ahead, AllAhead;
    assert fs[0..] == fs;
  }

  lemma OptionIs(c: Code, s: seq<Byte>, f: Cont, a: nat, i: nat, fs: seq<Cont>, t: nat)
    requires Options(c, s, f, a, i, fs) && t < |fs|
    ensures Okay(fs[t], i, false) && Size(fs[t], i) < Size(f, i)
  {
  }

  lemma BranchIs(c: Code, a: nat, fs: seq<Cont>)
    requires BranchesAt(c, a, fs) && fs != []
    ensures a + 2 < |c| && At(c, a + 3, fs[0]) && NextOf(c, a) >= 0 && BranchesAt(c, NextOf(c, a), fs[1..])
  {
  }

  lemma BranchEnds(c: Code, a: nat, fs: seq<Cont>)
    requires BranchesAt(c, a, fs)
    ensures a + 2 < |c| && (c[a] == BRANCH <==> fs != [])
  {
  }

  /** What is at a leaf's node, by kind. */
  lemma LeafSees(c: Code, s: seq<Byte>, f: Cont, a: nat, i: nat)
    requires Live(c, s, f, a, i) && f.Piece? && Leaf(f.re)
    ensures a + 2 < |c| && i <= |s| && 0 !in s && SeesLeaf(c, a, f.re)
  {
    LeafStep(c, s, f, a, i);
  }

  ghost predicate SeesLeaf(c: Code, a: nat, re: Re)
    requires Leaf(re) && a < |c|
  {
    match re
    case Bol => c[a] == BOL
    case Eol => c[a] == EOL
    case Any => c[a] == ANY
    case Class(neg, chars) => c[a] == (if neg then ANYBUT else ANYOF) && Region(c, a + 3, chars + [0]) && 0 !in chars
    case Lit(str) => c[a] == EXACTLY && Region(c, a + 3, str + [0]) && str != [] && 0 !in str
  }

  lemma SimpleSees(c: Code, a: nat, x: Re)
    requires IsSimple(x) && Wf(x) && a < |c| && c[a] == Pre(x)[0] && Region(c, a + 3, Post(x))
    ensures SeesLeaf(c, a, x)
  {
  }
}
