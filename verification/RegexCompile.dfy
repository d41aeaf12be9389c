/** regcomp: one recursive-descent parser run twice, first counting bytes, then emitting nodes
    into the program array and patching their "next" pointers. */
module RegexCompile {
  import opened Basics
  import opened RegexSyntax
  import opened RegexCode
  import opened RegexPatch

  const MAGIC: Byte := 156  // 0234

  /** The flags that the parts of the parser pass up. */
  datatype Flags = Flags(hasWidth: bool, simple: bool, spStart: bool)

  function FlagsOf(re: Re): Flags {
    Flags(HasWidth(re), IsSimple(re), SpStart(re))
  }

  function BranchFlags(b: Branch): Flags {
    Flags(PiecesHaveWidth(b.pieces), false, b.pieces != [] && SpStart(b.pieces[0]))
  }

  function AltsFlags(alts: seq<Branch>): Flags {
    Flags(AltsHaveWidth(alts), false, AltsSpStart(alts))
  }

  class Compiler {
    const exp: seq<Byte>
    var regparse: nat
    var regnpar: nat
    var regsize: nat
    // regcode != &regdummy: the second pass
    var emitting: bool
    var program: array<Byte>
    var regcode: nat
    // what the second pass has emitted so far
    ghost var code: Code

    /** Ready for the first pass. */
    constructor (exp: seq<Byte>)
      requires 0 !in exp
      ensures Valid() && this.exp == exp && !emitting && regparse == regsize == 0 && regnpar == 1
      ensures fresh(program)
    {
      this.exp := exp;
      regparse, regnpar, regsize, regcode, emitting, code := 0, 1, 0, 0, false, [];
      program := new Byte[0];
    }

    /** The state of either pass: the pattern is a C string, and the program is small. */
    ghost predicate Valid()
      reads this`emitting, this`program, this`regcode, this`code, program
    {
      && 0 !in exp
      && (emitting ==> regcode <= program.Length < 0x8000 && code == program[..regcode])
    }

    /** There is room for n more bytes, or none is needed because bytes are only counted. */
    ghost predicate Room(n: nat)
      reads this
    {
      emitting ==> |code| + n <= program.Length
    }

    /** n bytes were counted, or seg was emitted after what was there. */
    twostate predicate Added(seg: Code)
      reads this
    {
      if emitting then code == old(code) + seg && regsize == old(regsize)
      else regsize == old(regsize) + |seg| && code == old(code)
    }

    lemma CodeFits()
      requires Valid() && emitting
      ensures |code| == regcode <= program.Length < 0x8000
    {
    }

    lemma NoNul()
      requires Valid()
      ensures 0 !in exp
    {
    }

    method RegNode(op: Byte) returns (ret: nat)
      requires Valid() && Room(3)
      modifies this`regsize, this`regcode, this`code, program
      ensures Valid()
      ensures emitting ==> code == Then(old(code), op) && regsize == old(regsize) && ret == |old(code)|
      ensures !emitting ==> regsize == old(regsize) + 3 && code == old(code)
    {
      ret := regcode;
      if !emitting {
        regsize := regsize + 3;
        return;
      }
      program[regcode] := op;
      program[regcode + 1] := 0;
      program[regcode + 2] := 0;
      regcode := regcode + 3;
      code := Then(code, op);
      assert code == program[..regcode];
    }

    method RegC(b: Byte)
      requires Valid() && Room(1)
      modifies this`regsize, this`regcode, this`code, program
      ensures Valid() && Added([b])
    {
      if !emitting {
        regsize := regsize + 1;
        return;
      }
      program[regcode] := b;
      regcode := regcode + 1;
      code := code + [b];
      assert code == program[..regcode];
    }

    /** Inserts a node in front of the operand at opnd, which moves up by three bytes. */
    method RegInsert(op: Byte, opnd: nat)
      requires Valid() && Room(3) && (emitting ==> opnd <= |code|)
      modifies this`regsize, this`regcode, this`code, program
      ensures Valid()
      ensures !emitting ==> regsize == old(regsize) + 3 && code == old(code)
      ensures emitting ==> code == Inserted(old(code), op, opnd) && regsize == old(regsize)
    {
      if !emitting {
        regsize := regsize + 3;
        return;
      }
      var src := regcode;
      regcode := regcode + 3;
      var dst := regcode;
      while src > opnd
        modifies program
        invariant opnd <= src <= |code| && dst == src + 3
        invariant forall k | 0 <= k < src :: program[k] == code[k]
        invariant forall k | dst <= k < regcode :: program[k] == code[k - 3]
      {
        dst := dst - 1;
        src := src - 1;
        program[dst] := program[src];
      }
      program[opnd] := op;
      program[opnd + 1] := 0;
      program[opnd + 2] := 0;
      InsertedIs(code, op, opnd, program[..regcode]);
      code := Inserted(code, op, opnd);
    }

    /** The node that the "next" pointer of p leads to; -1 if there is none. */
    method RegNext(p: nat) returns (q: int)
      requires Valid() && (emitting ==> p + 2 < |code|)
      ensures q == if !emitting || NextOff(code, p) == 0 then -1
                   else if code[p] == BACK then p - NextOff(code, p) else p + NextOff(code, p)
    {
      if !emitting {
        return -1;
      }
      var offset := (program[p + 1] as int) * 256 + program[p + 2] as int;
      if offset == 0 {
        return -1;
      }
      q := if program[p] == BACK then p - offset else p + offset;
    }

    /** The chain from p ends at t, and its last node can be made to lead to val. */
    ghost predicate EndsAt(p: nat, t: nat, val: nat)
      reads this
    {
      emitting ==> TailOf(code, p) == t && t + 2 < |code| && if code[t] == BACK then val <= t else t <= val
    }

    /** The walk to the last node of the chain from p. */
    method LastOf(p: nat, ghost t: nat) returns (scan: nat)
      requires Valid() && emitting && TailOf(code, p) == t && t + 2 < |code|
      ensures scan == t
    {
      scan := p;
      while true
        invariant scan + 2 < |code| && TailOf(code, scan) == t
        decreases |code| - scan
      {
        var temp := RegNext(scan);
        if temp == -1 {
          break;
        }
        scan := temp;
      }
    }

    /** Makes the chain that starts at p, and ends at t, end at val. */
    method RegTail(p: nat, val: nat, ghost t: nat)
      requires Valid() && EndsAt(p, t, val)
      modifies program, this`code
      ensures Valid()
      ensures code == if !emitting then old(code)
                      else SetOff(old(code), t, if old(code[t]) == BACK then t - val else val - t)
    {
      hide TailOf, NextOff;
      if !emitting {
        return;
      }
      var scan := LastOf(p, t);
      var offset := if program[scan] == BACK then scan - val else val - scan;
      program[scan + 1] := (offset / 256) % 256;
      program[scan + 2] := offset % 256;
      code := SetOff(code, scan, offset);
      assert code == program[..regcode];
    }

    /** regtail on the operand of a BRANCH node; nothing for any other node. */
    method RegOptail(p: nat, val: nat, ghost t: nat)
      requires Valid() && (emitting ==> p < |code|)
      requires emitting && code[p] == BRANCH ==> EndsAt(p + 3, t, val)
      modifies program, this`code
      ensures Valid()
      ensures code == if !emitting || old(code)[p] != BRANCH then old(code)
                      else SetOff(old(code), t, if old(code[t]) == BACK then t - val else val - t)
    {
      if !emitting || program[p] != BRANCH {
        return;
      }
      assert code[p] == program[p];
      RegTail(p + 3, val, t);
    }

    // ---------- regpiece: the loops that *, + and ? stand for ----------

    /** x? as (x|). */
    method RegOpt(ghost c0: Code, ghost x: Re, ret: nat)
      requires Valid() && Wf(x) && Room(9)
      requires emitting ==> code == c0 + Enc(x, Dangling) && ret == |c0|
      modifies this`regsize, this`regcode, this`code, program
      ensures Valid()
      ensures emitting ==> code == c0 + Enc(Rep(Opt, x), Dangling) && regsize == old(regsize)
      ensures !emitting ==> regsize == old(regsize) + 9 && code == old(code)
    {
      hide Valid, TailOf, NextOff, SetOff, Off, Enc, LastNode, Node, Len, Then, Pre, Post, Wf, Inserted;
      EncLen(x, Dangling);
      if emitting {
        CodeFits();
        OptSteps(c0, x);
      }
      ghost var a, e := |c0|, Len(x);
      RegInsert(BRANCH, ret);
      var branch := RegNode(BRANCH);
      RegTail(ret, branch, a);
      var next := RegNode(NOTHING);
      RegTail(ret, next, a + 3 + e);
      RegOptail(ret, next, a + 3 + LastNode(x));
    }

    /** x* as (x&|), where & leads back to the start. */
    method RegStar(ghost c0: Code, ghost x: Re, ret: nat)
      requires Valid() && Wf(x) && !IsSimple(x) && Room(12)
      requires emitting ==> code == c0 + Enc(x, Dangling) && ret == |c0|
      modifies this`regsize, this`regcode, this`code, program
      ensures Valid()
      ensures emitting ==> code == c0 + Enc(Rep(Star, x), Dangling) && regsize == old(regsize)
      ensures !emitting ==> regsize == old(regsize) + 12 && code == old(code)
    {
      hide Valid, TailOf, NextOff, SetOff, Off, Enc, LastNode, Node, Len, Then, Pre, Post, Wf, Inserted;
      EncLen(x, Dangling);
      if emitting {
        CodeFits();
        StarSteps(c0, x);
      }
      ghost var a, e := |c0|, Len(x);
      RegInsert(BRANCH, ret);
      var back := RegNode(BACK);
      RegOptail(ret, back, a + 3 + LastNode(x));
      RegOptail(ret, ret, a + 3 + e);
      var branch := RegNode(BRANCH);
      RegTail(ret, branch, a);
      var nothing := RegNode(NOTHING);
      RegTail(ret, nothing, a + 6 + e);
    }

    /** x+ as x(&|), where & leads back to the start. */
    method RegPlus(ghost c0: Code, ghost x: Re, ret: nat)
      requires Valid() && Wf(x) && !IsSimple(x) && Room(12)
      requires emitting ==> code == c0 + Enc(x, Dangling) && ret == |c0|
      modifies this`regsize, this`regcode, this`code, program
      ensures Valid()
      ensures emitting ==> code == c0 + Enc(Rep(Plus, x), Dangling) && regsize == old(regsize)
      ensures !emitting ==> regsize == old(regsize) + 12 && code == old(code)
    {
      hide Valid, TailOf, NextOff, SetOff, Off, Enc, LastNode, Node, Len, Then, Pre, Post, Wf;
      EncLen(x, Dangling);
      if emitting {
        CodeFits();
        PlusSteps(c0, x);
      }
      ghost var a, e := |c0|, Len(x);
      var next := RegNode(BRANCH);
      RegTail(ret, next, a + LastNode(x));
      var back := RegNode(BACK);
      RegTail(back, ret, a + e + 3);
      var branch := RegNode(BRANCH);
      RegTail(next, branch, a + e);
      var nothing := RegNode(NOTHING);
      RegTail(ret, nothing, a + e + 6);
    }

    // ---------- The parser ----------

    /** The number of characters from s1 on that are not in META. */
    method StrCspn(s1: nat) returns (count: nat)
      requires 0 !in exp && s1 <= |exp|
      ensures count == RunLength(exp, s1)
    {
      count := 0;
      var scan1 := s1;
      while Char(exp, scan1) != 0
        invariant s1 <= scan1 <= |exp| && RunLength(exp, s1) == count + RunLength(exp, scan1)
        decreases |exp| - scan1
      {
        var scan2 := 0;
        while scan2 < |META|
          invariant scan2 <= |META| && exp[scan1] !in META[..scan2]
        {
          if exp[scan1] == META[scan2] {
            return;
          }
          scan2 := scan2 + 1;
        }
        assert META[..scan2] == META;
        scan1 := scan1 + 1;
        count := count + 1;
      }
    }

    /** The characters of a range after its first one. */
    method RegRange(lo: Byte, hi: Byte)
      requires Valid() && Room(|RangeAfter(lo, hi)|)
      modifies this`regsize, this`regcode, this`code, program
      ensures Valid() && Added(RangeAfter(lo, hi))
    {
      var class_: int := lo as int + 1;
      ghost var r := RangeAfter(lo, hi);
      while class_ <= hi as int
        invariant Valid() && lo < class_ && (class_ <= hi + 1 || class_ == lo as int + 1)
        invariant class_ - lo - 1 <= |r| && Added(r[..class_ - lo - 1])
      {
        ghost var k := class_ - lo - 1;
        RegC(class_);
        assert r[..k + 1] == r[..k] + [r[k]];
        ConcatAssoc(old(code), r[..k], [r[k]]);
        class_ := class_ + 1;
      }
      assert r[..|r|] == r;
    }

    /** A dash in a bracket expression: itself at the end, and else a range. */
    method RegDash(ghost acc: seq<Byte>) returns (ok: bool, ghost more: seq<Byte>)
      requires Valid() && 0 < regparse < |exp| && exp[regparse] == DASH
      requires var r := ParseClass(exp, regparse, acc); emitting ==> r.Good? && Room(|r.val| - |acc|)
      modifies this`regparse, this`regsize, this`regcode, this`code, program
      ensures Valid()
      ensures var r := ParseClass(exp, old(regparse), acc);
              if ok then old(regparse) < regparse <= |exp| && r == ParseClass(exp, regparse, acc + more)
                && Added(more) else r.Bad?
    {
      hide Valid, RangeAfter;
      NoNul();
      regparse := regparse + 1;
      if Char(exp, regparse) == RBRACKET || Char(exp, regparse) == 0 {
        RegC(DASH);
        return true, [DASH];
      }
      var lo, classend := exp[regparse - 2], exp[regparse];
      if lo > classend {
        return false, [];
      }
      RegRange(lo, classend);
      regparse := regparse + 1;
      return true, RangeAfter(lo, classend);
    }

    /** The characters of a bracket expression, from after its opening to its closing bracket. */
    method RegBrackets() returns (ok: bool)
      requires Valid() && 0 < regparse <= |exp|
      requires var r := ParseBrackets(exp, regparse); emitting ==> r.Good? && Room(|r.val| + 1)
      modifies this`regparse, this`regsize, this`regcode, this`code, program
      ensures Valid()
      ensures var r := ParseBrackets(exp, old(regparse));
              ok == r.Good? && (ok ==> regparse == r.pos && Added(r.val + [0]))
    {
      hide Valid, RangeAfter;
      NoNul();
      ghost var r := ParseBrackets(exp, regparse);
      ghost var acc: seq<Byte> := [];
      if Char(exp, regparse) == RBRACKET || Char(exp, regparse) == DASH {
        RegC(exp[regparse]);
        acc := [exp[regparse]];
        regparse := regparse + 1;
      }
      while Char(exp, regparse) != 0 && Char(exp, regparse) != RBRACKET
        invariant Valid() && 0 < regparse <= |exp|
        invariant r == ParseClass(exp, regparse, acc) && Added(acc)
        decreases |exp| - regparse
      {
        if Char(exp, regparse) == DASH {
          ghost var more;
          ok, more := RegDash(acc);
          if !ok {
            return;
          }
          ConcatAssoc(old(code), acc, more);
          acc := acc + more;
        } else {
          RegC(exp[regparse]);
          ConcatAssoc(old(code), acc, [exp[regparse]]);
          acc := acc + [exp[regparse]];
          regparse := regparse + 1;
        }
      }
      RegC(0);
      ConcatAssoc(old(code), acc, [0]);
      if Char(exp, regparse) != RBRACKET {
        return false;
      }
      regparse := regparse + 1;
      return true;
    }

    /** What has been read and emitted for an atom without parentheses. */
    twostate predicate LeafDone(re: Re, pos: nat, ret: nat, flags: Flags)
      reads this
    {
      && regparse == pos && regnpar == old(regnpar) && flags == FlagsOf(re)
      && Added(Enc(re, Dangling)) && (emitting ==> ret == |old(code)|)
    }

    /** A node without operand. */
    method RegLeaf(ghost re: Re, op: Byte) returns (ret: nat)
      requires Valid() && Leaf(re) && Pre(re)[0] == op && Post(re) == [] && Room(Len(re))
      modifies this`regsize, this`regcode, this`code, program
      ensures Valid() && Added(Enc(re, Dangling)) && (emitting ==> ret == |old(code)|)
    {
      LeafShape(code, re);
      EncLen(re, Dangling);
      ret := RegNode(op);
      assert Then(old(code), op) + [] == Then(old(code), op);
    }

    /** A node with a bracket expression for operand. */
    method RegClass() returns (ok: bool, ret: nat)
      requires Valid() && 0 < regparse <= |exp| && exp[regparse - 1] == LBRACKET && regnpar >= 1
      requires var r := ParseAtom(exp, regparse - 1, regnpar); emitting ==> r.Good? && Room(Len(r.val))
      modifies this`regparse, this`regsize, this`regcode, this`code, program
      ensures Valid()
      ensures var r := ParseAtom(exp, old(regparse) - 1, regnpar);
              ok == r.Good? && (ok ==> LeafDone(r.val, r.pos, ret, Flags(true, true, false)))
    {
      hide Enc, Pre, Post;
      var neg := Char(exp, regparse) == CARET;
      ghost var j := if neg then regparse + 1 else regparse;
      ghost var b := ParseBrackets(exp, j);
      ghost var re := Class(neg, if b.Good? then b.val else []);
      ClassIs(re);
      LeafShape(code, re);
      EncLen(re, Dangling);
      if neg {
        ret := RegNode(ANYBUT);
        regparse := regparse + 1;
      } else {
        ret := RegNode(ANYOF);
      }
      ok := RegBrackets();
    }

    /** A backslashed character. */
    method RegEscape() returns (ok: bool, ret: nat)
      requires Valid() && 0 < regparse <= |exp| && exp[regparse - 1] == BACKSLASH && regnpar >= 1
      requires var r := ParseAtom(exp, regparse - 1, regnpar); emitting ==> r.Good? && Room(Len(r.val))
      modifies this`regparse, this`regsize, this`regcode, this`code, program
      ensures Valid()
      ensures var r := ParseAtom(exp, old(regparse) - 1, regnpar);
              ok == r.Good? && (ok ==> LeafDone(r.val, r.pos, ret, Flags(true, true, false)))
    {
      hide Enc, Pre, Post;
      if Char(exp, regparse) == 0 {
        return false, 0;
      }
      ghost var re := Lit([exp[regparse]]);
      LitIs(re);
      LeafShape(code, re);
      EncLen(re, Dangling);
      ret := RegNode(EXACTLY);
      RegC(exp[regparse]);
      regparse := regparse + 1;
      RegC(0);
      ConcatAssoc(Then(old(code), EXACTLY), re.str, [0]);
      ok := true;
    }

    /** The next n characters, and a NUL. */
    method RegCopy(n: nat)
      requires Valid() && regparse + n <= |exp| && Room(n + 1)
      modifies this`regparse, this`regsize, this`regcode, this`code, program
      ensures Valid() && regparse == old(regparse) + n && Added(exp[old(regparse)..regparse] + [0])
    {
      ghost var start := regparse;
      var len := n;
      while len > 0
        invariant Valid() && 0 <= len <= n && regparse == start + n - len
        invariant Added(exp[start..regparse])
      {
        ghost var p := regparse;
        RegC(exp[regparse]);
        regparse := regparse + 1;
        assert exp[start..p + 1] == exp[start..p] + [exp[p]];
        ConcatAssoc(old(code), exp[start..p], [exp[p]]);
        len := len - 1;
      }
      RegC(0);
      ConcatAssoc(old(code), exp[start..start + n], [0]);
    }

    /** A run of ordinary characters, short of one that an operator applies to. */
    method RegRun() returns (ret: nat, flags: Flags)
      requires Valid() && regparse < |exp| && !IsMeta(exp[regparse]) && regnpar >= 1
      requires var r := ParseAtom(exp, regparse, regnpar); r.Good? && (emitting ==> Room(Len(r.val)))
      modifies this`regparse, this`regsize, this`regcode, this`code, program
      ensures Valid()
      ensures var r := ParseAtom(exp, old(regparse), regnpar); LeafDone(r.val, r.pos, ret, flags)
    {
      hide Enc, Pre, Post, ParseAtom, IsMeta;
      RunIs(exp, regparse, regnpar);
      ghost var re := ParseAtom(exp, regparse, regnpar).val;
      var len := StrCspn(regparse);
      var ender := Char(exp, regparse + len);
      if len > 1 && IsMult(ender) {
        len := len - 1;
      }
      flags := Flags(true, len == 1, false);
      LitIs(re);
      LeafShape(code, re);
      EncLen(re, Dangling);
      ret := RegNode(EXACTLY);
      RegCopy(len);
      ConcatAssoc(Then(old(code), EXACTLY), re.str, [0]);
    }

    /** The opcodes of the anchors and of the dot, which have no operand. */
    lemma BareNodes()
      ensures Pre(Bol)[0] == BOL && Pre(Eol)[0] == EOL && Pre(Any)[0] == ANY
      ensures Post(Bol) == Post(Eol) == Post(Any) == []
    {
    }

    /** regatom: the lowest level. */
    method RegAtom() returns (ok: bool, ret: nat, flags: Flags)
      requires Valid() && regparse <= |exp| && regnpar >= 1
      requires var r := ParseAtom(exp, regparse, regnpar); emitting ==> r.Good? && Room(Len(r.val))
      modifies this`regparse, this`regnpar, this`regsize, this`regcode, this`code, program
      ensures Valid()
      ensures var r := ParseAtom(exp, old(regparse), old(regnpar));
              ok == r.Good? && (ok ==> regparse == r.pos && regnpar == r.npar && flags == FlagsOf(r.val)
                                       && Added(Enc(r.val, Dangling)) && (emitting ==> ret == |old(code)|))
      decreases |exp| - regparse, 0
    {
      hide Valid, Enc, Len, Wf, WfAlts, ParseBrackets, ParseAlts, ParseClass, RunLength, Pre, Post, IsMeta;
      NoNul();
      BareNodes();
      ghost var r := ParseAtom(exp, regparse, regnpar);
      if r.Good? {
        EncLen(r.val, Dangling);
      }
      ok, ret, flags := true, 0, Flags(false, false, false);
      var c := Char(exp, regparse);
      if c == CARET {
        regparse := regparse + 1;
        ret := RegLeaf(Bol, BOL);
      } else if c == DOLLAR {
        regparse := regparse + 1;
        ret := RegLeaf(Eol, EOL);
      } else if c == DOT {
        regparse := regparse + 1;
        ret := RegLeaf(Any, ANY);
        flags := Flags(true, true, false);
      } else if c == LBRACKET {
        regparse := regparse + 1;
        ok, ret := RegClass();
        flags := Flags(true, true, false);
      } else if c == LPAREN {
        regparse := regparse + 1;
        ok, ret, flags := Reg(true);
      } else if c == 0 || c == BAR || c == RPAREN || IsMult(c) {
        ok := false;
      } else if c == BACKSLASH {
        regparse := regparse + 1;
        ok, ret := RegEscape();
        flags := Flags(true, true, false);
      } else {
        ret, flags := RegRun();
      }
    }

    /** regpiece: an atom and the operator that may follow it. */
    method RegPiece() returns (ok: bool, ret: nat, flags: Flags)
      requires Valid() && regparse <= |exp| && regnpar >= 1
      requires var r := ParsePiece(exp, regparse, regnpar); emitting ==> r.Good? && Room(Len(r.val))
      modifies this`regparse, this`regnpar, this`regsize, this`regcode, this`code, program
      ensures Valid()
      ensures var r := ParsePiece(exp, old(regparse), old(regnpar));
              ok == r.Good? && (ok ==> regparse == r.pos && regnpar == r.npar && flags == FlagsOf(r.val)
                                       && Added(Enc(r.val, Dangling)) && (emitting ==> ret == |old(code)|))
      decreases |exp| - regparse, 1
    {
      hide Valid, ParseAtom, Enc, Len, Wf, Pre, Post;
      NoNul();
      ghost var c0 := code;
      AtomWf(exp, regparse, regnpar);
      ghost var a := ParseAtom(exp, regparse, regnpar);
      if a.Good? {
        EncLen(a.val, Dangling);
        RepLen(RepOf(Char(exp, a.pos)), a.val);
      }
      ok, ret, flags := RegAtom();
      if !ok {
        return;
      }
      var op := Char(exp, regparse);
      if !IsMult(op) {
        return;
      }
      if !flags.hasWidth && op != QUESTION {
        return false, ret, flags;
      }
      ghost var rep := Rep(RepOf(op), a.val);
      EncLen(rep, Dangling);
      if op == ASTERISK && flags.simple {
        RegSimple(c0, a.val, Star, STAR, ret);
      } else if op == ASTERISK {
        RegStar(c0, a.val, ret);
      } else if op == PLUS_SIGN && flags.simple {
        RegSimple(c0, a.val, Plus, PLUS, ret);
      } else if op == PLUS_SIGN {
        RegPlus(c0, a.val, ret);
      } else {
        RegOpt(c0, a.val, ret);
      }
      flags := if op != PLUS_SIGN then Flags(false, false, true) else Flags(true, false, false);
      regparse := regparse + 1;
      if IsMult(Char(exp, regparse)) {
        ok := false;
      }
    }

    /** x* and x+ for a simple x. */
    method RegSimple(ghost c0: Code, ghost x: Re, ghost rep: RepOp, op: Byte, ret: nat)
      requires Valid() && IsSimple(x) && rep != Opt && op == (if rep == Star then STAR else PLUS) && Room(3)
      requires emitting ==> code == c0 + Enc(x, Dangling) && ret == |c0|
      modifies this`regsize, this`regcode, this`code, program
      ensures Valid()
      ensures emitting ==> code == c0 + Enc(Rep(rep, x), Dangling) && regsize == old(regsize)
      ensures !emitting ==> regsize == old(regsize) + 3 && code == old(code)
    {
      hide Enc, Node;
      InsertMid(c0, Enc(x, Dangling), op);
      SimpleShape(c0, rep, x);
      RegInsert(op, ret);
    }

    /** regbranch: pieces one after the other, strung together. */
    method RegBranch() returns (ok: bool, ret: nat, flags: Flags)
      requires Valid() && regparse <= |exp| && regnpar >= 1
      requires var r := ParseBranch(exp, regparse, regnpar); emitting ==> r.Good? && Room(3 + BodyLen(r.val))
      modifies this`regparse, this`regnpar, this`regsize, this`regcode, this`code, program
      ensures Valid()
      ensures var r := ParseBranch(exp, old(regparse), old(regnpar));
              ok == r.Good? && (ok ==> regparse == r.pos && regnpar == r.npar >= 1 && flags == BranchFlags(r.val)
                                       && WfPieces(r.val.pieces)
                                       && Added(BranchOpen(r.val)) && (emitting ==> ret == |old(code)|))
      decreases |exp| - regparse, 2
    {
      hide ParsePiece, ParseBranch, Enc, Len, Wf, WfPieces, Loose, BranchOpen, Node, Then, SetOff, TailOf, NextOff,
        LastNode, Pre, Post, PiecesLen, PiecesRest, BranchFlags, Valid;
      ghost var whole := ParseBranch(exp, regparse, regnpar);
      ghost var ps: seq<Re> := [];
      ghost var x := Then(code, BRANCH);
      BranchStart(exp, regparse, regnpar, x);
      flags := Flags(false, false, false);
      ret := RegNode(BRANCH);
      var chain: int := -1;
      while !EndsBranch(Char(exp, regparse))
        invariant Valid() && old(regparse) <= regparse <= |exp| && regnpar >= 1
        invariant PiecesRest(exp, ps, regparse, regnpar) == whole
        invariant WfPieces(ps) && flags == BranchFlags(Branch(ps)) && chain >= -1 && (chain == -1 <==> ps == [])
        invariant emitting ==> code == x + Loose(ps) && regsize == old(regsize)
        invariant !emitting ==> code == old(code) && regsize == old(regsize) + 3 + PiecesLen(ps)
        invariant emitting && ps != [] ==> chain == |x| + PiecesLen(ps[..|ps| - 1])
        decreases |exp| - regparse
      {
        PiecesStep(exp, ps, regparse, regnpar);
        NoNul();
        PieceWf(exp, regparse, regnpar);
        ghost var p := ParsePiece(exp, regparse, regnpar);
        if p.Good? {
          PieceFacts(ps, p.val);
          PiecesRoom(exp, ps + [p.val], p.pos, p.npar);
        }
        var latest, f;
        ok, latest, f := RegPiece();
        if !ok {
          return;
        }
        flags := flags.(hasWidth := flags.hasWidth || f.hasWidth);
        if chain == -1 {
          flags := flags.(spStart := f.spStart);
          assert emitting ==> code == x + Loose(ps + [p.val]) by {
            FirstLoose(x, p.val);
          }
        } else {
          if emitting {
            CodeFits();
            StringOn(x, ps, p.val);
          }
          RegTail(chain, latest, |x| + PiecesLen(ps[..|ps| - 1]) + LastNode(Last(ps)));
        }
        chain := latest;
        ps := ps + [p.val];
      }
      PiecesStep(exp, ps, regparse, regnpar);
      BranchShape(old(code), ps);
      if chain == -1 {
        var _ := RegNode(NOTHING);
      }
      ok := true;
    }

    /** reg: the alternatives of a group, or of the whole pattern. */
    method Reg(paren: bool) returns (ok: bool, ret: nat, flags: Flags)
      requires Valid() && regparse <= |exp| && regnpar >= 1
      requires var r := ParseReg(exp, regparse, regnpar, paren);
               emitting ==> r.Good? && Room(|RegSeg(paren, regnpar, r.val)|)
      modifies this`regparse, this`regnpar, this`regsize, this`regcode, this`code, program
      ensures Valid()
      ensures var r := ParseReg(exp, old(regparse), old(regnpar), paren);
              ok == r.Good? && (ok ==> regparse == r.pos && regnpar == r.npar && flags == AltsFlags(r.val)
                                       && Added(RegSeg(paren, old(regnpar), r.val))
                                       && (emitting ==> ret == |old(code)|))
      decreases |exp| - regparse, 4
    {
      hide Valid, ParseAlts, RegSeg, Opening, Node, AltsFlags, MixAlts, Linked, AltsLen, Wf, WfAlts, TailOf,
           NextOff, SetOff;
      ghost var c0 := code;
      ret := 0;
      flags := Flags(true, false, false);
      if paren && regnpar >= NSUBEXP {
        return false, ret, flags;
      }
      var parno := regnpar;
      ghost var r := ParseAlts(exp, regparse, if paren then regnpar + 1 else regnpar);
      if r.Good? {
        RegShape(c0, paren, parno, r.val);
        LinkedLen(r.val);
      }
      if paren {
        regnpar := regnpar + 1;
        ret := RegNode((OPEN + parno) % 256);
      }
      ok, ret, flags := RegBranches(paren, parno, ret, c0);
      if !ok {
        return;
      }
      RegEnds(paren, parno, ret, c0, r.val);
      if paren {
        if Char(exp, regparse) != RPAREN {
          return false, ret, flags;
        }
        regparse := regparse + 1;
      } else if Char(exp, regparse) != 0 {
        return false, ret, flags;
      }
    }

    /** Adds the closing node and hooks the alternatives to it. */
    method RegEnds(paren: bool, parno: nat, ret: nat, ghost c0: Code, ghost alts: seq<Branch>)
      requires Valid() && alts != [] && WfAlts(alts) && (paren ==> parno < NSUBEXP) && Room(3)
      requires emitting ==> ret == |c0| && code == c0 + Opening(paren, parno) + Linked(alts)
      modifies this`regsize, this`regcode, this`code, program
      ensures Valid()
      ensures emitting ==> code == c0 + RegSeg(paren, parno, alts) && regsize == old(regsize)
      ensures !emitting ==> regsize == old(regsize) + 3 && code == old(code)
    {
      hide Valid, RegSeg, Opening, Node, MixAlts, Linked, AltsLen, Wf, WfAlts, TailOf, NextOff, SetOff;
      RegShape(c0, paren, parno, alts);
      LinkedLen(alts);
      ghost var x := c0 + Opening(paren, parno);
      var ender := RegNode(if paren then (CLOSE + parno) % 256 else END);
      if emitting {
        CodeFits();
        EndOn(c0, paren, parno, alts, Node(Ender(paren, parno), 0));
      }
      RegTail(ret, ender, |x| + AltsLen(alts[..|alts| - 1]));
      RegTies(paren, parno, ret, ender, c0, alts);
    }

    /** Picks up the alternatives, linking them together. */
    method RegBranches(paren: bool, parno: nat, ret0: nat, ghost c0: Code) returns (ok: bool, ret: nat, flags: Flags)
      requires Valid() && regparse <= |exp| && regnpar >= 1 && (paren ==> parno < NSUBEXP)
      requires emitting ==> (paren ==> ret0 == |c0|) && code == if paren then Then(c0, (OPEN + parno) % 256) else c0
      requires var r := ParseAlts(exp, regparse, regnpar); emitting ==> r.Good? && Room(AltsLen(r.val))
      modifies this`regparse, this`regnpar, this`regsize, this`regcode, this`code, program
      ensures Valid()
      ensures var r := ParseAlts(exp, old(regparse), old(regnpar));
              && ok == r.Good?
              && (ok ==> regparse == r.pos && regnpar == r.npar && flags == AltsFlags(r.val) && WfAlts(r.val))
      ensures ok && emitting ==>
                var alts := ParseAlts(exp, old(regparse), old(regnpar)).val;
                code == c0 + Opening(paren, parno) + Linked(alts) && regsize == old(regsize) && ret == |c0|
      ensures ok && !emitting ==>
                code == old(code) && regsize == old(regsize) + AltsLen(ParseAlts(exp, old(regparse), old(regnpar)).val)
      decreases |exp| - regparse, 3
    {
      hide Valid, ParseAlts, ParseBranch, Opening, Node, Then, AltsFlags, BranchFlags, MixAlts, Linked, AltsLen,
           AltsRest, BranchOpen, BodyLen,
        Wf, WfAlts, WfPieces, TailOf, NextOff, SetOff;
      ghost var x := c0 + Opening(paren, parno);
      ghost var whole := ParseAlts(exp, regparse, regnpar);
      AltsStart(exp, regparse, regnpar);
      ghost var b := ParseBranch(exp, regparse, regnpar);
      if b.Good? {
        AltsRoom(exp, [b.val], b.pos, b.npar);
        FirstAlt(c0, paren, parno, b.val);
      }
      ok, ret, flags := RegBranch();
      if !ok {
        return;
      }
      if paren {
        RegTail(ret0, ret, |c0|);
        ret := ret0;
      }
      ghost var done := [b.val];
      while Char(exp, regparse) == BAR
        invariant Valid() && ok && old(regparse) <= regparse <= |exp| && regnpar >= 1
        invariant whole == AltsRest(exp, done, regparse, regnpar)
        invariant done != [] && WfAlts(done) && flags == AltsFlags(done)
        invariant emitting ==> code == x + Linked(done) && regsize == old(regsize) && ret == |c0|
        invariant !emitting ==> code == old(code) && regsize == old(regsize) + AltsLen(done)
        decreases |exp| - regparse
      {
        AltsStep(exp, done, regparse, regnpar);
        b := ParseBranch(exp, regparse + 1, regnpar);
        if b.Good? {
          AltsRoom(exp, done + [b.val], b.pos, b.npar);
          AltFacts(x, done, b.val);
          LinkedLen(done);
        }
        var f;
        ok, f := RegAlternative(paren, parno, ret, c0, done);
        if !ok {
          return;
        }
        flags := flags.(hasWidth := flags.hasWidth && f.hasWidth, spStart := flags.spStart || f.spStart);
        done := done + [b.val];
      }
      AltsDone(exp, done, regparse, regnpar);
    }

    /** One more alternative, linked to those before it. */
    method RegAlternative(ghost paren: bool, ghost parno: nat, ret: nat, ghost c0: Code, ghost done: seq<Branch>)
      returns (ok: bool, flags: Flags)
      requires Valid() && regparse < |exp| && regnpar >= 1 && (paren ==> parno < NSUBEXP) && done != []
      requires emitting ==> code == c0 + Opening(paren, parno) + Linked(done) && ret == |c0|
      requires var b := ParseBranch(exp, regparse + 1, regnpar); emitting ==> b.Good? && Room(3 + BodyLen(b.val))
      modifies this`regparse, this`regnpar, this`regsize, this`regcode, this`code, program
      ensures Valid()
      ensures var b := ParseBranch(exp, old(regparse) + 1, old(regnpar));
              && ok == b.Good?
              && (ok ==> regparse == b.pos && regnpar == b.npar >= 1 && flags == BranchFlags(b.val)
                         && WfPieces(b.val.pieces))
      ensures ok && emitting ==>
                var b := ParseBranch(exp, old(regparse) + 1, old(regnpar));
                code == c0 + Opening(paren, parno) + Linked(done + [b.val]) && regsize == old(regsize)
      ensures ok && !emitting ==>
                code == old(code) && regsize == old(regsize) + 3
                  + BodyLen(ParseBranch(exp, old(regparse) + 1, old(regnpar)).val)
      decreases |exp| - regparse, 2
    {
      hide Valid, ParseBranch, Opening, Node, BranchFlags, MixAlts, Linked, AltsLen, BranchOpen, BodyLen, Wf, WfAlts,
           WfPieces,
        AltsFlags, TailOf, NextOff, SetOff;
      ghost var x := c0 + Opening(paren, parno);
      ghost var b := ParseBranch(exp, regparse + 1, regnpar);
      if b.Good? {
        AltFacts(x, done, b.val);
        LinkedLen(done);
      }
      regparse := regparse + 1;
      var br;
      ok, br, flags := RegBranch();
      if !ok {
        return;
      }
      if emitting {
        CodeFits();
        EndOn(c0, paren, parno, done, BranchOpen(b.val));
      }
      RegTail(ret, br, |x| + AltsLen(done[..|done| - 1]));
    }

    /** Hooks the tails of the alternatives to the closing node. */
    method RegTies(paren: bool, parno: nat, ret: nat, ender: nat, ghost c0: Code, ghost alts: seq<Branch>)
      requires Valid() && (paren ==> parno < NSUBEXP) && WfAlts(alts)
      requires emitting ==> code == c0 + Opening(paren, parno) + MixAlts(alts, 0) + Node(Ender(paren, parno), 0)
      requires emitting ==> ret == |c0| && ender == |c0 + Opening(paren, parno)| + AltsLen(alts)
      modifies program, this`code
      ensures Valid()
      ensures code == if emitting then c0 + Opening(paren, parno) + MixAlts(alts, |alts|) + Node(Ender(paren, parno), 0)
                      else old(code)
    {
      hide Valid, Opening, Node, MixAlts, AltsLen, WfAlts, TailOf, NextOff, SetOff, TieAt, TieCode, TieLast;
      ghost var j: int := if paren then -1 else 0;
      var br: int := ret;
      TieStart(c0, paren, parno, alts);
      while br != -1
        invariant Valid() && -1 <= j && br >= -1
        invariant !emitting ==> code == old(code)
        invariant emitting ==> code == TieCode(c0, paren, parno, alts, j)
        invariant emitting && br != -1 ==> TieAt(c0, paren, parno, alts, j, br) && j <= |alts|
        invariant if br == -1 then j > |alts| else j <= |alts|
        decreases |alts| + 1 - j
      {
        if emitting {
          CodeFits();
          TieNext(c0, paren, parno, alts, j, br);
        }
        RegOptail(br, ender, TieLast(c0, paren, parno, alts, j));
        br := RegNext(br);
        j := if emitting then j + 1 else |alts| + 1;
      }
      TieEnd(c0, paren, parno, alts, j);
    }
  }

  lemma AltsRoom(pat: seq<Byte>, done: seq<Branch>, pos: nat, npar: nat)
    requires pos <= |pat|
    ensures var r := AltsRest(pat, done, pos, npar); r.Good? ==> AltsLen(done) <= AltsLen(r.val)
  {
    hide ParseAlts;
    var r := AltsRest(pat, done, pos, npar);
    if r.Good? {
      assert r.val == done + r.val[|done|..];
      AltsLenAdds(done, r.val[|done|..]);
    }
  }

  lemma AltsDone(pat: seq<Byte>, done: seq<Branch>, pos: nat, npar: nat)
    requires pos <= |pat| && Char(pat, pos) != BAR
    ensures AltsRest(pat, done, pos, npar) == Good(done, pos, npar)
  {
  }

  /** The first alternative, and the opening node that leads to it. */
  lemma FirstAlt(c0: Code, paren: bool, no: nat, b: Branch)
    requires paren ==> no < NSUBEXP
    ensures AltsLen([b]) == 3 + BodyLen(b) == |BranchOpen(b)|
    ensures WfAlts([b]) == WfPieces(b.pieces) && AltsFlags([b]) == BranchFlags(b)
    ensures var open := (OPEN + no) % 256;
            if paren then
              var c := Then(c0, open) + BranchOpen(b);
              open != BACK && TailOf(c, |c0|) == |c0| && c[|c0|] == open
              && SetOff(c, |c0|, 3) == c0 + Opening(paren, no) + Linked([b])
            else c0 + BranchOpen(b) == c0 + Opening(paren, no) + Linked([b])
  {
    hide Off, EncBody, TailOf, NextOff, SetOff;
    assert [b][1..] == [] && [b][..0] == [] && AltsHaveWidth([]) && !AltsSpStart([]);
    assert AltsHaveWidth([b]) == PiecesHaveWidth(b.pieces);
    EncBodyLen(b, Dangling);
    if paren {
      NodeMid(c0, (OPEN + no) % 256, BranchOpen(b), 3);
    }
    assert c0 + [] == c0 && [] + BranchOpen(b) == BranchOpen(b);
  }

  /** What one more alternative adds to the length, the flags and the shape. */
  lemma AltFacts(x: Code, alts: seq<Branch>, b: Branch)
    ensures AltsLen(alts + [b]) == AltsLen(alts) + 3 + BodyLen(b) && |BranchOpen(b)| == 3 + BodyLen(b)
    ensures WfAlts(alts + [b]) == (WfAlts(alts) && WfPieces(b.pieces))
    ensures var f, g := AltsFlags(alts), BranchFlags(b);
            AltsFlags(alts + [b]) == Flags(f.hasWidth && g.hasWidth, false, f.spStart || g.spStart)
    ensures !AltsFlags(alts).simple
    ensures x + MixAlts(alts, 0) + BranchOpen(b) == x + Linked(alts + [b])
  {
    hide EncBody, MixAlts, Linked, AltsHaveWidth, AltsSpStart, WfAlts, Off;
    EncBodyLen(b, Dangling);
    AltsLenAdds(alts, [b]);
    assert [b][1..] == [];
    AltsFlagSnoc(alts, b);
    LinkedSnoc(x, alts, b);
  }

  /** Linking the last alternative to what follows, from the first node of the group. */
  lemma EndOn(c0: Code, paren: bool, no: nat, alts: seq<Branch>, y: Code)
    requires alts != [] && (paren ==> no < NSUBEXP) && |c0 + Opening(paren, no)| + AltsLen(alts) + |y| < 0x8000
    ensures var x := c0 + Opening(paren, no);
            var c := x + Linked(alts) + y;
            var t := |x| + AltsLen(alts[..|alts| - 1]);
            && |Linked(alts)| == AltsLen(alts)
            && t + 2 < |c| && TailOf(c, |c0|) == t && c[t] == BRANCH && t <= |x| + AltsLen(alts)
            && SetOff(c, t, |x| + AltsLen(alts) - t) == x + MixAlts(alts, 0) + y
  {
    hide Opening, TailOf, NextOff, SetOff, Linked, MixAlts, AltsLen;
    var x := c0 + Opening(paren, no);
    LinkedLen(alts);
    LinkOn(x, alts, y);
    OpeningTail(c0, Linked(alts) + y, paren, no);
    ConcatAssoc(x, Linked(alts), y);
  }

  lemma BranchStart(pat: seq<Byte>, pos: nat, npar: nat, x: Code)
    requires pos <= |pat|
    ensures PiecesRest(pat, [], pos, npar) == ParseBranch(pat, pos, npar)
    ensures WfPieces([]) && BranchFlags(Branch([])) == Flags(false, false, false)
    ensures x + Loose([]) == x && PiecesLen([]) == 0
  {
    var r := ParseBranch(pat, pos, npar);
    if r.Good? {
      assert [] + r.val.pieces == r.val.pieces;
    }
  }

  lemma PiecesRoom(pat: seq<Byte>, done: seq<Re>, pos: nat, npar: nat)
    requires pos <= |pat|
    ensures var r := PiecesRest(pat, done, pos, npar); r.Good? ==> PiecesLen(done) <= BodyLen(r.val)
  {
    hide ParseBranch;
    var r := ParseBranch(pat, pos, npar);
    if r.Good? {
      PiecesLenAdds(done, r.val.pieces);
    }
  }

  /** What one more piece adds to the length, the flags and the shape of a branch. */
  lemma PieceFacts(ps: seq<Re>, p: Re)
    ensures PiecesLen(ps + [p]) == PiecesLen(ps) + Len(p) && |Enc(p, Dangling)| == Len(p)
    ensures |Loose(ps)| == PiecesLen(ps)
    ensures WfPieces(ps + [p]) == (WfPieces(ps) && Wf(p))
    ensures var f, g := BranchFlags(Branch(ps)), FlagsOf(p);
            BranchFlags(Branch(ps + [p]))
            == Flags(f.hasWidth || g.hasWidth, false, if ps == [] then g.spStart else f.spStart)
    ensures !BranchFlags(Branch(ps)).simple
    ensures (ps + [p])[..|ps|] == ps
  {
    hide Enc, Len, Wf, HasWidth, SpStart;
    StrungSnoc(ps, p);
    LooseLen(ps);
    WfSnoc(ps, p);
    PiecesFlagSnoc(ps, p);
    EncLen(p, Dangling);
  }

  lemma FirstLoose(x: Code, p: Re)
    ensures x + Loose([]) + Enc(p, Dangling) == x + Loose([] + [p])
  {
    hide Enc;
    assert [] + [p] == [p] && x + [] == x;
    assert Loose([p]) == Enc(p, Dangling);
  }

  lemma ClassIs(re: Re)
    requires re.Class?
    ensures Pre(re)[0] == (if re.neg then ANYBUT else ANYOF) && Post(re) == re.chars + [0] && Leaf(re)
  {
  }

  lemma LitIs(re: Re)
    requires re.Lit?
    ensures Pre(re)[0] == EXACTLY && Post(re) == re.str + [0] && Leaf(re)
  {
  }

}
