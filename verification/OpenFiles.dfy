/** The open-file table and the processes' descriptors: open, close, dup, dup2, and what fork and
    exit do to them. */
module OpenFiles {
  import opened Basics
  import opened Processes


  const OFTSIZE := 15
  const UFTSIZE := 10
  const FREE: Byte := 255  // -1 in 8 bits

  /** An open-file table entry: how many descriptors name it, and its inode, -1 for NULL. */
  datatype Oft = Oft(refs: Byte, inode: int)

  type Files = f: seq<Byte> | |f| == UFTSIZE witness seq(UFTSIZE, _ => FREE)

  /** freefileentry: the high bit is set. */
  predicate FreeEntry(e: Byte) {
    e >= 128
  }

  // ---------- Counting descriptors ----------

  /** How many of these descriptors name entry o. */
  function Uses(f: seq<Byte>, o: Byte): (n: nat)
    ensures n <= |f|
  {
    if f == [] then 0 else Uses(f[..|f| - 1], o) + if f[|f| - 1] == o then 1 else 0
  }

  /** How many descriptors of all these processes name entry o. */
  function AllUses(fs: seq<Files>, o: Byte): (n: nat)
    ensures n <= |fs| * UFTSIZE
  {
    if fs == [] then 0 else AllUses(fs[..|fs| - 1], o) + Uses(fs[|fs| - 1], o)
  }

  lemma {:induction false} UsesSet(f: seq<Byte>, i: nat, e: Byte, o: Byte)
    requires i < |f|
    ensures Uses(f[i := e], o) == Uses(f, o) + (if e == o then 1 else 0) - (if f[i] == o then 1 else 0)
    decreases |f|
  {
    var n := |f| - 1;
    if i == n {
      assert f[i := e][..n] == f[..n];
    } else {
      assert f[i := e][..n] == f[..n][i := e];
      UsesSet(f[..n], i, e, o);
    }
  }

  lemma {:induction false} AllUsesSet(fs: seq<Files>, p: nat, f: Files, o: Byte)
    requires p < |fs|
    ensures AllUses(fs[p := f], o) == AllUses(fs, o) + Uses(f, o) - Uses(fs[p], o)
    decreases |fs|
  {
    var n := |fs| - 1;
    if p == n {
      assert fs[p := f][..n] == fs[..n];
    } else {
      assert fs[p := f][..n] == fs[..n][p := f];
      AllUsesSet(fs[..n], p, f, o);
    }
  }

  /** Changing one descriptor. */
  lemma OneSet(fs: seq<Files>, p: nat, fd: nat, e: Byte, o: Byte)
    requires p < |fs| && fd < UFTSIZE
    ensures AllUses(fs[p := fs[p][fd := e]], o)
            == AllUses(fs, o) + (if e == o then 1 else 0) - (if fs[p][fd] == o then 1 else 0)
  {
    AllUsesSet(fs, p, fs[p][fd := e], o);
    UsesSet(fs[p], fd, e, o);
  }

  lemma {:induction false} UsesOne(f: seq<Byte>, i: nat)
    requires i < |f|
    ensures Uses(f, f[i]) > 0
    decreases |f|
  {
    if i < |f| - 1 {
      UsesOne(f[..|f| - 1], i);
    }
  }

  lemma {:induction false} AllUsesOne(fs: seq<Files>, p: nat, fd: nat)
    requires p < |fs| && fd < UFTSIZE
    ensures AllUses(fs, fs[p][fd]) > 0
    decreases |fs|
  {
    if p == |fs| - 1 {
      UsesOne(fs[p], fd);
    } else {
      AllUsesOne(fs[..|fs| - 1], p, fd);
    }
  }

  lemma {:induction false} NoUses(f: seq<Byte>, o: Byte)
    requires o !in f
    ensures Uses(f, o) == 0
    decreases |f|
  {
    if f != [] {
      NoUses(f[..|f| - 1], o);
    }
  }

  // ---------- What every step keeps ----------

  /** Descriptors are free or name entries of the table. */
  predicate EntriesOk(f: Files) {
    forall fd | 0 <= fd < UFTSIZE :: FreeEntry(f[fd]) || f[fd] < OFTSIZE
  }

  /** Every entry's reference count is the number of descriptors that name it, plus extra for the
      one entry that is being handed over; entries have an inode exactly when referred to. */
  ghost predicate Counted(oft: seq<Oft>, fs: seq<Files>, o: int, extra: int) {
    && |oft| == OFTSIZE && |fs| == PTABSIZE
    && (forall p | 0 <= p < |fs| :: EntriesOk(fs[p]))
    && (forall k: Byte | k < OFTSIZE :: oft[k].refs == AllUses(fs, k) + if k == o then extra else 0)
    && (forall k | 0 <= k < OFTSIZE && k != o :: oft[k].inode >= -1 && (oft[k].inode == -1 <==> oft[k].refs == 0))
  }

  /** There are never so many descriptors that the 8-bit count would overflow. */
  lemma RefsFit(oft: seq<Oft>, fs: seq<Files>, o: Byte)
    requires Counted(oft, fs, -1, 0) && o < OFTSIZE
    ensures oft[o].refs <= PTABSIZE * UFTSIZE < 255
  {
  }

  /** Entries that are still referred to have the inode they had. */
  predicate InodesKept(oft: seq<Oft>, oft': seq<Oft>) {
    |oft'| == |oft| && forall k | 0 <= k < |oft| && oft'[k].refs > 0 :: oft'[k].inode == oft[k].inode
  }

  /** What namei, n_creat and the permission checks make of the name given to open. */
  datatype Lookup = NoInode | Refused(inode: nat) | Granted(inode: nat)

  class FileTable {
    const of_tab: array<Oft>
    // u_files of the process in each process table entry
    const u_files: array<Files>

    constructor ()
      ensures Good() && fresh(of_tab) && fresh(u_files)
      ensures forall p, fd | 0 <= p < PTABSIZE && 0 <= fd < UFTSIZE :: FreeEntry(u_files[p][fd])
    {
      of_tab := new Oft[OFTSIZE](_ => Oft(0, -1));
      u_files := new Files[PTABSIZE](_ => seq(UFTSIZE, _ => FREE));
      new;
      forall k: Byte | k < OFTSIZE ensures AllUses(u_files[..], k) == 0 {
        AllFree(u_files[..], k);
      }
    }

    ghost predicate Good()
      reads of_tab, u_files
    {
      Counted(of_tab[..], u_files[..], -1, 0)
    }

    // ---------- Entries ----------

    /** uf_alloc: the first free descriptor of process p; -1 if there is none. */
    method UfAlloc(p: nat) returns (j: int)
      requires u_files.Length == PTABSIZE && p < PTABSIZE
      ensures -1 <= j < UFTSIZE
      ensures j == -1 ==> forall fd | 0 <= fd < UFTSIZE :: !FreeEntry(u_files[p][fd])
      ensures j != -1 ==> FreeEntry(u_files[p][j]) && forall fd | 0 <= fd < j :: !FreeEntry(u_files[p][fd])
    {
      j := 0;
      while j != UFTSIZE
        invariant 0 <= j <= UFTSIZE && forall fd | 0 <= fd < j :: !FreeEntry(u_files[p][fd])
        decreases UFTSIZE - j
      {
        if FreeEntry(u_files[p][j]) {
          return;
        }
        j := j + 1;
      }
      return -1;
    }

    /** oft_alloc: the first entry that nothing refers to, cleared, with one reference; -1 if there
        is none. No entry that a descriptor names is handed out. */
    method OftAlloc() returns (j: int)
      requires Good()
      modifies of_tab
      ensures -1 <= j < OFTSIZE
      ensures j == -1 ==> of_tab[..] == old(of_tab[..]) && forall k | 0 <= k < OFTSIZE :: of_tab[k].refs > 0
      ensures j != -1 ==> of_tab[..] == old(of_tab[..])[j := Oft(1, -1)] && old(of_tab[j]) == Oft(0, -1)
      ensures j != -1 ==> forall k | 0 <= k < j :: old(of_tab[k]).refs > 0
      ensures j != -1 ==> Counted(of_tab[..], u_files[..], j, 1)
      ensures j != -1 ==> forall p, fd | 0 <= p < PTABSIZE && 0 <= fd < UFTSIZE :: u_files[p][fd] != j
    {
      hide AllUses, Uses, EntriesOk;
      j := 0;
      ghost var oft := of_tab[..];
      while j != OFTSIZE
        invariant of_tab[..] == oft
        invariant 0 <= j <= OFTSIZE && forall k | 0 <= k < j :: of_tab[k].refs > 0
        decreases OFTSIZE - j
      {
        if of_tab[j].refs == 0 {
          UnusedEntry(of_tab[..], u_files[..], j);
          assert of_tab[j] == Oft(0, of_tab[j].inode);
          of_tab[j] := Oft(0, -1);
          of_tab[j] := of_tab[j].(refs := (of_tab[j].refs + 1) % 256);
          return;
        }
        j := j + 1;
      }
      return -1;
    }

    /** oft_deref: one reference less; the last one lets go of the inode. */
    method OftDeref(o: Byte)
      requires of_tab.Length == OFTSIZE && o < OFTSIZE && of_tab[o].refs > 0 && of_tab[o].inode >= -1
      modifies of_tab
      ensures var e := old(of_tab[o]);
              of_tab[..] == old(of_tab[..])[o := Oft(e.refs - 1, if e.refs == 1 then -1 else e.inode)]
    {
      of_tab[o] := of_tab[o].(refs := (of_tab[o].refs + 255) % 256);
      if of_tab[o].refs == 0 && of_tab[o].inode >= 0 {
        of_tab[o] := of_tab[o].(inode := -1);
      }
    }

    /** getinode(fd) != NULL. */
    predicate IsOpen(p: nat, fd: Byte)
      reads u_files
      requires u_files.Length == PTABSIZE && p < PTABSIZE
    {
      fd < UFTSIZE && !FreeEntry(u_files[p][fd])
    }

    /** doclose. */
    method DoClose(p: nat, fd: Byte) returns (r: int)
      requires Good() && p < PTABSIZE
      modifies of_tab, u_files
      ensures Good() && r == (if old(IsOpen(p, fd)) then 0 else -1)
      ensures u_files[..] == if r == 0 then old(u_files[..])[p := old(u_files[p])[fd := FREE]] else old(u_files[..])
      ensures r == -1 ==> of_tab[..] == old(of_tab[..])
      ensures r == 0 ==>
                var o := old(u_files[p][fd]);
                var e := old(of_tab[o]);
                e.refs > 0 && of_tab[..] == old(of_tab[..])[o := Oft(e.refs - 1, if e.refs == 1 then -1 else e.inode)]
    {
      hide AllUses, Uses, Counted;
      CountedShape(of_tab[..], u_files[..], -1, 0);
      if !IsOpen(p, fd) {
        return -1;
      }
      var oftindex := u_files[p][fd];
      ghost var o0, f0 := of_tab[..], u_files[..];
      Referred(o0, f0, p, fd);
      u_files[p] := u_files[p][fd := FREE];
      OftDeref(oftindex);
      Released(o0, f0, of_tab[..], u_files[..], p, fd);
      return 0;
    }

    // ---------- System calls ----------

    /** sys_open, up to what the file's kind adds: takes a descriptor and an entry, and gives the
        entry back if the name leads nowhere or may not be opened. */
    method SysOpen(p: nat, lookup: Lookup) returns (uindex: int)
      requires Good() && p < PTABSIZE
      modifies of_tab, u_files
      ensures Good() && -1 <= uindex < UFTSIZE
      ensures uindex == -1 <==> !lookup.Granted? || (forall fd | 0 <= fd < UFTSIZE :: !FreeEntry(old(u_files[p][fd])))
                                || (forall k | 0 <= k < OFTSIZE :: old(of_tab[k]).refs > 0)
      ensures uindex == -1 ==> of_tab[..] == old(of_tab[..]) && u_files[..] == old(u_files[..])
      ensures uindex != -1 ==>
                FreeEntry(old(u_files[p][uindex])) && u_files[p][uindex] < OFTSIZE
                && (forall fd | 0 <= fd < uindex :: !FreeEntry(old(u_files[p][fd])))
                && u_files[..] == old(u_files[..])[p := old(u_files[p])[uindex := u_files[p][uindex]]]
      ensures uindex != -1 ==>
                var o := u_files[p][uindex];
                && old(of_tab[o]).refs == 0 && (forall k | 0 <= k < o :: old(of_tab[k]).refs > 0)
                && of_tab[..] == old(of_tab[..])[o := Oft(1, lookup.inode)]
    {
      hide AllUses, Uses, Counted;
      ghost var o0, f0 := of_tab[..], u_files[..];
      CountedShape(o0, f0, -1, 0);
      uindex := UfAlloc(p);
      if uindex == -1 {
        return;
      }
      var oftindex := OftAlloc();
      if oftindex == -1 {
        return -1;
      }
      if lookup.NoInode? {
        OftDeref(oftindex);
        assert of_tab[..] == o0;
        return -1;
      }
      of_tab[oftindex] := of_tab[oftindex].(inode := lookup.inode);
      if lookup.Refused? {
        OftDeref(oftindex);
        assert of_tab[..] == o0;
        return -1;
      }
      u_files[p] := u_files[p][uindex := oftindex];
      assert of_tab[..] == o0[oftindex := Oft(1, lookup.inode)];
      Opened(o0, f0, u_files[..], p, uindex, oftindex, lookup.inode);
    }

    /** sys_dup. */
    method SysDup(p: nat, oldd: Byte) returns (newd: int)
      requires Good() && p < PTABSIZE
      modifies of_tab, u_files
      ensures Good() && -1 <= newd < UFTSIZE
      ensures newd == -1 <==> !old(IsOpen(p, oldd)) || forall fd | 0 <= fd < UFTSIZE :: !FreeEntry(old(u_files[p][fd]))
      ensures newd == -1 ==> of_tab[..] == old(of_tab[..]) && u_files[..] == old(u_files[..])
      ensures newd != -1 ==>
                var o := old(u_files[p][oldd]);
                of_tab[..] == old(of_tab[..])[o := Oft(old(of_tab[o]).refs + 1, old(of_tab[o]).inode)]
      ensures newd != -1 ==>
                && FreeEntry(old(u_files[p][newd])) && (forall fd | 0 <= fd < newd :: !FreeEntry(old(u_files[p][fd])))
                && u_files[..] == old(u_files[..])[p := old(u_files[p])[newd := old(u_files[p][oldd])]]
    {
      hide AllUses, Uses, Counted;
      CountedShape(of_tab[..], u_files[..], -1, 0);
      if !IsOpen(p, oldd) {
        return -1;
      }
      newd := UfAlloc(p);
      if newd == -1 {
        return;
      }
      var oftindex := u_files[p][oldd];
      ghost var o0, f0 := of_tab[..], u_files[..];
      Referred(o0, f0, p, oldd);
      u_files[p] := u_files[p][newd := oftindex];
      of_tab[oftindex] := of_tab[oftindex].(refs := (of_tab[oftindex].refs + 1) % 256);
      Acquired(o0, f0, of_tab[..], u_files[..], p, newd, oftindex);
    }

    /** sys_dup2. It works as documented only for two different descriptors: an open descriptor
        given twice is closed, and the increment that follows goes astray, past the table. */
    method SysDup2(p: nat, oldd: Byte, newd: Byte) returns (r: int, stray: bool)
      requires Good() && p < PTABSIZE
      modifies of_tab, u_files
      ensures Good() && r == (if old(IsOpen(p, oldd)) && newd < UFTSIZE then 0 else -1)
      ensures stray <==> r == 0 && oldd == newd
      ensures r == -1 ==> of_tab[..] == old(of_tab[..]) && u_files[..] == old(u_files[..])
      ensures InodesKept(old(of_tab[..]), of_tab[..])
      ensures r == 0 ==>
                var e := if stray then FREE else old(u_files[p][oldd]);
                u_files[..] == old(u_files[..])[p := old(u_files[p])[newd := e]]
    {
      hide AllUses, Uses, Counted;
      CountedShape(of_tab[..], u_files[..], -1, 0);
      stray := false;
      if !IsOpen(p, oldd) || newd >= UFTSIZE {
        return -1, false;
      }
      ghost var f := u_files[p];
      if !FreeEntry(u_files[p][newd]) {
        var closed := DoClose(p, newd);
      }
      ghost var o0, f0 := of_tab[..], u_files[..];
      var oftindex := u_files[p][oldd];
      assert oldd != newd ==> oftindex == f[oldd];
      u_files[p] := u_files[p][newd := oftindex];
      if oftindex >= OFTSIZE {
        stray := true;
        assert oldd == newd && f0[p] == f[newd := FREE] && oftindex == FREE;
        assert f0[p][newd := FREE] == f0[p];
        assert u_files[..] == f0;
      } else {
        Referred(o0, f0, p, oldd);
        of_tab[oftindex] := of_tab[oftindex].(refs := (of_tab[oftindex].refs + 1) % 256);
        Acquired(o0, f0, of_tab[..], u_files[..], p, newd, oftindex);
        assert u_files[p] == f[newd := oftindex];
      }
      return 0, stray;
    }

    // ---------- fork and exit ----------

    /** The child's user data is a copy of the parent's, and newproc counts the descriptors again. */
    method Inherit(parent: nat, child: nat)
      requires Good() && parent < PTABSIZE && child < PTABSIZE && parent != child
      requires forall fd | 0 <= fd < UFTSIZE :: FreeEntry(u_files[child][fd])
      modifies of_tab, u_files
      ensures Good() && u_files[..] == old(u_files[..])[child := old(u_files[parent])]
      ensures InodesKept(old(of_tab[..]), of_tab[..])
    {
      hide AllUses, Uses, Counted, Owing;
      ghost var o0, f0 := of_tab[..], u_files[..];
      CountedShape(o0, f0, -1, 0);
      u_files[child] := u_files[parent];
      ghost var f := u_files[child];
      ghost var fs := u_files[..];
      Copied(o0, f0, parent, child);
      assert f[0..] == f;
      var j := 0;
      while j != UFTSIZE
        modifies of_tab
        invariant InodesKept(o0, of_tab[..])
        invariant 0 <= j <= UFTSIZE && of_tab.Length == OFTSIZE && Owing(of_tab[..], fs, f[j..])
        decreases UFTSIZE - j
      {
        assert f[j..][0] == f[j] && f[j..][1..] == f[j + 1..];
        if !FreeEntry(u_files[child][j]) {
          var o := u_files[child][j];
          PaidRoom(of_tab[..], fs, f[j..]);
          ghost var oft := of_tab[..];
          of_tab[o] := of_tab[o].(refs := (of_tab[o].refs + 1) % 256);
          Paid(oft, of_tab[..], fs, f[j..]);
        } else {
          Skipped(of_tab[..], fs, f[j..]);
        }
        j := j + 1;
      }
      assert f[UFTSIZE..] == [];
      AllPaid(of_tab[..], fs);
      assert u_files[..] == fs;
    }

    /** doexit closes every descriptor. */
    method CloseAll(p: nat)
      requires Good() && p < PTABSIZE
      modifies of_tab, u_files
      ensures Good() && forall fd | 0 <= fd < UFTSIZE :: FreeEntry(u_files[p][fd])
      ensures InodesKept(old(of_tab[..]), of_tab[..])
      ensures forall q | 0 <= q < PTABSIZE && q != p :: u_files[q] == old(u_files[q])
    {
      hide AllUses, Uses, Counted;
      CountedShape(of_tab[..], u_files[..], -1, 0);
      var j: Byte := UFTSIZE;
      while j != 0
        invariant InodesKept(old(of_tab[..]), of_tab[..])
        invariant Good() && 0 <= j <= UFTSIZE && u_files.Length == PTABSIZE
        invariant forall fd | j <= fd < UFTSIZE :: FreeEntry(u_files[p][fd])
        invariant forall q | 0 <= q < PTABSIZE && q != p :: u_files[q] == old(u_files[q])
      {
        j := j - 1;
        if !FreeEntry(u_files[p][j]) {
          ghost var f := u_files[p];
          var r := DoClose(p, j);
          assert u_files[p] == f[j := FREE];
        }
      }
    }
  }

  lemma {:induction false} AllFree(fs: seq<Files>, o: Byte)
    requires o < OFTSIZE && forall p, fd | 0 <= p < |fs| && 0 <= fd < UFTSIZE :: FreeEntry(fs[p][fd])
    ensures AllUses(fs, o) == 0
    decreases |fs|
  {
    if fs != [] {
      AllFree(fs[..|fs| - 1], o);
      NoUses(fs[|fs| - 1], o);
    }
  }

  lemma CountedShape(oft: seq<Oft>, fs: seq<Files>, o: int, extra: int)
    requires Counted(oft, fs, o, extra)
    ensures |oft| == OFTSIZE && |fs| == PTABSIZE && forall p | 0 <= p < |fs| :: EntriesOk(fs[p])
  {
  }

  /** An entry without references is named by no descriptor. */
  lemma UnusedEntry(oft: seq<Oft>, fs: seq<Files>, j: nat)
    requires Counted(oft, fs, -1, 0) && j < OFTSIZE && oft[j].refs == 0
    ensures forall p, fd | 0 <= p < PTABSIZE && 0 <= fd < UFTSIZE :: fs[p][fd] != j
  {
    forall p, fd | 0 <= p < PTABSIZE && 0 <= fd < UFTSIZE ensures fs[p][fd] != j {
      AllUsesOne(fs, p, fd);
    }
  }

  /** An entry that a descriptor names has a reference and an inode. */
  lemma Referred(oft: seq<Oft>, fs: seq<Files>, p: nat, fd: nat)
    requires Counted(oft, fs, -1, 0) && p < PTABSIZE && fd < UFTSIZE && !FreeEntry(fs[p][fd])
    ensures var o := fs[p][fd]; o < OFTSIZE && oft[o].refs > 0 && oft[o].inode >= 0
  {
    AllUsesOne(fs, p, fd);
  }

  /** Closing a descriptor. */
  lemma Released(oft: seq<Oft>, fs: seq<Files>, oft': seq<Oft>, fs': seq<Files>, p: nat, fd: nat)
    requires Counted(oft, fs, -1, 0) && p < PTABSIZE && fd < UFTSIZE && !FreeEntry(fs[p][fd])
    requires fs' == fs[p := fs[p][fd := FREE]]
    requires oft[fs[p][fd]].refs > 0 && oft[fs[p][fd]].inode >= 0
    requires var e := oft[fs[p][fd]]; oft' == oft[fs[p][fd] := Oft(e.refs - 1, if e.refs == 1 then -1 else e.inode)]
    ensures Counted(oft', fs', -1, 0)
  {
    forall k: Byte | k < OFTSIZE ensures oft'[k].refs == AllUses(fs', k) {
      OneSet(fs, p, fd, FREE, k);
    }
  }

  /** A descriptor starts to name an entry that nothing referred to. */
  lemma Opened(oft: seq<Oft>, fs: seq<Files>, fs': seq<Files>, p: nat, fd: nat, o: Byte, inode: nat)
    requires Counted(oft, fs, -1, 0) && p < PTABSIZE && fd < UFTSIZE && FreeEntry(fs[p][fd]) && o < OFTSIZE
    requires oft[o].refs == 0 && fs' == fs[p := fs[p][fd := o]]
    ensures Counted(oft[o := Oft(1, inode)], fs', -1, 0)
  {
    forall k: Byte | k < OFTSIZE ensures oft[o := Oft(1, inode)][k].refs == AllUses(fs', k) {
      OneSet(fs, p, fd, o, k);
    }
  }

  /** A free descriptor starts to name an entry that another one names. */
  lemma Acquired(oft: seq<Oft>, fs: seq<Files>, oft': seq<Oft>, fs': seq<Files>, p: nat, fd: nat, o: Byte)
    requires Counted(oft, fs, -1, 0) && p < PTABSIZE && fd < UFTSIZE && FreeEntry(fs[p][fd]) && o < OFTSIZE
    requires oft[o].refs > 0 && oft' == oft[o := Oft((oft[o].refs + 1) % 256, oft[o].inode)]
             && fs' == fs[p := fs[p][fd := o]]
    ensures Counted(oft', fs', -1, 0)
  {
    RefsFit(oft, fs, o);
    forall k: Byte | k < OFTSIZE ensures oft'[k].refs == AllUses(fs', k) {
      OneSet(fs, p, fd, o, k);
    }
  }

  /** The reference counts still miss some descriptors. */
  ghost predicate Owing(oft: seq<Oft>, fs: seq<Files>, rest: seq<Byte>) {
    && |oft| == OFTSIZE && |fs| == PTABSIZE
    && (forall p | 0 <= p < |fs| :: EntriesOk(fs[p]))
    && (forall e | e in rest :: FreeEntry(e) || (e < OFTSIZE && oft[e].refs > 0))
    && (forall k: Byte | k < OFTSIZE :: oft[k].refs + Uses(rest, k) == AllUses(fs, k))
    && (forall k | 0 <= k < OFTSIZE :: oft[k].inode >= -1 && (oft[k].inode == -1 <==> oft[k].refs == 0))
  }

  lemma {:induction false} UsesFront(f: seq<Byte>, o: Byte)
    requires f != []
    ensures Uses(f, o) == Uses(f[1..], o) + if f[0] == o then 1 else 0
    decreases |f|
  {
    var n := |f| - 1;
    if n > 0 {
      assert f[..n][1..] == f[1..][..n - 1];
      UsesFront(f[..n], o);
    }
  }

  lemma Copied(oft: seq<Oft>, fs: seq<Files>, parent: nat, child: nat)
    requires Counted(oft, fs, -1, 0) && parent < PTABSIZE && child < PTABSIZE
    requires forall fd | 0 <= fd < UFTSIZE :: FreeEntry(fs[child][fd])
    ensures Owing(oft, fs[child := fs[parent]], fs[parent])
  {
    forall k: Byte | k < OFTSIZE ensures oft[k].refs + Uses(fs[parent], k) == AllUses(fs[child := fs[parent]], k) {
      AllUsesSet(fs, child, fs[parent], k);
      NoUses(fs[child], k);
    }
    forall e | e in fs[parent] ensures FreeEntry(e) || (e < OFTSIZE && oft[e].refs > 0) {
      var fd :| 0 <= fd < UFTSIZE && fs[parent][fd] == e;
      AllUsesOne(fs, parent, fd);
    }
  }

  lemma PaidRoom(oft: seq<Oft>, fs: seq<Files>, rest: seq<Byte>)
    requires Owing(oft, fs, rest) && rest != [] && !FreeEntry(rest[0])
    ensures rest[0] < OFTSIZE && 0 < oft[rest[0]].refs < 255
  {
    UsesFront(rest, rest[0]);
  }

  lemma Paid(oft: seq<Oft>, oft': seq<Oft>, fs: seq<Files>, rest: seq<Byte>)
    requires Owing(oft, fs, rest) && rest != [] && !FreeEntry(rest[0])
    requires rest[0] < OFTSIZE && 0 < oft[rest[0]].refs < 255
    requires oft' == oft[rest[0] := Oft((oft[rest[0]].refs + 1) % 256, oft[rest[0]].inode)]
    ensures Owing(oft', fs, rest[1..])
  {
    hide Uses, AllUses;
    forall k: Byte | k < OFTSIZE ensures oft'[k].refs + Uses(rest[1..], k) == AllUses(fs, k) {
      UsesFront(rest, k);
    }
  }

  lemma Skipped(oft: seq<Oft>, fs: seq<Files>, rest: seq<Byte>)
    requires Owing(oft, fs, rest) && rest != [] && FreeEntry(rest[0])
    ensures Owing(oft, fs, rest[1..])
  {
    forall k: Byte | k < OFTSIZE ensures oft[k].refs + Uses(rest[1..], k) == AllUses(fs, k) {
      UsesFront(rest, k);
    }
  }

  lemma AllPaid(oft: seq<Oft>, fs: seq<Files>)
    requires Owing(oft, fs, [])
    ensures Counted(oft, fs, -1, 0)
  {
  }
}
