/** The process table and the open-file table together: whole runs of the steps that change them. */
module Kernel {
  import opened Basics
  import opened Processes
  import opened OpenFiles

  /** The steps, all but the interrupts taken by the current process. */
  datatype Step =
    | Fork(swapOk: bool)
    | Pause(event: Event)
    | Wake(event: Event)
    | Signal(target: int, sig: nat)
    | Clock(insys: bool)
    | Exit(exitval: nat, leftover: nat)
    | Reap(nohang: bool)
    | Switch
    | Open(lookup: Lookup)
    | Close(fd: Byte)
    | Dup(fd: Byte)
    | Dup2(oldd: Byte, newd: Byte)

  /** All that the steps change: the two tables, the descriptors of each process, and the counters. */
  datatype State = State(procs: seq<Proc>, current: nat, nextpid: nat, pp: nat, sec: nat, runticks: nat, ptotal: nat,
                         init: nat, oft: seq<Oft>, files: seq<Files>)

  predicate Shape(s: State) {
    && |s.procs| == |s.files| == PTABSIZE && |s.oft| == OFTSIZE
    && s.current < PTABSIZE && s.init < PTABSIZE && s.pp < PTABSIZE
  }

  function Snap(t: ProcTable, f: FileTable): State
    reads t, t.ptab, f.of_tab, f.u_files
  {
    State(t.ptab[..], t.current, t.nextpid, t.pp, t.sec, t.runticks, t.ptotal, t.initproc, f.of_tab[..], f.u_files[..])
  }

  /** When a step can happen: a process must run to make system calls, init does not exit, and the
      scheduler is entered when nothing runs and something is ready. */
  predicate Enabled(s: State, step: Step)
    requires Shape(s)
  {
    match step
    case Wake(_) => true
    case Clock(_) => true
    case Signal(target, _) => -1 <= target < PTABSIZE
    case Switch =>
      && (exists i :: 0 <= i < PTABSIZE && s.procs[i].status == Ready)
      && forall i | 0 <= i < PTABSIZE :: s.procs[i].status != Running
    case Exit(_, _) => s.procs[s.current].status == Running && s.current != s.init
    case _ => s.procs[s.current].status == Running
  }

  predicate Opened(s: State, fd: Byte)
    requires Shape(s)
  {
    fd < UFTSIZE && !FreeEntry(s.files[s.current][fd])
  }

  /** dup2 is not called with an open descriptor twice: that would increment a byte outside the table
      of open files, and what that byte belongs to is not known here. */
  predicate Documented(s: State, step: Step)
    requires Shape(s)
  {
    step.Dup2? ==> step.oldd != step.newd || !Opened(s, step.oldd)
  }

  // ---------- What a step does ----------

  /** A child in the first free entry, with a number of its own and the parent's descriptors. */
  ghost predicate Forked(s: State, p: nat, maxticks: nat, s': State)
    requires Shape(s) && Shape(s')
  {
    && p < PTABSIZE && !Occupied(s.procs[p]) && (forall i | 0 <= i < p :: Occupied(s.procs[i]))
    && 0 < s'.nextpid < PIDLIMIT && NoneHas(s.procs, s'.nextpid) && NextFree(s.procs, s.nextpid, s'.nextpid)
    && s'.procs[p] == Fresh(s'.nextpid).(status := Running, parent := s.current, cprio := maxticks,
                                         ignored := s.procs[s.current].ignored)
    && s'.procs[s.current] == s.procs[s.current].(status := Ready)
    && (forall i | 0 <= i < PTABSIZE && i != p && i != s.current :: s'.procs[i] == s.procs[i])
    && s'.current == p && s'.ptotal == s.ptotal + 1 && s'.runticks == 0 && s'.pp == s.pp && s'.sec == s.sec
    && s'.files == s.files[p := s.files[s.current]] && InodesKept(s.oft, s'.oft)
  }

  /** A zombie without descriptors, whose children are init's and whose parent is woken. */
  ghost predicate Exited(s: State, exitval: nat, leftover: nat, s': State)
    requires Shape(s) && Shape(s')
  {
    var c := s.current;
    && s'.procs[c] == s.procs[c].(status := Zombie, exitval := exitval, alarm := leftover)
    && (forall i | 0 <= i < PTABSIZE && i != c ::
          var e := s.procs[i];
          s'.procs[i]
          == Woken(if Occupied(e) && e.parent == c then e.(parent := s.init) else e, Entry(s.procs[c].parent)))
    && s'.ptotal == s.ptotal - 1 && s'.current == c && SameClock(s, s')
    && (forall fd | 0 <= fd < UFTSIZE :: FreeEntry(s'.files[c][fd]))
    && (forall q | 0 <= q < PTABSIZE && q != c :: s'.files[q] == s.files[q]) && InodesKept(s.oft, s'.oft)
  }

  predicate SameClock(s: State, s': State) {
    s'.pp == s.pp && s'.sec == s.sec && s'.runticks == s.runticks
  }

  /** Calls on descriptors: the lowest free one is taken, and an entry's inode stays while it is referred to. */
  ghost predicate FileDone(s: State, step: Step, s': State)
    requires Shape(s) && Shape(s') && s.current == s'.current
    requires step.Open? || step.Close? || step.Dup? || step.Dup2?
  {
    var f, f' := s.files[s.current], s'.files[s.current];
    && s'.procs == s.procs && s'.ptotal == s.ptotal && SameClock(s, s')
    && (forall q | 0 <= q < PTABSIZE && q != s.current :: s'.files[q] == s.files[q])
    && match step
       case Open(lookup) =>
         || (&& (lookup.Granted? ==> (forall fd | 0 <= fd < UFTSIZE :: !FreeEntry(f[fd]))
                                     || forall k | 0 <= k < OFTSIZE :: s.oft[k].refs > 0)
             && s'.oft == s.oft && f' == f)
         || (exists fd, o | 0 <= fd < UFTSIZE && 0 <= o < OFTSIZE ::
               lookup.Granted? && Lowest(f, fd) && f' == f[fd := o]
               && s.oft[o].refs == 0 && s'.oft == s.oft[o := Oft(1, lookup.inode)])
       case Close(fd) => f' == (if Opened(s, fd) then f[fd := FREE] else f) && InodesKept(s.oft, s'.oft)
       case Dup(fd) =>
         && InodesKept(s.oft, s'.oft)
         && if Opened(s, fd) && exists k :: 0 <= k < UFTSIZE && FreeEntry(f[k])
            then exists k | 0 <= k < UFTSIZE :: Lowest(f, k) && f' == f[k := f[fd]]
            else f' == f
       case Dup2(oldd, newd) =>
         && InodesKept(s.oft, s'.oft) && f' == if Opened(s, oldd) && newd < UFTSIZE then f[newd := f[oldd]] else f
  }

  /** fd is the first free descriptor. */
  predicate Lowest(f: Files, fd: nat) {
    fd < UFTSIZE && FreeEntry(f[fd]) && forall k | 0 <= k < fd :: !FreeEntry(f[k])
  }

  /** Asleep on an event, unless a signal is pending. */
  function Asleep(e: Proc, own: nat, event: Event): Proc {
    if e.pending != {} then e.(intr := true)
    else
      e.(status := if event == NoEvent then Status.Pause else if event == Entry(own) then Wait else Sleep,
         wait := event, intr := false)
  }

  ghost predicate ProcDone(s: State, step: Step, ticksPerSec: nat, s': State)
    requires Shape(s) && Shape(s')
    requires step.Pause? || step.Wake? || step.Signal? || step.Clock? || step.Reap? || step.Switch?
  {
    var c := s.current;
    && s'.oft == s.oft && s'.files == s.files && s'.ptotal == s.ptotal
    && (step.Switch? || (s'.current == c && s'.pp == s.pp && (step.Clock? || SameClock(s, s'))))
    && match step
       case Pause(event) => s'.procs == s.procs[c := Asleep(s.procs[c], c, event)]
       case Wake(event) => forall i | 0 <= i < PTABSIZE :: s'.procs[i] == Woken(s.procs[i], event)
       case Signal(target, sig) =>
         forall i | 0 <= i < PTABSIZE ::
           s'.procs[i] == if i == target || target == -1 then Signaled(s.procs[i], sig) else s.procs[i]
       case Clock(insys) =>
         var second := (s.sec + 1) % 256 == ticksPerSec;
         && s'.sec == (if second then 0 else (s.sec + 1) % 256) && s'.runticks == (s.runticks + 1) % 256
         && forall i | 0 <= i < PTABSIZE ::
              var e := Ticked(s.procs[i], second);
              s'.procs[i] == if i == c && !insys && s'.runticks >= e.cprio && e.status == Running
                             then e.(status := Ready) else e
       case Reap(nohang) =>
         if exists i :: 0 <= i < PTABSIZE && DeadChild(s.procs[i], c) then
           exists i | 0 <= i < PTABSIZE :: Reaped(s.procs, c, i, s.procs[i].pid, s'.procs)
         else if nohang then s'.procs == s.procs
         else s'.procs == s.procs[c := Asleep(s.procs[c], c, Entry(c))]
       case Switch =>
         && s'.current == s'.pp == FirstReady(s.procs, s.pp, 1) && s'.runticks == 0 && s'.sec == s.sec
         && s'.procs == s.procs[s'.current := s.procs[s'.current].(status := Running)]
  }

  /** From s to s' by one step. */
  ghost predicate Next(s: State, step: Step, maxticks: nat, ticksPerSec: nat, s': State)
    requires Shape(s)
  {
    && Shape(s') && s'.init == s.init && (!step.Fork? ==> s'.nextpid == s.nextpid)
    && match step
       case Fork(swapOk) =>
         if swapOk && exists i :: 0 <= i < PTABSIZE && !Occupied(s.procs[i]) then
           Forked(s, s'.current, maxticks, s')
         else
           && s'.current == s.current && s'.ptotal == s.ptotal && SameClock(s, s')
           && s'.files == s.files && s'.oft == s.oft
           && forall i | 0 <= i < PTABSIZE && (Occupied(s.procs[i]) || Occupied(s'.procs[i])) ::
                s'.procs[i] == s.procs[i]
       case Exit(exitval, leftover) => Exited(s, exitval, leftover, s')
       case Open(_) => s'.current == s.current && FileDone(s, step, s')
       case Close(_) => s'.current == s.current && FileDone(s, step, s')
       case Dup(_) => s'.current == s.current && FileDone(s, step, s')
       case Dup2(_, _) => s'.current == s.current && FileDone(s, step, s')
       case _ => ProcDone(s, step, ticksPerSec, s')
  }

  // ---------- What every step keeps ----------

  /** Processes that are not alive have no descriptors. */
  ghost predicate Released(t: seq<Proc>, fs: seq<Files>) {
    && |t| == |fs| == PTABSIZE
    && forall p, fd | 0 <= p < PTABSIZE && 0 <= fd < UFTSIZE && !Alive(t[p]) :: FreeEntry(fs[p][fd])
  }

  ghost predicate KernelOk(t: ProcTable, f: FileTable)
    reads t, t.ptab, f.of_tab, f.u_files
  {
    t.Good() && f.Good() && Released(t.ptab[..], f.u_files[..])
  }

  /** Steps that only the process table sees, and that leave everybody alive who was. */
  lemma ReleasedKept(t: seq<Proc>, t': seq<Proc>, fs: seq<Files>)
    requires Released(t, fs) && |t'| == |t| && forall i | 0 <= i < |t| :: Alive(t[i]) ==> Alive(t'[i])
    ensures Released(t', fs)
  {
  }

  lemma OpenFilesShape(f: FileTable)
    requires f.Good()
    ensures f.of_tab.Length == OFTSIZE && f.u_files.Length == PTABSIZE
  {
  }

  lemma ShapeIs(t: ProcTable, f: FileTable)
    requires t.Good() && f.Good()
    ensures Shape(Snap(t, f))
  {
    OpenFilesShape(f);
  }

  method DoFork(t: ProcTable, f: FileTable, swapOk: bool, maxticks: nat)
    requires KernelOk(t, f) && t.ptab[t.current].status == Running && Shape(Snap(t, f))
    modifies t, t.ptab, f.of_tab, f.u_files
    ensures KernelOk(t, f) && Next(old(Snap(t, f)), Fork(swapOk), maxticks, 0, Snap(t, f))
    ensures old(t.current) == t.current || f.u_files[t.current] == old(f.u_files[t.current])
  {
    hide Sound, CountAlive, Counted, NextFree;
    OpenFilesShape(f);
    ghost var t0, fs := t.ptab[..], f.u_files[..];
    var parent := t.current;
    var child := t.DoFork(swapOk, maxticks);
    if child == -1 {
      ReleasedKept(t0, t.ptab[..], fs);
    } else {
      f.Inherit(parent, child);
      PidThere(t.ptab[..], t.initproc, child);
      assert t.ptab[..][child] == Fresh(t.nextpid).(status := Running, parent := parent, cprio := maxticks,
                                                    ignored := t0[parent].ignored);
      assert !Occupied(t0[child]);
    }
    ShapeIs(t, f);
  }

  lemma PidThere(t: seq<Proc>, init: nat, p: nat)
    requires Sound(t, init) && p < |t| && Occupied(t[p])
    ensures 0 < t[p].pid < PIDLIMIT
  {
  }

  method DoExit(t: ProcTable, f: FileTable, exitval: nat, leftover: nat)
    requires KernelOk(t, f) && Alive(t.ptab[t.current]) && t.current != t.initproc && Shape(Snap(t, f))
    modifies t, t.ptab, f.of_tab, f.u_files
    ensures KernelOk(t, f) && Next(old(Snap(t, f)), Exit(exitval, leftover), 0, 0, Snap(t, f))
  {
    hide Sound, CountAlive, Counted;
    OpenFilesShape(f);
    f.CloseAll(t.current);
    OpenFilesShape(f);
    t.DoExit(exitval, leftover);
    ShapeIs(t, f);
  }

  method Perform(t: ProcTable, f: FileTable, step: Step, maxticks: nat, ticksPerSec: nat)
    requires KernelOk(t, f) && Shape(Snap(t, f)) && Enabled(Snap(t, f), step) && Documented(Snap(t, f), step)
    modifies t, t.ptab, f.of_tab, f.u_files
    ensures KernelOk(t, f) && Next(old(Snap(t, f)), step, maxticks, ticksPerSec, Snap(t, f))
  {
    hide Sound, CountAlive, Counted, Forked, Exited, FileDone, ProcDone;
    OpenFilesShape(f);
    ghost var t0, fs := t.ptab[..], f.u_files[..];
    if step.Fork? {
      DoFork(t, f, step.swapOk, maxticks);
    } else if step.Exit? {
      DoExit(t, f, step.exitval, step.leftover);
    } else if step.Open? || step.Close? || step.Dup? || step.Dup2? {
      FileStep(t, f, step);
    } else {
      ProcStep(t, f, step, ticksPerSec);
      ReleasedKept(t0, t.ptab[..], fs);
    }
    ShapeIs(t, f);
  }

  /** Calls on the current process's descriptors. */
  method FileStep(t: ProcTable, f: FileTable, step: Step)
    requires KernelOk(t, f) && t.ptab[t.current].status == Running
    requires step.Open? || step.Close? || step.Dup? || step.Dup2?
    requires Shape(Snap(t, f)) && Documented(Snap(t, f), step)
    modifies f.of_tab, f.u_files
    ensures KernelOk(t, f) && Shape(Snap(t, f)) && FileDone(old(Snap(t, f)), step, Snap(t, f))
  {
    hide Sound, CountAlive, Counted;
    OpenFilesShape(f);
    ghost var p, fs, oft := t.current, f.u_files[..], f.of_tab[..];
    if step.Open? {
      var fd := f.SysOpen(t.current, step.lookup);
      if fd != -1 {
        ghost var o := f.u_files[p][fd];
        assert Lowest(fs[p], fd) && f.u_files[p] == fs[p][fd := o] && oft[o].refs == 0;
        assert f.of_tab[..] == oft[o := Oft(1, step.lookup.inode)];
      }
    } else if step.Close? {
      var r := f.DoClose(t.current, step.fd);
    } else if step.Dup? {
      var newd := f.SysDup(t.current, step.fd);
      if newd != -1 {
        assert Lowest(fs[p], newd) && FreeEntry(fs[p][newd]);
      }
    } else {
      var r, stray := f.SysDup2(t.current, step.oldd, step.newd);
      assert !stray;
    }
    OpenFilesShape(f);
  }

  /** Steps that only the process table sees. */
  method ProcStep(t: ProcTable, f: FileTable, step: Step, ticksPerSec: nat)
    requires t.Good() && Shape(Snap(t, f)) && Enabled(Snap(t, f), step)
    requires step.Pause? || step.Wake? || step.Signal? || step.Clock? || step.Reap? || step.Switch?
    modifies t, t.ptab
    ensures t.Good() && forall i | 0 <= i < PTABSIZE :: old(Alive(t.ptab[i])) ==> Alive(t.ptab[i])
    ensures Shape(Snap(t, f)) && ProcDone(old(Snap(t, f)), step, ticksPerSec, Snap(t, f))
    ensures t.nextpid == old(t.nextpid)
  {
    hide Sound, CountAlive, ProcDone;
    if step.Reap? {
      ReapStep(t, f, step, ticksPerSec);
    } else if step.Wake? || step.Signal? {
      WakeStep(t, f, step, ticksPerSec);
    } else {
      TurnStep(t, f, step, ticksPerSec);
    }
  }

  method WakeStep(t: ProcTable, f: FileTable, step: Step, ticksPerSec: nat)
    requires t.Good() && Shape(Snap(t, f)) && Enabled(Snap(t, f), step) && (step.Wake? || step.Signal?)
    modifies t.ptab
    ensures t.Good() && forall i | 0 <= i < PTABSIZE :: old(Alive(t.ptab[i])) ==> Alive(t.ptab[i])
    ensures Shape(Snap(t, f)) && ProcDone(old(Snap(t, f)), step, ticksPerSec, Snap(t, f))
    ensures t.nextpid == old(t.nextpid)
  {
    hide Sound, CountAlive, Woken, Signaled;
    ghost var t0 := t.ptab[..];
    if step.Wake? {
      t.Wakeup(step.event);
    } else {
      t.SendSig(step.target, step.sig);
    }
    FamilyKept(t0, t.ptab[..], t.initproc);
  }

  method TurnStep(t: ProcTable, f: FileTable, step: Step, ticksPerSec: nat)
    requires t.Good() && Shape(Snap(t, f)) && Enabled(Snap(t, f), step)
    requires step.Pause? || step.Clock? || step.Switch?
    modifies t, t.ptab
    ensures t.Good() && forall i | 0 <= i < PTABSIZE :: old(Alive(t.ptab[i])) ==> Alive(t.ptab[i])
    ensures Shape(Snap(t, f)) && ProcDone(old(Snap(t, f)), step, ticksPerSec, Snap(t, f))
    ensures t.nextpid == old(t.nextpid)
  {
    hide Sound, CountAlive, FirstReady;
    if step.Pause? {
      t.PSleep(step.event);
    } else if step.Clock? {
      var switch := t.ClkInt(step.insys, ticksPerSec);
    } else {
      t.SwapIn();
    }
  }

  method ReapStep(t: ProcTable, f: FileTable, step: Step, ticksPerSec: nat)
    requires t.Good() && Shape(Snap(t, f)) && Enabled(Snap(t, f), step) && step.Reap?
    modifies t.ptab
    ensures t.Good() && forall i | 0 <= i < PTABSIZE :: old(Alive(t.ptab[i])) ==> Alive(t.ptab[i])
    ensures Shape(Snap(t, f)) && ProcDone(old(Snap(t, f)), step, ticksPerSec, Snap(t, f))
    ensures t.nextpid == old(t.nextpid)
  {
    hide Sound, CountAlive;
    ghost var t0 := t.ptab[..];
    var pid := t.DoWait(step.nohang);
    if pid > 0 {
      ghost var i :| Reaped(t0, t.current, i, pid, t.ptab[..]);
      assert forall k | 0 <= k < PTABSIZE :: t.ptab[..][k] == if k == i then t0[k].(status := Empty) else t0[k];
    } else if pid == 0 {
      assert forall k | 0 <= k < PTABSIZE :: t.ptab[..][k] == t0[k];
    }
  }

  /** The state the system starts in: init runs, and nothing is open. */
  predicate Booted(s: State) {
    && Shape(s) && s.current == s.init && s.procs[s.init].status == Running && s.procs[s.init].parent == s.init
    && (forall i | 0 <= i < PTABSIZE && i != s.init :: !Occupied(s.procs[i]))
    && forall p, fd | 0 <= p < PTABSIZE && 0 <= fd < UFTSIZE :: FreeEntry(s.files[p][fd])
  }

  /** A run from there: every step that can happen does what Next says, the others are passed over. */
  ghost predicate Traced(steps: seq<Step>, n: nat, hist: seq<State>, maxticks: nat, ticksPerSec: nat) {
    && n <= |steps| && |hist| == n + 1 && Booted(hist[0]) && (forall k | 0 <= k <= n :: Shape(hist[k]))
    && forall k | 0 <= k < n ::
         if Enabled(hist[k], steps[k]) && Documented(hist[k], steps[k])
         then Next(hist[k], steps[k], maxticks, ticksPerSec, hist[k + 1])
         else hist[k + 1] == hist[k]
  }

  /** After any run of steps from the start of the system: each step has done what it should, occupied
      entries have distinct positive numbers and living parents, the number of living processes is right,
      every open-file entry counts exactly the descriptors that name it, and no descriptor names an
      unused entry. */
  method Run(steps: seq<Step>, maxticks: nat, ticksPerSec: nat)
    returns (t: ProcTable, f: FileTable, ghost hist: seq<State>)
    ensures KernelOk(t, f)
    ensures Traced(steps, |steps|, hist, maxticks, ticksPerSec) && hist[|steps|] == Snap(t, f)
    ensures forall i | 0 <= i < PTABSIZE && Occupied(t.ptab[i]) :: 0 < t.ptab[i].pid < PIDLIMIT
    ensures forall i, j | 0 <= i < j < PTABSIZE && Occupied(t.ptab[i]) && Occupied(t.ptab[j]) ::
              t.ptab[i].pid != t.ptab[j].pid
    ensures forall i | 0 <= i < PTABSIZE && Occupied(t.ptab[i]) ::
              0 <= t.ptab[i].parent < PTABSIZE && Alive(t.ptab[t.ptab[i].parent])
    ensures t.ptotal == CountAlive(t.ptab[..])
    ensures forall o: Byte | o < OFTSIZE :: f.of_tab[o].refs == AllUses(f.u_files[..], o) <= PTABSIZE * UFTSIZE
    ensures forall p, fd | 0 <= p < PTABSIZE && 0 <= fd < UFTSIZE && !FreeEntry(f.u_files[p][fd]) ::
              f.u_files[p][fd] < OFTSIZE && f.of_tab[f.u_files[p][fd]].refs > 0 && f.of_tab[f.u_files[p][fd]].inode >= 0
  {
    hide Sound, CountAlive, Counted, Next, Enabled, Documented;
    t := new ProcTable(maxticks);
    f := new FileTable();
    ShapeIs(t, f);
    hist := [Snap(t, f)];
    var n := 0;
    while n < |steps|
      invariant 0 <= n <= |steps| && KernelOk(t, f)
      invariant Traced(steps, n, hist, maxticks, ticksPerSec) && hist[n] == Snap(t, f)
      invariant fresh(t) && fresh(t.ptab) && fresh(f.of_tab) && fresh(f.u_files)
    {
      ghost var s := Snap(t, f);
      if Enabled(Snap(t, f), steps[n]) && Documented(Snap(t, f), steps[n]) {
        Perform(t, f, steps[n], maxticks, ticksPerSec);
      }
      NextShape(s, steps[n], maxticks, ticksPerSec, Snap(t, f));
      hist := hist + [Snap(t, f)];
      n := n + 1;
    }
    RunProcs(t.ptab[..], t.initproc);
    RunFiles(f.of_tab[..], f.u_files[..]);
  }

  lemma NextShape(s: State, step: Step, maxticks: nat, ticksPerSec: nat, s': State)
    requires Shape(s)
    ensures s == s' || Next(s, step, maxticks, ticksPerSec, s') ==> Shape(s')
  {
  }

  lemma RunProcs(t: seq<Proc>, init: nat)
    requires Sound(t, init)
    ensures forall i | 0 <= i < PTABSIZE && Occupied(t[i]) :: 0 < t[i].pid < PIDLIMIT
    ensures forall i, j | 0 <= i < j < PTABSIZE && Occupied(t[i]) && Occupied(t[j]) :: t[i].pid != t[j].pid
    ensures forall i | 0 <= i < PTABSIZE && Occupied(t[i]) :: 0 <= t[i].parent < PTABSIZE && Alive(t[t[i].parent])
  {
    forall i | 0 <= i < PTABSIZE && Occupied(t[i]) ensures 0 <= t[i].parent < PTABSIZE && Alive(t[t[i].parent]) {
      assert ParentOk(t, init, i);
    }
  }

  lemma RunFiles(oft: seq<Oft>, fs: seq<Files>)
    requires Counted(oft, fs, -1, 0)
    ensures forall o: Byte | o < OFTSIZE :: oft[o].refs == AllUses(fs, o) <= PTABSIZE * UFTSIZE
    ensures forall p, fd | 0 <= p < PTABSIZE && 0 <= fd < UFTSIZE && !FreeEntry(fs[p][fd]) ::
              fs[p][fd] < OFTSIZE && oft[fs[p][fd]].refs > 0 && oft[fs[p][fd]].inode >= 0
  {
    forall p, fd | 0 <= p < PTABSIZE && 0 <= fd < UFTSIZE && !FreeEntry(fs[p][fd])
      ensures fs[p][fd] < OFTSIZE && oft[fs[p][fd]].refs > 0 && oft[fs[p][fd]].inode >= 0
    {
      OpenFiles.Referred(oft, fs, p, fd);
    }
  }
}
