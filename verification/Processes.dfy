/** The process table: fork's allocation of entries and numbers, sleep, wakeup, signals, the clock,
    exit, wait, and the round-robin choice of the next process. */
module Processes {
  import opened Blocks

  const PTABSIZE := 13
  const PIDLIMIT := 0x8000
  const SIGALRM := 11

  datatype Status = Empty | Zombie | Forking | Running | Ready | Sleep | XSleep | Pause | Wait | Stopped

  /** What a process can wait for: nothing, a process table entry, or something else. */
  datatype Event = NoEvent | Entry(i: int) | Other(n: nat)

  /** A process table entry; parent is the index of the parent's entry, -1 for NULL. */
  datatype Proc = Proc(status: Status, pid: nat, parent: int, wait: Event, pending: set<nat>, ignored: set<nat>,
                       intr: bool, alarm: nat, exitval: nat, cprio: nat)

  /** The numbers behind the status names, by which the kernel compares them. */
  function Rank(s: Status): nat {
    match s
    case Empty => 0
    case Zombie => 1
    case Forking => 2
    case Running => 3
    case Ready => 4
    case Sleep => 5
    case XSleep => 6
    case Pause => 7
    case Wait => 8
    case Stopped => 9
  }

  predicate Occupied(e: Proc) {
    e.status != Empty
  }

  predicate Alive(e: Proc) {
    Rank(e.status) > Rank(Zombie)
  }

  // ---------- What every step keeps ----------

  /** Occupied entries have distinct positive numbers. */
  ghost predicate PidsOk(t: seq<Proc>) {
    && (forall i | 0 <= i < |t| && Occupied(t[i]) :: 0 < t[i].pid < PIDLIMIT)
    && (forall i, j | 0 <= i < j < |t| && Occupied(t[i]) && Occupied(t[j]) :: t[i].pid != t[j].pid)
  }

  /** An occupied entry's parent is the entry of a living process, and only init can be its own. */
  predicate ParentOk(t: seq<Proc>, init: nat, i: nat)
    requires i < |t|
  {
    Occupied(t[i]) ==> 0 <= t[i].parent < |t| && Alive(t[t[i].parent]) && (t[i].parent == i ==> i == init)
  }

  ghost predicate Sound(t: seq<Proc>, init: nat) {
    && |t| == PTABSIZE && init < PTABSIZE && Alive(t[init]) && PidsOk(t)
    && forall i | 0 <= i < |t| :: ParentOk(t, init, i)
  }

  lemma PidsKept(t: seq<Proc>, t': seq<Proc>)
    requires PidsOk(t) && |t'| == |t|
    requires forall i | 0 <= i < |t| :: Occupied(t'[i]) ==> Occupied(t[i]) && t'[i].pid == t[i].pid
    ensures PidsOk(t')
  {
  }

  lemma ParentsKept(t: seq<Proc>, t': seq<Proc>, init: nat)
    requires |t'| == |t| && forall i | 0 <= i < |t| :: ParentOk(t, init, i)
    requires forall i | 0 <= i < |t| :: Alive(t[i]) ==> Alive(t'[i])
    requires forall i | 0 <= i < |t| :: Occupied(t'[i]) ==> Occupied(t[i]) && t'[i].parent == t[i].parent
    ensures forall i | 0 <= i < |t| :: ParentOk(t', init, i)
  {
    forall i | 0 <= i < |t| ensures ParentOk(t', init, i) {
      assert ParentOk(t, init, i);
    }
  }

  /** How many processes are alive. */
  function CountAlive(t: seq<Proc>): (n: nat)
    ensures n <= |t|
  {
    if t == [] then 0 else CountAlive(t[..|t| - 1]) + if Alive(t[|t| - 1]) then 1 else 0
  }

  lemma {:induction false} CountSet(t: seq<Proc>, i: nat, e: Proc)
    requires i < |t|
    ensures CountAlive(t[i := e]) == CountAlive(t) + (if Alive(e) then 1 else 0) - (if Alive(t[i]) then 1 else 0)
    decreases |t|
  {
    var n := |t| - 1;
    if i == n {
      assert t[i := e][..n] == t[..n];
    } else {
      assert t[i := e][..n] == t[..n][i := e];
      CountSet(t[..n], i, e);
    }
  }

  lemma {:induction false} CountSame(t: seq<Proc>, t': seq<Proc>)
    requires |t| == |t'| && forall i | 0 <= i < |t| :: Alive(t[i]) == Alive(t'[i])
    ensures CountAlive(t) == CountAlive(t')
    decreases |t|
  {
    if t != [] {
      CountSame(t[..|t| - 1], t'[..|t| - 1]);
    }
  }

  /** Steps that leave numbers, parents, and who is alive or occupied alone. */
  predicate SameFamily(e: Proc, e': Proc) {
    e'.pid == e.pid && e'.parent == e.parent && Occupied(e) == Occupied(e') && Alive(e) == Alive(e')
  }

  lemma FamilyKept(t: seq<Proc>, t': seq<Proc>, init: nat)
    requires Sound(t, init) && |t'| == |t| && forall i | 0 <= i < |t| :: SameFamily(t[i], t'[i])
    ensures Sound(t', init) && CountAlive(t') == CountAlive(t)
  {
    hide PidsOk, ParentOk;
    CountSame(t, t');
    PidsKept(t, t');
    ParentsKept(t, t', init);
  }

  // ---------- Numbers ----------

  /** ++nextpid, kept positive in 16 bits. */
  function NextPid(n: nat): nat {
    if n + 1 >= PIDLIMIT then 1 else n + 1
  }

  /** No occupied entry has this number. */
  ghost predicate NoneHas(t: seq<Proc>, pid: nat) {
    forall i | 0 <= i < |t| && Occupied(t[i]) :: t[i].pid != pid
  }

  function NthPid(n: nat, k: nat): nat {
    if k == 0 then n else NextPid(NthPid(n, k - 1))
  }

  /** The k-th number after n, going round from 0x7FFF to 1. */
  function Later(n: nat, k: nat): int {
    if n + k <= 0x7FFF then n + k else n + k - 0x7FFF
  }

  lemma {:induction false} NthPidIs(n: nat, k: nat)
    requires n < PIDLIMIT && 1 <= k < PIDLIMIT
    ensures NthPid(n, k) == Later(n, k)
    decreases k
  {
    if k > 1 {
      NthPidIs(n, k - 1);
    }
  }

  /** The search does not come back to a number it has tried. */
  lemma NthPidDistinct(n: nat, a: nat, b: nat)
    requires n < PIDLIMIT && 1 <= a < b < PIDLIMIT
    ensures NthPid(n, a) != NthPid(n, b)
  {
    NthPidIs(n, a);
    NthPidIs(n, b);
  }

  /** The entries that made the search go on: one for each number tried. */
  ghost predicate Hits(t: seq<Proc>, n: nat, hits: seq<int>) {
    forall k | 0 <= k < |hits| :: 0 <= hits[k] < |t| && Occupied(t[hits[k]]) && t[hits[k]].pid == NthPid(n, k + 1)
  }

  /** pid is the first number after n that no occupied entry has. */
  ghost predicate NextFree(t: seq<Proc>, n: nat, pid: nat) {
    exists k | 1 <= k < PIDLIMIT ::
      pid == Later(n, k) && NoneHas(t, pid) && forall m | 1 <= m < k :: !NoneHas(t, Later(n, m))
  }

  /** The first number of all. */
  lemma FirstIsOne(t: seq<Proc>, pid: nat)
    requires NextFree(t, 0, pid) && forall i | 0 <= i < |t| :: !Occupied(t[i])
    ensures pid == 1
  {
    assert NoneHas(t, Later(0, 1));
  }

  lemma FirstFree(t: seq<Proc>, n: nat, hits: seq<int>, pid: nat)
    requires n < PIDLIMIT && Hits(t, n, hits) && |hits| <= PTABSIZE && pid == NthPid(n, |hits| + 1) && NoneHas(t, pid)
    ensures NextFree(t, n, pid)
  {
    NthPidIs(n, |hits| + 1);
    forall m | 1 <= m < |hits| + 1 ensures !NoneHas(t, Later(n, m)) {
      NthPidIs(n, m);
      assert t[hits[m - 1]].pid == NthPid(n, m);
    }
  }

  /** So the search ends: it cannot hit more entries than there are. */
  lemma HitsBound(t: seq<Proc>, n: nat, hits: seq<int>)
    requires n < PIDLIMIT && |t| == PTABSIZE && Hits(t, n, hits) && |hits| < PIDLIMIT
    ensures |hits| <= PTABSIZE
  {
    forall a, b | 0 <= a < b < |hits| ensures hits[a] != hits[b] {
      NthPidDistinct(n, a + 1, b + 1);
    }
    Pigeonhole(hits, 0, PTABSIZE);
  }

  // ---------- The scheduler ----------

  /** The first READY entry after pp, going round, from the k-th after it on. */
  function FirstReady(t: seq<Proc>, pp: nat, k: nat): (p: nat)
    requires |t| == PTABSIZE && pp < PTABSIZE
    ensures p < PTABSIZE
    decreases PTABSIZE - k
  {
    if k >= PTABSIZE || t[After(pp, k)].status == Ready then After(pp, k) else FirstReady(t, pp, k + 1)
  }

  /** How many steps round from p to q, at least one. */
  function Around(p: nat, q: nat): (d: nat)
    requires p < PTABSIZE && q < PTABSIZE
    ensures 1 <= d <= PTABSIZE && After(p, d) == q
  {
    if p < q then q - p else q + PTABSIZE - p
  }

  /** It chooses a READY entry, and none between pp and that is READY. */
  lemma {:induction false} FirstReadyIs(t: seq<Proc>, pp: nat, k: nat, q: nat)
    requires |t| == PTABSIZE && pp < PTABSIZE && q < PTABSIZE && t[q].status == Ready && 1 <= k <= Around(pp, q)
    ensures var p := FirstReady(t, pp, k);
            t[p].status == Ready && (p == q || Around(p, q) < Around(pp, q))
    decreases PTABSIZE - k
  {
    if t[After(pp, k)].status != Ready {
      FirstReadyIs(t, pp, k + 1, q);
    }
  }

  /** The choices of successive calls, with whatever the table is at each. */
  function Choices(tabs: seq<seq<Proc>>, pp: nat): (c: seq<nat>)
    requires (forall n | 0 <= n < |tabs| :: |tabs[n]| == PTABSIZE) && pp < PTABSIZE
    ensures |c| == |tabs|
    decreases |tabs|
  {
    if tabs == [] then [] else
      var p := FirstReady(tabs[0], pp, 1);
      [p] + Choices(tabs[1..], p)
  }

  /** A process that is READY at each of as many calls as there are entries is chosen by one of
      them, whatever happens to the other entries between the calls. */
  lemma {:induction false} Fair(tabs: seq<seq<Proc>>, pp: nat, q: nat)
    requires pp < PTABSIZE && q < PTABSIZE && |tabs| >= Around(pp, q)
    requires forall n | 0 <= n < |tabs| :: |tabs[n]| == PTABSIZE && tabs[n][q].status == Ready
    ensures exists n :: 0 <= n < Around(pp, q) && Choices(tabs, pp)[n] == q
    decreases |tabs|
  {
    var p := FirstReady(tabs[0], pp, 1);
    FirstReadyIs(tabs[0], pp, 1, q);
    if p == q {
      assert Choices(tabs, pp)[0] == q;
    } else {
      Fair(tabs[1..], p, q);
      var n :| 0 <= n < Around(p, q) && Choices(tabs[1..], p)[n] == q;
      assert Choices(tabs, pp)[n + 1] == q;
    }
  }

  // ---------- What the steps do to an entry ----------

  /** Whoever sleeps in one way or another. */
  predicate Sleeping(s: Status) {
    s == Sleep || s == XSleep || s == Pause || s == Wait || s == Stopped
  }

  /** wakeup: whoever waits for this event. */
  function Woken(e: Proc, event: Event): (r: Proc)
    ensures SameFamily(e, r)
    ensures e.wait == event && (e.status == Ready || Sleeping(e.status)) ==> r == e.(status := Ready, wait := NoEvent)
    ensures e.wait != event || !(e.status == Ready || Sleeping(e.status)) ==> r == e
  {
    if Rank(e.status) >= Rank(Ready) && e.wait == event then e.(status := Ready, wait := NoEvent) else e
  }

  predicate Interruptible(s: Status) {
    s == Pause || s == Wait || s == Sleep
  }

  /** ssig: a signal that is not ignored becomes pending, and ends an interruptible sleep. */
  function Signaled(e: Proc, sig: nat): (r: Proc)
    ensures SameFamily(e, r)
    ensures e.status == Empty || e.status == Zombie || sig in e.ignored ==> r == e
    ensures e.status != Empty && e.status != Zombie && sig !in e.ignored ==>
              if e.status == Pause || e.status == Wait || e.status == Sleep
              then r == e.(status := Ready, wait := NoEvent, intr := true, pending := e.pending + {sig})
              else r == e.(pending := e.pending + {sig})
  {
    if !Alive(e) || sig in e.ignored then e
    else
      var f := if Interruptible(e.status) then e.(status := Ready, wait := NoEvent, intr := true) else e;
      f.(pending := e.pending + {sig})
  }

  /** A second of the alarm clock. */
  function Second(e: Proc): (r: Proc)
    ensures SameFamily(e, r)
    ensures e.alarm == 0 ==> r == e
    ensures e.alarm > 1 ==> r == e.(alarm := e.alarm - 1)
    ensures e.alarm == 1 ==> r == Signaled(e.(alarm := 0), SIGALRM)
    ensures e.alarm == 1 && (e.status == Pause || e.status == Wait || e.status == Sleep) && SIGALRM !in e.ignored ==>
              r.status == Ready && r.wait == NoEvent && r.intr && SIGALRM in r.pending
  {
    if e.alarm == 0 then e
    else
      var f := e.(alarm := e.alarm - 1);
      if f.alarm == 0 then Signaled(f, SIGALRM) else f
  }

  /** A tick of the clock, which may complete a second. */
  function Ticked(e: Proc, second: bool): Proc {
    if second then Second(e) else e
  }

  predicate DeadChild(e: Proc, parent: nat) {
    e.parent == parent && e.status == Zombie
  }

  /** The first dead child's entry is freed, and its number is the answer. */
  ghost predicate Reaped(t: seq<Proc>, parent: nat, i: int, pid: int, t': seq<Proc>) {
    && 0 <= i < |t| && DeadChild(t[i], parent) && (forall k | 0 <= k < i :: !DeadChild(t[k], parent))
    && pid == t[i].pid && t' == t[i := t[i].(status := Empty)]
  }

  /** The entry d places after pp, going round. */
  function After(pp: nat, d: nat): (p: nat)
    ensures p < PTABSIZE
  {
    (pp + d) % PTABSIZE
  }

  function Fresh(pid: nat): Proc {
    Proc(Forking, pid, -1, NoEvent, {}, {}, false, 0, 0, 0)
  }

  class ProcTable {
    const ptab: array<Proc>
    const initproc: nat
    // UDATA(u_ptab): the current process
    var current: nat
    // ptab_alloc's and nextready's static variables
    var nextpid: nat
    var pp: nat
    var ptotal: nat
    // clock counters
    var sec: nat
    var runticks: nat

    predicate Valid()
      reads this
    {
      ptab.Length == PTABSIZE && initproc < PTABSIZE && current < PTABSIZE && nextpid < PIDLIMIT && pp < PTABSIZE
    }

    /** What every step keeps. */
    ghost predicate Good()
      reads this, ptab
    {
      Valid() && Sound(ptab[..], initproc) && ptotal == CountAlive(ptab[..])
    }

    /** The first process: init, its own parent. */
    constructor (maxticks: nat)
      ensures Good() && current == initproc && ptab[current].status == Running && ptab[current].parent == initproc
      ensures ptab[current].pid == 1
      ensures fresh(ptab) && forall i | 0 <= i < PTABSIZE && i != initproc :: !Occupied(ptab[i])
    {
      initproc := 0;
      ptab := new Proc[PTABSIZE](_ => Fresh(0).(status := Empty));
      nextpid, pp, sec, runticks := 0, 0, 0, 0;
      ptotal := 1;
      current := 0;
      new;
      assert !Occupied(ptab[0]);
      ghost var t := ptab[..];
      var p := PtabAlloc();
      FirstIsOne(t, nextpid);
      NewProc(p, maxticks);
      ptab[p] := ptab[p].(status := Running);
      BootSound(ptab[..]);
    }

    // ---------- fork ----------

    /** ptab_alloc: the first free entry, cleared, with a number that no occupied entry has. */
    method PtabAlloc() returns (p: int)
      requires Valid()
      modifies ptab, this`nextpid
      ensures Valid() && (p == -1 <==> forall i | 0 <= i < PTABSIZE :: Occupied(old(ptab[i])))
      ensures p == -1 ==> ptab[..] == old(ptab[..]) && nextpid == old(nextpid)
      ensures p != -1 ==> 0 <= p < PTABSIZE && !Occupied(old(ptab[p])) && ptab[..] == old(ptab[..])[p := Fresh(nextpid)]
      ensures p != -1 ==> forall i | 0 <= i < p :: Occupied(old(ptab[i]))
      ensures p != -1 ==> 0 < nextpid && NoneHas(old(ptab[..]), nextpid)
      ensures p != -1 ==> NextFree(old(ptab[..]), old(nextpid), nextpid)
    {
      hide NextFree;
      ghost var t := ptab[..];
      p := 0;
      while p < PTABSIZE && ptab[p].status != Empty
        modifies {}
        invariant 0 <= p <= PTABSIZE && forall i | 0 <= i < p :: Occupied(ptab[i])
      {
        p := p + 1;
      }
      if p == PTABSIZE {
        return -1;
      }
      ghost var n0 := nextpid;
      ghost var hits: seq<int> := [];
      var unique := false;
      while !unique
        modifies this`nextpid
        invariant nextpid == NthPid(n0, |hits| + if unique then 1 else 0) < PIDLIMIT && (unique ==> 0 < nextpid)
        invariant Hits(t, n0, hits) && |hits| <= PTABSIZE
        invariant unique ==> NoneHas(t, nextpid)
        decreases PTABSIZE - |hits|, !unique
      {
        nextpid := NextPid(nextpid);
        var q := 0;
        while q < PTABSIZE && !(ptab[q].status != Empty && ptab[q].pid == nextpid)
          modifies {}
          invariant 0 <= q <= PTABSIZE && NoneHas(t[..q], nextpid)
        {
          q := q + 1;
        }
        if q == PTABSIZE {
          assert t[..q] == t;
          unique := true;
        } else {
          hits := hits + [q];
          HitsBound(t, n0, hits);
        }
      }
      FirstFree(t, n0, hits, nextpid);
      ptab[p] := Fresh(nextpid);
    }

    /** newproc: makes p, just allocated, a child of the current process, and current itself. */
    method NewProc(p: nat, maxticks: nat)
      requires Valid() && p < PTABSIZE
      modifies ptab, this`current, this`runticks
      ensures Valid() && current == p && runticks == 0
      ensures var e := old(ptab[p]).(parent := old(current), ignored := old(ptab[current]).ignored, cprio := maxticks);
              ptab[..] == old(ptab[..])[p := e]
    {
      runticks := 0;
      ptab[p] := ptab[p].(parent := current);
      ptab[p] := ptab[p].(ignored := ptab[current].ignored);
      ptab[p] := ptab[p].(cprio := maxticks);
      current := p;
    }

    /** dofork, as far as the process table goes: the parent becomes READY, the child RUNNING. */
    method DoFork(swapOk: bool, maxticks: nat) returns (p: int)
      requires Good() && ptab[current].status == Running
      modifies ptab, this`nextpid, this`current, this`runticks, this`ptotal
      ensures Good()
      ensures p == -1 <==> !swapOk || forall i | 0 <= i < PTABSIZE :: Occupied(old(ptab[i]))
      ensures runticks == if p == -1 then old(runticks) else 0
      ensures p == -1 ==>
                && current == old(current) && ptotal == old(ptotal)
                && forall i | 0 <= i < PTABSIZE ::
                     ptab[i] == old(ptab[i]) || !(Occupied(ptab[i]) || Occupied(old(ptab[i])))
      ensures p != -1 ==> 0 <= p < PTABSIZE && !Occupied(old(ptab[p])) && current == p && ptotal == old(ptotal) + 1
      ensures p != -1 ==>
                && ptab[p] == Fresh(nextpid).(status := Running, parent := old(current),
                                              ignored := old(ptab[current]).ignored, cprio := maxticks)
                && NoneHas(old(ptab[..]), nextpid) && NextFree(old(ptab[..]), old(nextpid), nextpid)
                && (forall i | 0 <= i < p :: Occupied(old(ptab[i])))
                && ptab[old(current)] == old(ptab[current]).(status := Ready)
                && forall i | 0 <= i < PTABSIZE && i != p && i != old(current) :: ptab[i] == old(ptab[i])
    {
      hide Sound, CountAlive, NextFree;
      ghost var t := ptab[..];
      p := PtabAlloc();
      if p == -1 {
        return;
      }
      if !swapOk {
        ptab[p] := ptab[p].(status := Empty);
        FreeSound(t, ptab[..], initproc, p);
        return -1;
      }
      ptotal := ptotal + 1;
      ptab[current] := ptab[current].(status := Ready);
      NewProc(p, maxticks);
      ptab[current] := ptab[current].(status := Running);
      ForkSound(t, ptab[..], initproc, p, old(current));
    }

    // ---------- sleep and wakeup ----------

    /** psleep, up to the switch to another process. */
    method PSleep(event: Event)
      requires Good() && ptab[current].status == Running
      modifies ptab
      ensures Good()
      ensures forall i | 0 <= i < PTABSIZE && i != current :: ptab[i] == old(ptab[i])
      ensures ptab[current] ==
              if old(ptab[current]).pending != {} then old(ptab[current]).(intr := true)
              else
                var status := if event == NoEvent then Pause else if event == Entry(current) then Wait else Sleep;
                old(ptab[current]).(status := status, wait := event, intr := false)
    {
      hide Sound, CountAlive;
      ghost var t := ptab[..];
      var sts := Pause;
      if ptab[current].pending == {} {
        if event != NoEvent {
          sts := if event == Entry(current) then Wait else Sleep;
        }
        ptab[current] := ptab[current].(status := sts, wait := event, intr := false);
      } else {
        ptab[current] := ptab[current].(intr := true);
      }
      FamilyKept(t, ptab[..], initproc);
    }

    method Wakeup(event: Event)
      requires ptab.Length == PTABSIZE
      modifies ptab
      ensures forall i | 0 <= i < PTABSIZE :: ptab[i] == Woken(old(ptab[i]), event)
      ensures forall i | 0 <= i < PTABSIZE && old(ptab[i].wait) == event ::
                var s := old(ptab[i].status);
                if s == Ready || s == Sleep || s == XSleep || s == Pause || s == Wait || s == Stopped
                then ptab[i] == old(ptab[i]).(status := Ready, wait := NoEvent)
                else ptab[i] == old(ptab[i])
      ensures forall i | 0 <= i < PTABSIZE && old(ptab[i].wait) != event :: ptab[i] == old(ptab[i])
    {
      var p := 0;
      while p < PTABSIZE
        invariant 0 <= p <= PTABSIZE
        invariant forall i | 0 <= i < PTABSIZE :: ptab[i] == if i < p then Woken(old(ptab[i]), event) else old(ptab[i])
      {
        if Rank(ptab[p].status) >= Rank(Ready) && ptab[p].wait == event {
          ptab[p] := ptab[p].(status := Ready, wait := NoEvent);
        }
        p := p + 1;
      }
    }

    // ---------- signals and the clock ----------

    method SSig(proc: int, sig: nat)
      requires ptab.Length == PTABSIZE && -1 <= proc < PTABSIZE
      modifies ptab
      ensures forall i | 0 <= i < PTABSIZE :: ptab[i] == if i == proc then Signaled(old(ptab[i]), sig) else old(ptab[i])
      ensures proc != -1 && old(Alive(ptab[proc])) && sig !in old(ptab[proc].ignored) ==>
                && sig in ptab[proc].pending
                && (old(Interruptible(ptab[proc].status)) ==> ptab[proc].status == Ready && ptab[proc].intr)
    {
      if proc == -1 || Rank(ptab[proc].status) <= Rank(Zombie) {
        return;
      }
      if sig in ptab[proc].ignored {
        return;
      }
      var stat := ptab[proc].status;
      if stat == Pause || stat == Wait || stat == Sleep {
        ptab[proc] := ptab[proc].(status := Ready, wait := NoEvent, intr := true);
      }
      ptab[proc] := ptab[proc].(pending := ptab[proc].pending + {sig});
    }

    /** To one process, or to all of them if p is -1. */
    method SendSig(p: int, sig: nat)
      requires ptab.Length == PTABSIZE && -1 <= p < PTABSIZE
      modifies ptab
      ensures forall i | 0 <= i < PTABSIZE ::
                ptab[i] == if i == p || p == -1 then Signaled(old(ptab[i]), sig) else old(ptab[i])
    {
      if p != -1 {
        SSig(p, sig);
      } else {
        var q := 0;
        while q < PTABSIZE
          invariant 0 <= q <= PTABSIZE
          invariant forall i | 0 <= i < PTABSIZE ::
                      ptab[i] == if i < q then Signaled(old(ptab[i]), sig) else old(ptab[i])
        {
          if Rank(ptab[q].status) > Rank(Zombie) {
            SSig(q, sig);
          }
          q := q + 1;
        }
      }
    }

    /** clk_int, up to the switch: whether the current process is to be switched out. */
    method ClkInt(insys: bool, ticksPerSec: nat) returns (switch: bool)
      requires Good()
      modifies ptab, this`sec, this`runticks
      ensures Good()
      ensures runticks == (old(runticks) + 1) % 256
      ensures sec == if (old(sec) + 1) % 256 == ticksPerSec then 0 else (old(sec) + 1) % 256
      ensures switch <==>
              && !insys && runticks >= old(ptab[current]).cprio
              && Ticked(old(ptab[current]), (old(sec) + 1) % 256 == ticksPerSec).status == Running
      ensures forall i | 0 <= i < PTABSIZE ::
                var e := Ticked(old(ptab[i]), (old(sec) + 1) % 256 == ticksPerSec);
                ptab[i] == if switch && i == current then e.(status := Ready) else e
    {
      hide Sound, CountAlive;
      ghost var t := ptab[..];
      sec := (sec + 1) % 256;
      if sec == ticksPerSec {
        sec := 0;
        Alarms();
      }
      ghost var u := ptab[..];
      FamilyKept(t, u, initproc);
      runticks := (runticks + 1) % 256;
      switch := runticks >= ptab[current].cprio && !insys && ptab[current].status == Running;
      if switch {
        ptab[current] := ptab[current].(status := Ready);
        FamilyKept(u, ptab[..], initproc);
      }
    }

    /** A second for the alarm clocks of all entries. */
    method Alarms()
      requires ptab.Length == PTABSIZE
      modifies ptab
      ensures forall i | 0 <= i < PTABSIZE :: ptab[i] == Second(old(ptab[i]))
    {
      var p := 0;
      while p < PTABSIZE
        invariant 0 <= p <= PTABSIZE
        invariant forall i | 0 <= i < PTABSIZE :: ptab[i] == if i < p then Second(old(ptab[i])) else old(ptab[i])
      {
        if ptab[p].alarm != 0 {
          ptab[p] := ptab[p].(alarm := ptab[p].alarm - 1);
          if ptab[p].alarm == 0 {
            SendSig(p, SIGALRM);
          }
        }
        p := p + 1;
      }
    }

    // ---------- exit and wait ----------

    /** doexit, as far as the process table goes. leftover is what the times stored over the entry
        leave in its alarm field. */
    method DoExit(exitval: nat, leftover: nat)
      requires Good() && Alive(ptab[current]) && current != initproc
      modifies ptab, this`ptotal
      ensures Good() && ptotal == old(ptotal) - 1
      ensures ptab[current] == old(ptab[current]).(status := Zombie, exitval := exitval, alarm := leftover)
      ensures forall i | 0 <= i < PTABSIZE && i != current ::
                var e := old(ptab[i]);
                var f := if Occupied(e) && e.parent == current then e.(parent := initproc) else e;
                ptab[i] == Woken(f, Entry(old(ptab[current]).parent))
      ensures var q := old(ptab[current].parent);
              && 0 <= q < PTABSIZE && q != current
              && (old(ptab[q].status) == Wait && old(ptab[q].wait) == Entry(q) ==>
                    ptab[q].status == Ready && ptab[q].wait == NoEvent)
    {
      hide Sound, CountAlive;
      ghost var t := ptab[..];
      ptab[current] := ptab[current].(status := Zombie);
      ptab[current] := ptab[current].(exitval := exitval);
      Orphans();
      ptab[current] := ptab[current].(alarm := leftover);
      ghost var u := ptab[..];
      ExitSound(t, u, initproc, current);
      ParentThere(t, initproc, current);
      Wakeup(Entry(ptab[current].parent));
      FamilyKept(u, ptab[..], initproc);
      ptotal := ptotal - 1;
    }

    /** init becomes the parent of the current process's children, dead or alive. */
    method Orphans()
      requires Valid()
      modifies ptab
      ensures forall i | 0 <= i < PTABSIZE :: var e := old(ptab[i]);
                ptab[i] == if Occupied(e) && e.parent == current && i != current then e.(parent := initproc) else e
    {
      var p := 0;
      while p < PTABSIZE
        invariant 0 <= p <= PTABSIZE
        invariant forall i | 0 <= i < PTABSIZE :: var e := old(ptab[i]);
                    ptab[i] == if i < p && Occupied(e) && e.parent == current && i != current
                               then e.(parent := initproc) else e
      {
        if ptab[p].status != Empty && ptab[p].parent == current && p != current {
          ptab[p] := ptab[p].(parent := initproc);
        }
        p := p + 1;
      }
    }

    /** One pass of dowait for any child: frees the first dead child's entry and returns its number,
        0 if there is none and the caller will not wait, and else -1, asleep until a child dies. */
    method DoWait(nohang: bool) returns (retval: int)
      requires Good() && ptab[current].status == Running
      modifies ptab
      ensures Good()
      ensures retval > 0 <==>
                exists i :: 0 <= i < PTABSIZE && old(ptab[i]).parent == current && old(ptab[i]).status == Zombie
      ensures retval > 0 ==> exists i :: Reaped(old(ptab[..]), current, i, retval, ptab[..])
      ensures retval >= -1
      ensures retval <= 0 ==> (retval == 0 <==> nohang) && (nohang ==> ptab[..] == old(ptab[..]))
      ensures retval == -1 ==> forall i | 0 <= i < PTABSIZE && i != current :: ptab[i] == old(ptab[i])
      ensures retval == -1 ==>
                ptab[current] == if old(ptab[current]).pending != {} then old(ptab[current]).(intr := true)
                                 else old(ptab[current]).(status := Wait, wait := Entry(current), intr := false)
    {
      hide Sound, CountAlive;
      ghost var t := ptab[..];
      var p := 0;
      while p < PTABSIZE
        invariant 0 <= p <= PTABSIZE && forall k | 0 <= k < p :: !DeadChild(ptab[k], current)
        invariant ptab[..] == t
      {
        if ptab[p].parent == current && ptab[p].status == Zombie {
          retval := ptab[p].pid;
          PidPositive(t, initproc, p);
          ptab[p] := ptab[p].(status := Empty);
          ReapSound(t, ptab[..], initproc, p);
          assert DeadChild(t[p], current) && Reaped(t, current, p, retval, ptab[..]);
          return;
        }
        p := p + 1;
      }
      if nohang {
        return 0;
      }
      PSleep(Entry(current));
      return -1;
    }

    // ---------- the scheduler ----------

    /** nextready: the first READY entry after the one chosen last, going round. The kernel enters
        it with no process RUNNING and one READY; it would panic or loop otherwise. */
    method NextReady() returns (p: nat)
      requires Valid() && (exists i :: 0 <= i < PTABSIZE && ptab[i].status == Ready)
      requires forall i | 0 <= i < PTABSIZE :: ptab[i].status != Running
      modifies this`pp
      ensures Valid() && pp == p < PTABSIZE && ptab[p].status == Ready && p == FirstReady(ptab[..], old(pp), 1)
      ensures forall i | 0 <= i < PTABSIZE && (if old(pp) < p then old(pp) < i < p else old(pp) < i || i < p) ::
                ptab[i].status != Ready
    {
      hide After, Around, FirstReady;
      ghost var q :| 0 <= q < PTABSIZE && ptab[q].status == Ready;
      ghost var k := 0;
      p := pp;
      AroundStart(pp, q);
      while true
        modifies {}
        invariant 0 <= k < Around(pp, q) && p == After(pp, k)
        invariant forall d | 1 <= d <= k :: ptab[After(pp, d)].status != Ready
        invariant FirstReady(ptab[..], pp, 1) == FirstReady(ptab[..], pp, k + 1)
        decreases Around(pp, q) - k
      {
        AfterNext(pp, k);
        FirstReadyNext(ptab[..], pp, k + 1);
        p := p + 1;
        if p >= PTABSIZE {
          p := 0;
        }
        k := k + 1;
        if ptab[p].status == Ready {
          break;
        }
      }
      AroundIs(pp, k, p);
      forall i | 0 <= i < PTABSIZE && (if pp < p then pp < i < p else pp < i || i < p)
        ensures ptab[i].status != Ready
      {
        BetweenIs(pp, i, p);
      }
      pp := p;
    }

    /** The rest of the switch: the chosen process runs. */
    method SwapIn()
      requires Good() && (exists i :: 0 <= i < PTABSIZE && ptab[i].status == Ready)
      requires forall i | 0 <= i < PTABSIZE :: ptab[i].status != Running
      modifies this`pp, this`current, this`runticks, ptab
      ensures Good() && ptab[current] == old(ptab[..])[current].(status := Running) && current == pp && runticks == 0
      ensures forall i | 0 <= i < PTABSIZE && i != current :: ptab[i] == old(ptab[i])
      ensures current == FirstReady(old(ptab[..]), old(pp), 1)
    {
      hide Sound, CountAlive;
      ghost var t := ptab[..];
      var p := NextReady();
      ptab[p] := ptab[p].(status := Running);
      runticks := 0;
      current := p;
      FamilyKept(t, ptab[..], initproc);
    }
  }

  lemma AroundIs(pp: nat, k: nat, p: nat)
    requires pp < PTABSIZE && 1 <= k <= PTABSIZE && p == After(pp, k)
    ensures Around(pp, p) == k
  {
  }

  /** The entries between pp and p, going round. */
  lemma BetweenIs(pp: nat, i: nat, p: nat)
    requires pp < PTABSIZE && i < PTABSIZE && p < PTABSIZE && if pp < p then pp < i < p else pp < i || i < p
    ensures 1 <= Around(pp, i) < Around(pp, p) && After(pp, Around(pp, i)) == i
  {
  }

  lemma AroundStart(pp: nat, q: nat)
    requires pp < PTABSIZE && q < PTABSIZE
    ensures After(pp, 0) == pp && After(pp, Around(pp, q)) == q
  {
  }

  lemma AfterNext(pp: nat, k: nat)
    requires pp < PTABSIZE && k < PTABSIZE
    ensures After(pp, k + 1) == if After(pp, k) + 1 >= PTABSIZE then 0 else After(pp, k) + 1
  {
  }

  lemma FirstReadyNext(t: seq<Proc>, pp: nat, k: nat)
    requires |t| == PTABSIZE && pp < PTABSIZE && k <= PTABSIZE
    ensures FirstReady(t, pp, k)
            == if k == PTABSIZE || t[After(pp, k)].status == Ready then After(pp, k) else FirstReady(t, pp, k + 1)
  {
  }

  lemma {:induction false} NoneAlive(t: seq<Proc>)
    requires forall i | 0 <= i < |t| :: !Alive(t[i])
    ensures CountAlive(t) == 0
    decreases |t|
  {
    if t != [] {
      NoneAlive(t[..|t| - 1]);
    }
  }

  lemma BootSound(t: seq<Proc>)
    requires |t| == PTABSIZE && Alive(t[0]) && 0 < t[0].pid < PIDLIMIT && t[0].parent == 0
    requires forall i | 0 < i < |t| :: !Occupied(t[i])
    ensures Sound(t, 0) && CountAlive(t) == 1
  {
    hide CountAlive;
    var e := t[0].(status := Empty);
    NoneAlive(t[0 := e]);
    CountSet(t, 0, e);
  }

  /** A fork: the child's entry names the parent's, which is that of a living process. */
  lemma ForkSound(t: seq<Proc>, t': seq<Proc>, init: nat, p: nat, c: nat)
    requires Sound(t, init) && |t'| == |t| && p < |t| && c < |t| && p != c && !Occupied(t[p]) && Alive(t[c])
    requires Alive(t'[p]) && 0 < t'[p].pid < PIDLIMIT && t'[p].parent == c && SameFamily(t[c], t'[c])
    requires NoneHas(t, t'[p].pid)
    requires forall i | 0 <= i < |t| && i != p && i != c :: t'[i] == t[i]
    ensures Sound(t', init) && CountAlive(t') == CountAlive(t) + 1
  {
    hide CountAlive;
    var u := t[p := t'[p]];
    CountSet(t, p, t'[p]);
    CountSame(u, t');
    assert PidsOk(t');
    forall i | 0 <= i < |t| ensures ParentOk(t', init, i) {
      assert ParentOk(t, init, i);
    }
  }

  /** An entry that stays free. */
  lemma FreeSound(t: seq<Proc>, t': seq<Proc>, init: nat, p: nat)
    requires Sound(t, init) && p < |t| == |t'| && !Occupied(t[p]) && !Occupied(t'[p])
    requires forall i | 0 <= i < |t| && i != p :: t'[i] == t[i]
    ensures Sound(t', init) && CountAlive(t') == CountAlive(t)
  {
    hide CountAlive, PidsOk, ParentOk;
    CountSame(t, t');
    PidsKept(t, t');
    ParentsKept(t, t', init);
  }

  lemma PidPositive(t: seq<Proc>, init: nat, i: nat)
    requires Sound(t, init) && i < |t| && Occupied(t[i])
    ensures t[i].pid > 0
  {
  }

  lemma ParentThere(t: seq<Proc>, init: nat, c: nat)
    requires Sound(t, init) && c < |t| && Occupied(t[c]) && c != init
    ensures 0 <= t[c].parent < |t| && t[c].parent != c
  {
    assert ParentOk(t, init, c);
  }

  /** An exit: no entry names the dead process's as its parent any more. */
  lemma ExitSound(t: seq<Proc>, t': seq<Proc>, init: nat, c: nat)
    requires Sound(t, init) && |t'| == |t| && c < |t| && c != init && Alive(t[c])
    requires t'[c].status == Zombie && t'[c].pid == t[c].pid && t'[c].parent == t[c].parent
    requires forall i | 0 <= i < |t| && i != c ::
               t'[i] == if Occupied(t[i]) && t[i].parent == c then t[i].(parent := init) else t[i]
    ensures Sound(t', init) && CountAlive(t') == CountAlive(t) - 1
  {
    hide CountAlive, PidsOk;
    CountSet(t, c, t'[c]);
    CountSame(t[c := t'[c]], t');
    PidsKept(t, t');
    forall i | 0 <= i < |t| ensures ParentOk(t', init, i) {
      assert ParentOk(t, init, i);
    }
  }

  /** A dead child's entry is freed: nobody names it as parent. */
  lemma ReapSound(t: seq<Proc>, t': seq<Proc>, init: nat, p: nat)
    requires Sound(t, init) && p < |t| && t[p].status == Zombie && t' == t[p := t[p].(status := Empty)]
    ensures Sound(t', init) && CountAlive(t') == CountAlive(t)
  {
    hide CountAlive, PidsOk, ParentOk;
    CountSame(t, t');
    PidsKept(t, t');
    ParentsKept(t, t', init);
  }
}
