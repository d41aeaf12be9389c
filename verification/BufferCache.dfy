/** The pool of block buffers: an LRU write-back cache that must look like the plain store of
    blocks underneath. */
module BufferCache {
  import opened Blocks

  const NULLDEV: Word := 0xFFFF

  /** A device number and a block number on it. */
  type Name = (Word, Word)

  datatype Buf = Buf(data: Block, dev: Word, blk: Word, dirty: bv8, busy: bool, prio: bool, time: Word) {
    function Name(): Name {
      (dev, blk)
    }
  }

  type Disk = map<Name, Block>

  /** The buffer that holds a block, or |pool| if none does. */
  function Find(pool: seq<Buf>, name: Name): (i: nat)
    ensures i <= |pool|
    ensures i < |pool| ==> pool[i].Name() == name
    ensures forall k | 0 <= k < i :: pool[k].Name() != name
  {
    if pool == [] then 0 else if pool[0].Name() == name then 0 else 1 + Find(pool[1..], name)
  }

  /** What the kernel takes the contents of a block to be. */
  function Logical(pool: seq<Buf>, disk: Disk, name: Name): Block
    requires name in disk
  {
    var i := Find(pool, name);
    if i < |pool| then pool[i].data else disk[name]
  }

  /** At most one buffer names a block; named blocks exist; a buffer that nobody is filling and
      that is not marked dirty holds what the disk holds; buffers without a name are clean. */
  ghost predicate Consistent(pool: seq<Buf>, disk: Disk) {
    && (forall i, j | 0 <= i < j < |pool| :: pool[i].dev != NULLDEV ==> pool[i].Name() != pool[j].Name())
    && (forall i | 0 <= i < |pool| ::
          && (pool[i].dev == NULLDEV ==> pool[i].dirty == 0)
          && (pool[i].dev != NULLDEV ==> pool[i].Name() in disk)
          && (pool[i].dev != NULLDEV && pool[i].dirty == 0 && !pool[i].busy ==> pool[i].data == disk[pool[i].Name()]))
    && (forall b: Word :: (NULLDEV, b) !in disk)
  }

  /** The buffer that may be given to another block. */
  predicate Eligible(b: Buf) {
    !b.busy && !b.prio
  }

  /** The dirty mark of a buffer after it is handed back with a mark. */
  function Marked(b: Buf, dirty: bv8): (d: bv8)
    ensures d == 0 <==> b.dirty == 0 && dirty == 0
    ensures d >= 2 <==> b.dirty >= 2 || dirty >= 2
    ensures d & 1 == 0 <==> b.dirty & 1 == 0 && dirty & 1 == 0
  {
    b.dirty | dirty
  }

  /** A free buffer whose dirty mark has no bit of mask. */
  predicate Fits(b: Buf, mask: bv8) {
    Eligible(b) && b.dirty & mask == 0
  }

  /** The age of a buffer on the 16-bit clock. */
  function Age(clock: Word, b: Buf): Word {
    (clock - b.time) % 0x1_0000
  }

  lemma FindUnique(pool: seq<Buf>, disk: Disk, i: nat)
    requires Consistent(pool, disk) && i < |pool| && pool[i].dev != NULLDEV
    ensures Find(pool, pool[i].Name()) == i
  {
    assert Find(pool, pool[i].Name()) <= i;
  }

  /** Two pools give the same contents for a block if the same data is found for it. */
  lemma LogicalFrame(pool: seq<Buf>, disk: Disk, pool': seq<Buf>, disk': Disk, name: Name)
    requires Consistent(pool, disk) && Consistent(pool', disk') && |pool'| == |pool|
    requires name in disk && name in disk'
    requires Find(pool, name) < |pool| ==>
               pool'[Find(pool, name)].Name() == name && pool'[Find(pool, name)].data == pool[Find(pool, name)].data
    requires Find(pool, name) == |pool| ==>
               disk'[name] == disk[name] && forall k | 0 <= k < |pool'| :: pool'[k].Name() != name
    ensures Logical(pool', disk', name) == Logical(pool, disk, name)
  {
    var i := Find(pool, name);
    if i < |pool| {
      assert name.0 != NULLDEV;
      FindUnique(pool', disk', i);
    }
  }

  /** Writing buffer i to the disk and unmarking it changes no contents. */
  lemma FlushOne(pool: seq<Buf>, disk: Disk, i: nat, prio: bool, busy: bool)
    requires Consistent(pool, disk) && i < |pool| && pool[i].dev != NULLDEV
    ensures var pool' := pool[i := pool[i].(dirty := 0, prio := prio, busy := busy)];
            var disk' := disk[pool[i].Name() := pool[i].data];
            && Consistent(pool', disk') && disk'.Keys == disk.Keys
            && forall name | name in disk :: Logical(pool', disk', name) == Logical(pool, disk, name)
  {
    var pool' := pool[i := pool[i].(dirty := 0, prio := prio, busy := busy)];
    var disk' := disk[pool[i].Name() := pool[i].data];
    hide Consistent, Find;
    FlushKeeps(pool, disk, i, prio, busy);
    FindUnique(pool, disk, i);
    forall name | name in disk ensures Logical(pool', disk', name) == Logical(pool, disk, name) {
      LogicalFrame(pool, disk, pool', disk', name);
    }
  }

  lemma FlushKeeps(pool: seq<Buf>, disk: Disk, i: nat, prio: bool, busy: bool)
    requires Consistent(pool, disk) && i < |pool| && pool[i].dev != NULLDEV
    ensures var disk' := disk[pool[i].Name() := pool[i].data];
            Consistent(pool[i := pool[i].(dirty := 0, prio := prio, busy := busy)], disk')
    ensures pool[i].Name() in disk
  {
  }

  /** Giving a clean buffer that nobody uses to another block: that block now reads as `data`,
      every other block reads as before. */
  lemma RenameOne(pool: seq<Buf>, disk: Disk, i: nat, b: Buf)
    requires Consistent(pool, disk) && i < |pool| && pool[i].dirty == 0 && !pool[i].busy
    requires b.dirty == 0 && b.busy
    requires b.dev != NULLDEV ==> b.Name() in disk && Find(pool, b.Name()) == |pool|
    ensures Consistent(pool[i := b], disk)
    ensures forall name | name in disk ::
              Logical(pool[i := b], disk, name) == if name == b.Name() then b.data else Logical(pool, disk, name)
  {
    hide Consistent;
    var pool' := pool[i := b];
    RenameKeeps(pool, disk, i, b);
    forall name | name in disk
      ensures Logical(pool', disk, name) == if name == b.Name() then b.data else Logical(pool, disk, name)
    {
      if name == b.Name() {
        NullNotOnDisk(pool, disk);
        FindUnique(pool', disk, i);
      } else if Find(pool, name) == i {
        NullNotOnDisk(pool, disk);
        CleanBuffer(pool, disk, i);
        NamesDiffer(pool, disk, i);
        assert forall k | 0 <= k < |pool'| :: pool'[k].Name() != name;
      } else {
        LogicalFrame(pool, disk, pool', disk, name);
      }
    }
  }

  lemma RenameKeeps(pool: seq<Buf>, disk: Disk, i: nat, b: Buf)
    requires Consistent(pool, disk) && i < |pool| && b.dirty == 0 && b.busy
    requires b.dev != NULLDEV ==> b.Name() in disk && Find(pool, b.Name()) == |pool|
    ensures Consistent(pool[i := b], disk)
  {
  }

  /** Changing the data or the flags of a busy buffer in place. */
  lemma TouchOne(pool: seq<Buf>, disk: Disk, i: nat, b: Buf)
    requires Consistent(pool, disk) && i < |pool| && b.Name() == pool[i].Name()
    requires b.dev == NULLDEV ==> b.dirty == 0
    requires b.dev != NULLDEV && b.dirty == 0 && !b.busy ==> b.data == disk[b.Name()]
    ensures Consistent(pool[i := b], disk)
    ensures forall name | name in disk ::
              Logical(pool[i := b], disk, name) == if name == b.Name() then b.data else Logical(pool, disk, name)
  {
    hide Consistent, Find;
    var pool' := pool[i := b];
    TouchKeeps(pool, disk, i, b);
    forall name | name in disk
      ensures Logical(pool', disk, name) == if name == b.Name() then b.data else Logical(pool, disk, name)
    {
      if name == b.Name() {
        NullNotOnDisk(pool, disk);
        FindUnique(pool', disk, i);
      } else {
        LogicalFrame(pool, disk, pool', disk, name);
      }
    }
  }

  lemma TouchKeeps(pool: seq<Buf>, disk: Disk, i: nat, b: Buf)
    requires Consistent(pool, disk) && i < |pool| && b.Name() == pool[i].Name()
    requires b.dev == NULLDEV ==> b.dirty == 0
    requires b.dev != NULLDEV && b.dirty == 0 && !b.busy ==> b.data == disk[b.Name()]
    ensures Consistent(pool[i := b], disk)
  {
  }

  /** What the kernel does with buffers, named by the blocks in them. */
  datatype Use =
    | Take(name: Name, rewrite: nat)
    | Look(name: Name)
    | Overwrite(name: Name, data: Block)
    | HandBack(name: Name, mark: bv8)
    | Hole
    | Sync

  /** What the users of the pool know of it: the plain store of blocks, the blocks whose buffers
      they hold, those among them that must be handed back marked, and the blocks taken for
      rewriting and not written since, which may read as anything. */
  datatype Holding = Holding(store: Disk, held: set<Name>, changed: set<Name>, raw: set<Name>) {
    /** A block is not taken twice, one buffer more is needed than is held, only what is held is
        looked at, overwritten or handed back, and changed blocks are handed back marked. */
    predicate Legal(u: Use, nbufs: nat) {
      match u
      case Take(name, _) => name in store && name !in held && |held| < nbufs
      case Look(name) => name in held && name !in raw
      case Overwrite(name, _) => name in held
      case HandBack(name, mark) => name in held && (name in changed ==> mark != 0)
      case Hole => |held| < nbufs
      case Sync => true
    }

    /** The effect on the plain store, which knows of no buffers. */
    function After(u: Use): Holding {
      match u
      case Take(name, rewrite) =>
        if rewrite == 0 then this.(held := held + {name})
        else if rewrite == 1 then this.(held := held + {name}, changed := changed + {name}, raw := raw + {name})
        else Holding(store[name := ZeroBlock()], held + {name}, changed + {name}, raw - {name})
      case Overwrite(name, data) =>
        this.(store := store[name := data], changed := changed + {name}, raw := raw - {name})
      case HandBack(name, _) => this.(held := held - {name}, changed := changed - {name})
      case _ => this
    }

    predicate LegalRun(uses: seq<Use>, nbufs: nat)
      decreases |uses|
    {
      uses == [] || (Legal(uses[0], nbufs) && After(uses[0]).LegalRun(uses[1..], nbufs))
    }

    function AfterRun(uses: seq<Use>): Holding
      decreases |uses|
    {
      if uses == [] then this else After(uses[0]).AfterRun(uses[1..])
    }

    /** What a look shows. */
    function Seen(u: Use): seq<Block> {
      if u.Look? && u.name in store then [store[u.name]] else []
    }

    /** What the looks of a run show, read from the plain store. */
    function Shown(uses: seq<Use>): seq<Block>
      decreases |uses|
    {
      if uses == [] then []
      else Seen(uses[0]) + After(uses[0]).Shown(uses[1..])
    }
  }

  /** The pool stands for what its users know: every block not left raw reads as the plain store
      says, and the busy buffers are exactly those of the blocks held. */
  ghost predicate Tracks(pool: seq<Buf>, disk: Disk, h: Holding) {
    && Consistent(pool, disk) && h.store.Keys == disk.Keys && Shows(pool, disk, h)
    && (forall name | name in h.held :: name in disk && Find(pool, name) < |pool| && pool[Find(pool, name)].busy)
    && (forall k | 0 <= k < |pool| :: !pool[k].prio && Known(pool[k], disk, h))
  }

  ghost predicate Shows(pool: seq<Buf>, disk: Disk, h: Holding)
    requires h.store.Keys == disk.Keys
  {
    forall name | name in disk && name !in h.raw :: Logical(pool, disk, name) == h.store[name]
  }

  /** A busy buffer belongs to a held block, and without a mark and without changes it holds what
      the disk holds. */
  ghost predicate Known(b: Buf, disk: Disk, h: Holding) {
    b.busy ==>
      && b.Name() in h.held && b.dev != NULLDEV
      && (b.dirty == 0 && b.Name() !in h.changed ==> b.Name() in disk && b.data == disk[b.Name()])
  }

  /** Buffers of distinct blocks, all held, are no more than the blocks held. */
  lemma {:induction false} NoMoreThanHeld(pool: seq<Buf>, held: set<Name>)
    requires forall i, j | 0 <= i < j < |pool| :: pool[i].Name() != pool[j].Name()
    requires forall k | 0 <= k < |pool| :: pool[k].Name() in held
    ensures |pool| <= |held|
  {
    if pool != [] {
      var last := |pool| - 1;
      NoMoreThanHeld(pool[..last], held - {pool[last].Name()});
    }
  }

  /** While fewer blocks are held than there are buffers, one of the buffers can be given away. */
  lemma OneFree(pool: seq<Buf>, disk: Disk, h: Holding) returns (k: nat)
    requires Tracks(pool, disk, h) && |h.held| < |pool|
    ensures k < |pool| && Eligible(pool[k])
  {
    hide Logical, Find;
    if forall k | 0 <= k < |pool| :: pool[k].busy {
      NoMoreThanHeld(pool, h.held);
    }
    k :| 0 <= k < |pool| && !pool[k].busy;
  }

  /** Buffer n was given to another block, overwritten, or handed back. What is known stays true
      if it is true of that buffer and its block. */
  lemma MovedOne(pool: seq<Buf>, disk: Disk, h: Holding, pool': seq<Buf>, disk': Disk, h': Holding, n: nat)
    requires Tracks(pool, disk, h) && Consistent(pool', disk')
    requires n < |pool| == |pool'| && forall k | 0 <= k < |pool| && k != n :: pool'[k] == pool[k]
    requires disk'.Keys == disk.Keys == h'.store.Keys
    requires forall name | name in disk && name != pool[n].Name() :: disk'[name] == disk[name]
    requires Shows(pool', disk', h')
    requires forall name | name in h'.held ::
               || (name == pool'[n].Name() && name.0 != NULLDEV && pool'[n].busy)
               || (name in h.held && Find(pool, name) != n)
    requires forall name | name in h.held :: name in h'.held || name == pool[n].Name()
    requires forall name | name in h.changed :: name in h'.changed || name == pool[n].Name()
    requires !pool'[n].prio && Known(pool'[n], disk', h')
    ensures Tracks(pool', disk', h')
  {
    hide Consistent, Logical, Find, Known;
    forall name | name in h'.held
      ensures name in disk' && Find(pool', name) < |pool'| && pool'[Find(pool', name)].busy
    {
      StillBusy(pool, disk, h, pool', disk', name, n);
    }
    forall k | 0 <= k < |pool'| && k != n ensures !pool'[k].prio && Known(pool'[k], disk', h') {
      StillKnown(pool, disk, h, pool', disk', h', n, k);
    }
  }

  lemma StillBusy(pool: seq<Buf>, disk: Disk, h: Holding, pool': seq<Buf>, disk': Disk, name: Name, n: nat)
    requires Tracks(pool, disk, h) && Consistent(pool', disk')
    requires n < |pool| == |pool'| && forall k | 0 <= k < |pool| && k != n :: pool'[k] == pool[k]
    requires || (name == pool'[n].Name() && name.0 != NULLDEV && pool'[n].busy)
             || (name in h.held && Find(pool, name) != n)
    ensures name in disk' && Find(pool', name) < |pool'| && pool'[Find(pool', name)].busy
  {
    hide Consistent, Logical;
    var i := if name == pool'[n].Name() && name.0 != NULLDEV && pool'[n].busy then n else Find(pool, name);
    assert i != n ==> Known(pool[i], disk, h);
    CleanBuffer(pool', disk', i);
    FindUnique(pool', disk', i);
  }

  lemma StillKnown(pool: seq<Buf>, disk: Disk, h: Holding, pool': seq<Buf>, disk': Disk, h': Holding, n: nat, k: nat)
    requires Consistent(pool, disk) && Consistent(pool', disk')
    requires k < |pool| && k != n < |pool| == |pool'| && pool'[k] == pool[k] && Known(pool[k], disk, h)
    requires disk'.Keys == disk.Keys
    requires forall name | name in disk && name != pool[n].Name() :: disk'[name] == disk[name]
    requires forall name | name in h.held :: name in h'.held || name == pool[n].Name()
    requires forall name | name in h.changed :: name in h'.changed || name == pool[n].Name()
    ensures Known(pool'[k], disk', h')
  {
    hide Consistent;
    if pool[k].busy {
      NamesDiffer(pool, disk, k);
    }
  }

  /** Once every buffer is handed back and clean, the disk is the plain store. */
  lemma AllOnDisk(pool: seq<Buf>, disk: Disk, h: Holding)
    requires Tracks(pool, disk, h) && h.held == {} && forall k | 0 <= k < |pool| :: pool[k].dirty == 0
    ensures forall name | name in disk && name !in h.raw :: disk[name] == h.store[name]
  {
    forall name | name in disk && name !in h.raw ensures disk[name] == h.store[name] {
      var i := Find(pool, name);
      if i < |pool| {
        assert Known(pool[i], disk, h);
      }
    }
  }

  /** A block that may be taken is in no busy buffer, and a buffer is free for it. */
  lemma Takeable(pool: seq<Buf>, disk: Disk, h: Holding, name: Name) returns (free: nat)
    requires Tracks(pool, disk, h) && name in h.store && name !in h.held && |h.held| < |pool|
    ensures name in disk && name.0 != NULLDEV && free < |pool| && Eligible(pool[free])
    ensures Find(pool, name) < |pool| ==> !pool[Find(pool, name)].busy
  {
    hide Logical;
    free := OneFree(pool, disk, h);
    var f := Find(pool, name);
    assert f < |pool| ==> Known(pool[f], disk, h);
  }

  lemma FreeNotHeld(pool: seq<Buf>, disk: Disk, h: Holding, n: nat)
    requires Tracks(pool, disk, h) && n < |pool| && !pool[n].busy
    ensures forall name | name in h.held :: Find(pool, name) != n
    ensures !pool[n].prio
  {
    hide Consistent, Logical;
  }

  /** The result of bread, by what the users know. */
  lemma Taken(pool: seq<Buf>, disk: Disk, h: Holding, pool': seq<Buf>, disk': Disk, name: Name, rewrite: nat, n: nat)
    requires Tracks(pool, disk, h) && h.Legal(Take(name, rewrite), |pool|) && Consistent(pool', disk')
    requires n < |pool| == |pool'| && forall k | 0 <= k < |pool| && k != n :: pool'[k] == pool[k]
    requires disk'.Keys == disk.Keys && name in disk && name.0 != NULLDEV && !pool[n].busy
    requires pool'[n].Name() == name && pool'[n].busy && pool'[n].prio == pool[n].prio
    requires forall x | x in disk && x != pool[n].Name() :: disk'[x] == disk[x]
    requires forall x | x in disk && x != name :: Logical(pool', disk', x) == Logical(pool, disk, x)
    requires rewrite == 0 ==>
               && pool'[n].data == Logical(pool, disk, name)
               && (pool'[n].dirty == 0 ==> pool'[n].data == disk'[name])
    requires rewrite > 1 ==> pool'[n].data == ZeroBlock()
    ensures Tracks(pool', disk', h.After(Take(name, rewrite)))
  {
    var h' := h.After(Take(name, rewrite));
    TakenShows(pool, disk, h, pool', disk', name, rewrite, n);
    hide Consistent, Logical, Find, Shows;
    FreeNotHeld(pool, disk, h, n);
    assert Known(pool'[n], disk', h');
    hide Tracks, Known;
    MovedOne(pool, disk, h, pool', disk', h', n);
  }

  lemma TakenShows(pool: seq<Buf>, disk: Disk, h: Holding, pool': seq<Buf>, disk': Disk, name: Name, rewrite: nat,
                   n: nat)
    requires Tracks(pool, disk, h) && h.Legal(Take(name, rewrite), |pool|) && Consistent(pool', disk')
    requires n < |pool'| && disk'.Keys == disk.Keys && name in disk && pool'[n].Name() == name && name.0 != NULLDEV
    requires forall x | x in disk && x != name :: Logical(pool', disk', x) == Logical(pool, disk, x)
    requires rewrite == 0 ==> pool'[n].data == Logical(pool, disk, name)
    requires rewrite > 1 ==> pool'[n].data == ZeroBlock()
    ensures h.After(Take(name, rewrite)).store.Keys == disk'.Keys && Shows(pool', disk', h.After(Take(name, rewrite)))
  {
    hide Consistent, Logical, Known;
    BufferIs(pool', disk', n);
  }

  lemma TracksNow(pool: seq<Buf>, disk: Disk, h: Holding)
    requires Tracks(pool, disk, h)
    ensures Consistent(pool, disk) && forall k | 0 <= k < |pool| :: !pool[k].prio
  {
  }

  /** Buffers whose marks went, those with a mark being on the disk now. */
  lemma SyncedAll(pool: seq<Buf>, disk: Disk, pool': seq<Buf>, disk': Disk, h: Holding)
    requires Tracks(pool, disk, h) && Consistent(pool', disk') && |pool'| == |pool| && disk'.Keys == disk.Keys
    requires forall name | name in disk :: Logical(pool', disk', name) == Logical(pool, disk, name)
    requires forall k | 0 <= k < |pool| :: pool'[k] == pool[k].(dirty := 0)
    requires forall k | 0 <= k < |pool| && pool[k].dev != NULLDEV && pool[k].dirty != 0 ::
               pool'[k].Name() in disk' && disk'[pool'[k].Name()] == pool'[k].data
    requires forall k | 0 <= k < |pool| && pool[k].dev != NULLDEV && pool[k].dirty == 0 ::
               && pool'[k].Name() in disk' && pool'[k].Name() in disk
               && disk'[pool'[k].Name()] == disk[pool'[k].Name()]
    ensures Tracks(pool', disk', h)
  {
    hide Consistent, Logical;
    forall name | name in h.held
      ensures name in disk' && Find(pool', name) < |pool'| && pool'[Find(pool', name)].busy
    {
      var i := Find(pool, name);
      assert Known(pool[i], disk, h);
      FindUnique(pool', disk', i);
    }
    forall k | 0 <= k < |pool'| ensures !pool'[k].prio && Known(pool'[k], disk', h) {
      assert Known(pool[k], disk, h);
    }
  }

  class BufPool {
    const pool: array<Buf>
    var disk: Disk
    var clock: Word
    var dirtyMask: bool
    var zeroName: Word

    ghost predicate Valid()
      reads this, pool
    {
      Consistent(pool[..], disk)
    }

    function Contents(name: Name): Block
      requires name in disk
      reads this, pool
    {
      Logical(pool[..], disk, name)
    }

    /** bufinit: all buffers are free and nameless. */
    constructor (nbufs: nat, disk: Disk)
      requires forall b: Word :: (NULLDEV, b) !in disk
      ensures Valid() && fresh(pool) && pool.Length == nbufs && this.disk == disk
      ensures forall k | 0 <= k < nbufs :: Eligible(pool[k]) && pool[k].dev == NULLDEV
      ensures forall name | name in disk :: Contents(name) == disk[name]
      ensures Tracks(pool[..], disk, Holding(disk, {}, {}, {}))
    {
      pool := new Buf[nbufs](i => Buf(ZeroBlock(), NULLDEV, 0, 0, false, false, 0));
      this.disk := disk;
      clock, dirtyMask, zeroName := 0, false, 0;
    }
  
    /** Contents of every block are as before; no block appears or disappears. */
    twostate predicate SameContents()
      reads this, pool
    {
      disk.Keys == old(disk.Keys)
      && forall name | name in disk && name in old(disk) :: Contents(name) == old(Contents(name))
    }

    /** Among the buffers in use by nobody whose dirty mark has no bit of mask, buffer k is a
        least recently used one. */
    ghost predicate Oldest(k: nat, mask: bv8)
      reads this, pool
    {
      && k < pool.Length && Fits(pool[k], mask)
      && forall n | 0 <= n < pool.Length && Fits(pool[n], mask) ::
           Age(clock, pool[n]) <= Age(clock, pool[k])
    }

    /** One pass of freebuf over the pool. Returns pool.Length if no buffer qualifies. */
    method Scan(mask: bv8) returns (oldest: nat)
      ensures oldest <= pool.Length
      ensures oldest < pool.Length ==> Oldest(oldest, mask)
      ensures oldest == pool.Length ==> forall n | 0 <= n < pool.Length :: !Fits(pool[n], mask)
    {
      hide Fits, Age;
      oldest := pool.Length;
      var oldtime: Word := 0;
      var n := 0;
      while n < pool.Length
        invariant 0 <= n <= pool.Length
        invariant oldest == pool.Length || oldest < n
        invariant oldest == pool.Length ==> oldtime == 0 && forall m | 0 <= m < n :: !Fits(pool[m], mask)
        invariant oldest < n ==>
                    && Fits(pool[oldest], mask) && oldtime == Age(clock, pool[oldest])
                    && forall m | 0 <= m < n && Fits(pool[m], mask) :: Age(clock, pool[m]) <= oldtime
      {
        if Fits(pool[n], mask) {
          var diff := Age(clock, pool[n]);
          if diff >= oldtime {
            oldest := n;
            oldtime := diff;
          }
        }
        n := n + 1;
      }
    }

    /** k is the buffer freebuf prefers: the least recently used one whose mark has bit 0 clear, or,
        if no free buffer has, the least recently used one. A mark 2 that dirty_mask has delayed counts
        as clear. */
    ghost predicate Preferred(k: nat)
      reads this, pool
    {
      Oldest(k, 1) || (Oldest(k, 0) && forall n :: !Oldest(n, 1))
    }

    /** The search of freebuf. Without a free buffer the loop of the kernel would never end. */
    method Pick() returns (oldest: nat)
      requires exists k :: 0 <= k < pool.Length && Eligible(pool[k])
      ensures Preferred(oldest) && oldest < pool.Length && !pool[oldest].busy && !pool[oldest].prio
      ensures forall k | 0 <= k < pool.Length && !pool[k].busy && !pool[k].prio ::
                && (pool[k].dirty & 1 == 0 ==> pool[oldest].dirty & 1 == 0)
                && (pool[k].dirty & 1 == pool[oldest].dirty & 1 ==>
                      (clock - pool[k].time) % 0x1_0000 <= (clock - pool[oldest].time) % 0x1_0000)
    {
      var i: bv8 := 1;
      oldest := pool.Length;
      ghost var k :| 0 <= k < pool.Length && Eligible(pool[k]);
      while oldest == pool.Length
        invariant oldest <= pool.Length
        invariant i == 1 || i == 0
        invariant i == 0 && oldest == pool.Length ==> forall n :: !Oldest(n, 1)
        invariant oldest < pool.Length ==> Preferred(oldest)
        decreases if oldest < pool.Length then 0 else 1 + i as int
      {
        oldest := Scan(i);
        assert pool[k].dirty & 0 == 0;
        i := i ^ 1;
      }
      PreferredIs(oldest);
    }

    lemma PreferredIs(oldest: nat)
      requires Preferred(oldest)
      ensures oldest < pool.Length && !pool[oldest].busy && !pool[oldest].prio
      ensures forall k | 0 <= k < pool.Length && !pool[k].busy && !pool[k].prio ::
                && (pool[k].dirty & 1 == 0 ==> pool[oldest].dirty & 1 == 0)
                && (pool[k].dirty & 1 == pool[oldest].dirty & 1 ==>
                      (clock - pool[k].time) % 0x1_0000 <= (clock - pool[oldest].time) % 0x1_0000)
    {
      forall k | 0 <= k < pool.Length && !pool[k].busy && !pool[k].prio
        ensures pool[k].dirty & 1 == 0 ==> pool[oldest].dirty & 1 == 0
        ensures pool[k].dirty & 1 == pool[oldest].dirty & 1 ==> Age(clock, pool[k]) <= Age(clock, pool[oldest])
      {
        if pool[k].dirty & 1 == 0 {
          var n := OneOldest(1, k);
        }
        assert pool[k].dirty & 0 == 0;
      }
    }

    /** If any buffer fits, one of them is a least recently used one. */
    lemma OneOldest(mask: bv8, k: nat) returns (n: nat)
      requires k < pool.Length && Fits(pool[k], mask)
      ensures Oldest(n, mask)
      decreases 0x1_0000 - Age(clock, pool[k])
    {
      n := k;
      if !Oldest(k, mask) {
        var m :| 0 <= m < pool.Length && Fits(pool[m], mask) && Age(clock, pool[m]) > Age(clock, pool[k]);
        n := OneOldest(mask, m);
      }
    }

    /** freebuf: takes the preferred buffer, writing it out first if it is dirty. */
    method FreeBuf() returns (oldest: nat)
      requires Valid() && exists k :: 0 <= k < pool.Length && Eligible(pool[k])
      modifies pool, this`disk
      ensures Valid() && SameContents()
      ensures old(Preferred(oldest)) && oldest < pool.Length && Eligible(pool[oldest])
      ensures forall k | 0 <= k < pool.Length && !old(pool[k]).busy && !old(pool[k]).prio ::
                && (old(pool[k]).dirty & 1 == 0 ==> old(pool[oldest]).dirty & 1 == 0)
                && (old(pool[k]).dirty & 1 == old(pool[oldest]).dirty & 1 ==>
                      (clock - old(pool[k]).time) % 0x1_0000 <= (clock - old(pool[oldest]).time) % 0x1_0000)
      ensures pool[..] == old(pool[..])[oldest := old(pool[oldest]).(dirty := 0)]
      ensures disk == if old(pool[oldest].dirty) == 0 then old(disk)
                      else old(disk)[old(pool[oldest].Name()) := old(pool[oldest].data)]
    {
      hide Consistent, Logical;
      oldest := Pick();
      if pool[oldest].dirty != 0 {
        ghost var before := pool[..];
        DirtyNamed(before, disk, oldest);
        FlushOne(before, disk, oldest, pool[oldest].prio, pool[oldest].busy);
        ghost var b := before[oldest];
        assert b.(dirty := 0) == b.(dirty := 0, prio := b.prio, busy := b.busy);
        disk := disk[pool[oldest].Name() := pool[oldest].data];
        pool[oldest] := pool[oldest].(dirty := 0);
        assert pool[..] == before[oldest := before[oldest].(dirty := 0)];
      }
    }
  
    /** bread: the buffer for a block, found in the pool or read into the preferred buffer. With
        rewrite 1 the caller will overwrite it and it may hold anything; with 2 it is zeroed. */
    method Bread(dev: Word, blk: Word, rewrite: nat) returns (n: nat)
      requires Valid() && dev != NULLDEV && (dev, blk) in disk
      requires var f := Find(pool[..], (dev, blk));
               if f < pool.Length then !pool[f].busy else exists k :: 0 <= k < pool.Length && Eligible(pool[k])
      modifies pool, this`disk, this`clock
      ensures Valid() && disk.Keys == old(disk.Keys)
      ensures n < pool.Length && pool[n].Name() == (dev, blk) && pool[n].busy
      ensures clock == (old(clock) + 1) % 0x1_0000 && pool[n].time == clock
      ensures rewrite == 0 ==> pool[n].data == old(Contents((dev, blk)))
      ensures rewrite == 0 && pool[n].dirty == 0 ==> pool[n].data == disk[(dev, blk)]
      ensures pool[n].prio == old(pool[n].prio)
      ensures rewrite > 1 ==> pool[n].data == ZeroBlock()
      ensures forall name | name in disk && name != (dev, blk) :: Contents(name) == old(Contents(name))
      ensures forall k | 0 <= k < pool.Length && k != n :: pool[k] == old(pool[k])
      ensures old(Find(pool[..], (dev, blk))) < pool.Length ==>
              n == old(Find(pool[..], (dev, blk))) && disk == old(disk)
      ensures n == old(Find(pool[..], (dev, blk))) ==> pool[n].dirty == old(pool[n].dirty)
      ensures old(Find(pool[..], (dev, blk))) == pool.Length ==>
                && old(Preferred(n)) && pool[n].dirty == 0 && old(Eligible(pool[n]))
                && disk == if old(pool[n].dirty) == 0 then old(disk)
                           else old(disk)[old(pool[n].Name()) := old(pool[n].data)]
    {
      hide Consistent, Logical, Preferred;
      n := Search(dev, blk);
      if n == pool.Length {
        n := Load(dev, blk, rewrite);
      } else {
        PresentReadsBuffer(pool[..], disk, (dev, blk));
        CleanBuffer(pool[..], disk, n);
      }
      ghost var mid := pool[..];
      clock := (clock + 1) % 0x1_0000;
      var data := if rewrite > 1 then ZeroBlock() else pool[n].data;
      TouchOne(mid, disk, n, mid[n].(data := data, busy := true, time := clock));
      pool[n] := pool[n].(data := data, busy := true, time := clock);
      assert pool[..] == mid[n := pool[n]];
    }

    /** bread for a block that no buffer holds: a buffer is freed, renamed and, unless it will
        be overwritten, read. */
    method Load(dev: Word, blk: Word, rewrite: nat) returns (n: nat)
      requires Valid() && dev != NULLDEV && (dev, blk) in disk
      requires Find(pool[..], (dev, blk)) == pool.Length && exists k :: 0 <= k < pool.Length && Eligible(pool[k])
      modifies pool, this`disk
      ensures Valid() && disk.Keys == old(disk.Keys)
      ensures n < pool.Length && pool[n].Name() == (dev, blk) && pool[n].dirty == 0
      ensures old(Preferred(n)) && old(Eligible(pool[n]))
      ensures disk == if old(pool[n].dirty) == 0 then old(disk)
                      else old(disk)[old(pool[n].Name()) := old(pool[n].data)]
      ensures rewrite == 0 ==> pool[n].data == old(Contents((dev, blk)))
      ensures rewrite == 0 && pool[n].dirty == 0 ==> pool[n].data == disk[(dev, blk)]
      ensures pool[n].prio == old(pool[n].prio)
      ensures forall name | name in disk && name != (dev, blk) :: Contents(name) == old(Contents(name))
      ensures forall k | 0 <= k < pool.Length && k != n :: pool[k] == old(pool[k])
    {
      hide Consistent, Logical, Preferred;
      n := FreeBuf();
      ghost var before := pool[..];
      StillAbsent(old(pool[..]), before, n, (dev, blk));
      AbsentReadsDisk(old(pool[..]), old(disk), (dev, blk));
      AbsentReadsDisk(before, disk, (dev, blk));
      var data := if rewrite == 0 then disk[(dev, blk)] else pool[n].data;
      RenameOne(before, disk, n, before[n].(dev := dev, blk := blk, data := data, busy := true));
      pool[n] := pool[n].(dev := dev, blk := blk, data := data, busy := true);
      assert pool[..] == before[n := pool[n]];
    }

    /** The search of bread. */
    method Search(dev: Word, blk: Word) returns (n: nat)
      ensures n == Find(pool[..], (dev, blk))
    {
      n := 0;
      while n < pool.Length
        invariant 0 <= n <= pool.Length
        invariant forall k | 0 <= k < n :: pool[k].Name() != (dev, blk)
      {
        if pool[n].dev == dev && pool[n].blk == blk {
          return;
        }
        n := n + 1;
      }
    }
  
    /** bfree: hands a buffer back, marked dirty if asked; mark 2 writes it out at once unless
        writing is being delayed. A buffer handed back unmarked must still hold what it was
        read with, and one without a name must be clean (the kernel panics otherwise). */
    method Bfree(n: nat, dirty: bv8)
      requires Valid() && n < pool.Length
      requires pool[n].dev == NULLDEV ==> dirty == 0
      requires pool[n].dev != NULLDEV && Marked(pool[n], dirty) == 0 ==> pool[n].data == disk[pool[n].Name()]
      modifies pool, this`disk
      ensures Valid() && SameContents()
      ensures old(Marked(pool[n], dirty)) >= 2 && !dirtyMask ==>
                && pool[n] == old(pool[n]).(dirty := 0, busy := false, prio := false)
                && disk == old(disk)[pool[n].Name() := pool[n].data]
      ensures !(old(Marked(pool[n], dirty)) >= 2 && !dirtyMask) ==>
                && pool[n] == old(pool[n]).(dirty := old(Marked(pool[n], dirty)), busy := false)
                && disk == old(disk)
      ensures (dirty >= 2 || old(pool[n].dirty) >= 2) && !dirtyMask ==>
                pool[n].dirty == 0 && pool[n].Name() in disk && disk[pool[n].Name()] == pool[n].data
      ensures dirtyMask || (dirty < 2 && old(pool[n].dirty) < 2) ==>
                disk == old(disk) && (pool[n].dirty == 0 <==> dirty == 0 && old(pool[n].dirty) == 0)
      ensures !pool[n].busy && forall k | 0 <= k < pool.Length && k != n :: pool[k] == old(pool[k])
    {
      hide Consistent, Logical, Marked;
      ghost var before := pool[..];
      CleanBuffer(before, disk, n);
      var d := Marked(pool[n], dirty);
      if d >= 2 && !dirtyMask {
        FlushOne(before, disk, n, false, false);
        disk := disk[pool[n].Name() := pool[n].data];
        pool[n] := pool[n].(dirty := 0, busy := false, prio := false);
      } else {
        FlagOne(before, disk, n, before[n].(dirty := d, busy := false));
        pool[n] := pool[n].(dirty := d, busy := false);
      }
      assert pool[..] == before[n := pool[n]];
    }

    /** zerobuf: a zeroed buffer that belongs to no block. */
    method ZeroBuf() returns (n: nat)
      requires Valid() && exists k :: 0 <= k < pool.Length && Eligible(pool[k])
      modifies pool, this`disk, this`clock, this`zeroName
      ensures Valid() && SameContents()
      ensures n < pool.Length && pool[n].dev == NULLDEV && pool[n].busy && pool[n].data == ZeroBlock()
      ensures old(Preferred(n)) && clock == (old(clock) + 1) % 0x1_0000 && pool[n].time == clock
      ensures old(Eligible(pool[n])) && pool[n].dirty == 0 && !pool[n].prio
      ensures disk == if old(pool[n].dirty) == 0 then old(disk)
                      else old(disk)[old(pool[n].Name()) := old(pool[n].data)]
      ensures forall k | 0 <= k < pool.Length && k != n :: pool[k] == old(pool[k])
    {
      hide Consistent, Logical, Preferred;
      n := FreeBuf();
      ghost var before := pool[..];
      zeroName := (zeroName + 1) % 0x1_0000;
      clock := (clock + 1) % 0x1_0000;
      NullNotOnDisk(before, disk);
      RenameOne(before, disk, n,
                before[n].(dev := NULLDEV, blk := zeroName, busy := true, time := clock, data := ZeroBlock()));
      pool[n] := pool[n].(dev := NULLDEV, blk := zeroName, busy := true, time := clock, data := ZeroBlock());
      assert pool[..] == before[n := pool[n]];
    }

    /** The body of bufsync's loop: writes a buffer back unless it is pinned. */
    method SyncOne(n: nat)
      requires Valid() && n < pool.Length
      modifies pool, this`disk
      ensures Valid() && SameContents()
      ensures pool[n] == old(pool[n]).(dirty := if old(pool[n]).prio then old(pool[n]).dirty else 0)
      ensures forall k | 0 <= k < pool.Length && k != n :: pool[k] == old(pool[k])
      ensures disk == if old(pool[n].dirty) == 0 || pool[n].prio then old(disk)
                      else old(disk)[pool[n].Name() := pool[n].data]
      ensures pool[n].dev != NULLDEV ==> pool[n].Name() in disk
      ensures pool[n].dev != NULLDEV && !pool[n].prio && (old(pool[n].dirty) != 0 || !pool[n].busy) ==>
                disk[pool[n].Name()] == pool[n].data
      ensures forall k | 0 <= k < pool.Length && pool[k].Name() in old(disk)
                         && (k != n || old(pool[k].dirty) == 0) ::
                pool[k].Name() in disk && disk[pool[k].Name()] == old(disk[pool[k].Name()])
    {
      hide Consistent, Logical, Find;
      ghost var before := pool[..];
      CleanBuffer(before, disk, n);
      if pool[n].dev != NULLDEV {
        NamesDiffer(before, disk, n);
      }
      if pool[n].dev != NULLDEV && pool[n].dirty != 0 && !pool[n].prio {
        FlushOne(before, disk, n, pool[n].prio, pool[n].busy);
        disk := disk[pool[n].Name() := pool[n].data];
        pool[n] := pool[n].(dirty := 0);
        assert before[n].(dirty := 0) == before[n].(dirty := 0, prio := before[n].prio, busy := before[n].busy);
        assert pool[..] == before[n := pool[n]];
      }
    }

    /** bufsync: writes every dirty buffer except those that must stay in memory. Afterwards
        the disk holds the contents of every block, unless its buffer must stay in memory or is
        just being filled. */
    method Bufsync()
      requires Valid()
      modifies pool, this`disk, this`dirtyMask
      ensures Valid() && SameContents() && !dirtyMask
      ensures forall k | 0 <= k < pool.Length :: pool[k] == old(pool[k]).(dirty := pool[k].dirty)
      ensures forall k | 0 <= k < pool.Length && !pool[k].prio :: pool[k].dirty == 0
      ensures forall k | 0 <= k < pool.Length && !pool[k].prio && pool[k].dev != NULLDEV
                         && (old(pool[k].dirty) != 0 || !pool[k].busy) ::
                pool[k].Name() in disk && disk[pool[k].Name()] == pool[k].data
      ensures forall name | name in disk && Find(pool[..], name) == pool.Length :: disk[name] == Contents(name)
      ensures forall k | 0 <= k < pool.Length && pool[k].dev != NULLDEV && old(pool[k].dirty) == 0 ::
                && pool[k].Name() in disk && pool[k].Name() in old(disk)
                && disk[pool[k].Name()] == old(disk[pool[k].Name()])
    {
      hide Consistent, Logical, Find;
      dirtyMask := false;
      forall k | 0 <= k < pool.Length && pool[k].dev != NULLDEV ensures pool[k].Name() in disk {
        CleanBuffer(pool[..], disk, k);
      }
      var n := 0;
      while n < pool.Length
        invariant 0 <= n <= pool.Length && Valid() && SameContents() && !dirtyMask
        invariant forall k | 0 <= k < pool.Length :: pool[k] == old(pool[k]).(dirty := pool[k].dirty)
        invariant forall k | n <= k < pool.Length :: pool[k] == old(pool[k])
        invariant forall k | 0 <= k < n && !pool[k].prio :: pool[k].dirty == 0
        invariant forall k | 0 <= k < n && !pool[k].prio && pool[k].dev != NULLDEV
                             && (old(pool[k].dirty) != 0 || !pool[k].busy) ::
                    pool[k].Name() in disk && disk[pool[k].Name()] == pool[k].data
        invariant forall k | 0 <= k < pool.Length && pool[k].dev != NULLDEV && old(pool[k].dirty) == 0 ::
                    && pool[k].Name() in disk && pool[k].Name() in old(disk)
                    && disk[pool[k].Name()] == old(disk[pool[k].Name()])
      {
        SyncOne(n);
        n := n + 1;
      }
      forall name | name in disk && Find(pool[..], name) == pool.Length ensures disk[name] == Contents(name) {
        AbsentReadsDisk(pool[..], disk, name);
      }
    }

    /** Nobody holds a buffer, and some buffer may be given away. */
    ghost predicate Idle()
      reads this, pool
    {
      (forall k | 0 <= k < pool.Length :: !pool[k].busy) && exists k :: 0 <= k < pool.Length && Eligible(pool[k])
    }

    /** The plain store of blocks that the cache stands for. */
    ghost function View(): Disk
      reads this, pool
    {
      map name | name in disk :: Contents(name)
    }

    /** da_read: one block, through the cache. */
    method Read(dev: Word, blk: Word) returns (data: Block)
      requires Valid() && Idle() && dev != NULLDEV && (dev, blk) in disk
      modifies pool, this`disk, this`clock
      ensures Valid() && Idle() && View() == old(View()) && data == View()[(dev, blk)]
    {
      hide Consistent, Logical, Preferred, Marked, Find;
      ghost var free :| 0 <= free < pool.Length && Eligible(pool[free]);
      var n := Bread(dev, blk, 0);
      data := pool[n].data;
      ghost var before := pool[..];
      BufferIs(before, disk, n);
      Bfree(n, 0);
      assert Eligible(pool[free]);
    }

    /** The caller overwrites a busy buffer. */
    method PutData(n: nat, data: Block)
      requires Valid() && n < pool.Length && pool[n].dev != NULLDEV && pool[n].busy
      modifies pool
      ensures Valid() && pool[n] == old(pool[n]).(data := data)
      ensures forall k | 0 <= k < pool.Length && k != n :: pool[k] == old(pool[k])
      ensures forall name | name in disk ::
                Contents(name) == if name == pool[n].Name() then data else old(Contents(name))
    {
      hide Consistent, Logical;
      ghost var before := pool[..];
      NullNotOnDisk(before, disk);
      TouchOne(before, disk, n, before[n].(data := data));
      pool[n] := pool[n].(data := data);
      assert pool[..] == before[n := pool[n]];
    }

    /** da_write: a whole block, into a buffer that is not read first. */
    method Write(dev: Word, blk: Word, data: Block)
      requires Valid() && Idle() && dev != NULLDEV && (dev, blk) in disk
      modifies pool, this`disk, this`clock
      ensures Valid() && Idle() && View() == old(View())[(dev, blk) := data]
    {
      hide Consistent, Logical, Preferred, Marked, View, Idle;
      ghost var free := IdleIs();
      ghost var was := View();
      ViewIs();
      var n := Bread(dev, blk, 1);
      PutData(n, data);
      Bfree(n, 1);
      assert !pool[n].busy && Eligible(pool[free]);
      NowIdle(free);
      ViewPut(was, (dev, blk), data);
    }

    /** The buffer of a block that is held; its user has kept the pointer. */
    method Mine(name: Name, ghost h: Holding) returns (n: nat)
      requires Tracks(pool[..], disk, h) && name in h.held
      ensures n < pool.Length && n == Find(pool[..], name) && pool[n].Name() == name && pool[n].busy
      ensures pool[n].dev != NULLDEV && !pool[n].prio && name in disk && Known(pool[n], disk, h)
      ensures Contents(name) == pool[n].data
    {
      hide Consistent, Logical;
      n := Search(name.0, name.1);
      assert pool[..][n] == pool[n];
      BufferIs(pool[..], disk, n);
    }

    method PerformTake(name: Name, rewrite: nat, ghost h: Holding)
      requires Tracks(pool[..], disk, h) && h.Legal(Take(name, rewrite), pool.Length)
      modifies pool, this`disk, this`clock
      ensures Tracks(pool[..], disk, h.After(Take(name, rewrite))) && disk.Keys == old(disk.Keys)
    {
      hide Tracks, Consistent, Logical, Preferred, Find, Known;
      ghost var before, was := pool[..], disk;
      ghost var free := Takeable(before, was, h, name);
      assert Eligible(pool[free]);
      TracksNow(before, was, h);
      var n := Bread(name.0, name.1, rewrite);
      Taken(before, was, h, pool[..], disk, name, rewrite, n);
    }

    method PerformOverwrite(name: Name, data: Block, ghost h: Holding)
      requires Tracks(pool[..], disk, h) && name in h.held
      modifies pool
      ensures Tracks(pool[..], disk, h.After(Overwrite(name, data)))
    {
      hide Consistent, Logical, Find;
      ghost var before := pool[..];
      var n := Mine(name, h);
      OthersElsewhere(before, disk, h, n);
      PutData(n, data);
      MovedOne(before, disk, h, pool[..], disk, h.After(Overwrite(name, data)), n);
    }

    method PerformHandBack(name: Name, mark: bv8, ghost h: Holding)
      requires Tracks(pool[..], disk, h) && h.Legal(HandBack(name, mark), pool.Length)
      modifies pool, this`disk
      ensures Tracks(pool[..], disk, h.After(HandBack(name, mark))) && disk.Keys == old(disk.Keys)
    {
      hide Consistent, Logical, Find, Marked;
      ghost var before, was := pool[..], disk;
      var n := Mine(name, h);
      OthersElsewhere(before, was, h, n);
      Bfree(n, mark);
      MovedOne(before, was, h, pool[..], disk, h.After(HandBack(name, mark)), n);
    }

    method PerformHole(ghost h: Holding)
      requires Tracks(pool[..], disk, h) && |h.held| < pool.Length
      modifies pool, this`disk, this`clock, this`zeroName
      ensures Tracks(pool[..], disk, h) && disk.Keys == old(disk.Keys)
    {
      hide Consistent, Logical, Preferred, Find, Marked;
      ghost var before, was := pool[..], disk;
      ghost var free := OneFree(before, was, h);
      assert Eligible(pool[free]);
      var n := ZeroBuf();
      Bfree(n, 0);
      FreeNotHeld(before, was, h, n);
      MovedOne(before, was, h, pool[..], disk, h, n);
    }

    method PerformSync(ghost h: Holding)
      requires Tracks(pool[..], disk, h)
      modifies pool, this`disk, this`dirtyMask
      ensures Tracks(pool[..], disk, h) && disk.Keys == old(disk.Keys)
      ensures forall k | 0 <= k < pool.Length :: pool[k].dirty == 0
    {
      hide Tracks, Consistent, Logical, Find;
      ghost var before, was := pool[..], disk;
      TracksNow(before, was, h);
      Bufsync();
      SyncedAll(before, was, pool[..], disk, h);
    }

    /** One use. */
    method Perform(u: Use, ghost h: Holding) returns (seen: seq<Block>)
      requires Tracks(pool[..], disk, h) && h.Legal(u, pool.Length)
      modifies pool, this`disk, this`clock, this`zeroName, this`dirtyMask
      ensures Tracks(pool[..], disk, h.After(u)) && disk.Keys == old(disk.Keys) && seen == h.Seen(u)
    {
      hide Tracks, Consistent, Logical, Find, Known;
      seen := [];
      match u
      case Take(name, rewrite) =>
        PerformTake(name, rewrite, h);
      case Look(name) =>
        var n := Mine(name, h);
        LookIs(h, name);
        seen := [pool[n].data];
      case Overwrite(name, data) =>
        PerformOverwrite(name, data, h);
      case HandBack(name, mark) =>
        PerformHandBack(name, mark, h);
      case Hole =>
        PerformHole(h);
      case Sync =>
        PerformSync(h);
    }

    /** Any run of uses, by any number of users at once as long as a buffer is left: what they see
        is what the plain store holds. */
    method Run(uses: seq<Use>, ghost h: Holding) returns (shown: seq<Block>)
      requires Tracks(pool[..], disk, h) && h.LegalRun(uses, pool.Length)
      modifies pool, this`disk, this`clock, this`zeroName, this`dirtyMask
      ensures Tracks(pool[..], disk, h.AfterRun(uses)) && disk.Keys == old(disk.Keys)
      ensures shown == h.Shown(uses)
    {
      hide Tracks;
      shown := [];
      ghost var now := h;
      for i := 0 to |uses|
        invariant Tracks(pool[..], disk, now) && now.LegalRun(uses[i..], pool.Length)
        invariant disk.Keys == old(disk.Keys) && now.AfterRun(uses[i..]) == h.AfterRun(uses)
        invariant shown + now.Shown(uses[i..]) == h.Shown(uses)
      {
        assert uses[i..][0] == uses[i] && uses[i..][1..] == uses[i + 1..];
        var seen := Perform(uses[i], now);
        shown := shown + seen;
        now := now.After(uses[i]);
      }
    }

    lemma LookIs(h: Holding, name: Name)
      requires Tracks(pool[..], disk, h) && name in h.held && name !in h.raw
      ensures name in h.store && name in disk && Contents(name) == h.store[name]
    {
    }

    lemma IdleIs() returns (free: nat)
      requires Idle()
      ensures free < pool.Length && Eligible(pool[free]) && forall k | 0 <= k < pool.Length :: !pool[k].busy
    {
      free :| 0 <= free < pool.Length && Eligible(pool[free]);
    }

    lemma NowIdle(free: nat)
      requires free < pool.Length && Eligible(pool[free]) && forall k | 0 <= k < pool.Length :: !pool[k].busy
      ensures Idle()
    {
    }

    lemma ViewIs()
      ensures View().Keys == disk.Keys && forall name | name in disk :: View()[name] == Contents(name)
    {
    }

    lemma ViewPut(was: Disk, put: Name, data: Block)
      requires disk.Keys == was.Keys && put in was
      requires forall name | name in disk :: Contents(name) == if name == put then data else was[name]
      ensures View() == was[put := data]
    {
    }
  }

  /** Changing only the flags of a buffer changes no contents. */
  lemma FlagOne(pool: seq<Buf>, disk: Disk, i: nat, b: Buf)
    requires Consistent(pool, disk) && i < |pool| && b.Name() == pool[i].Name() && b.data == pool[i].data
    requires b.dev == NULLDEV ==> b.dirty == 0
    requires b.dev != NULLDEV && b.dirty == 0 && !b.busy ==> b.data == disk[b.Name()]
    ensures Consistent(pool[i := b], disk)
    ensures forall name | name in disk :: Logical(pool[i := b], disk, name) == Logical(pool, disk, name)
  {
    TouchOne(pool, disk, i, b);
    BufferIs(pool, disk, i);
    assert b.dev == NULLDEV ==> b.Name() !in disk;
  }

  lemma BufferIs(pool: seq<Buf>, disk: Disk, i: nat)
    requires Consistent(pool, disk) && i < |pool|
    ensures pool[i].dev != NULLDEV ==> pool[i].Name() in disk && Logical(pool, disk, pool[i].Name()) == pool[i].data
  {
    if pool[i].dev != NULLDEV {
      FindUnique(pool, disk, i);
    }
  }

  lemma NullNotOnDisk(pool: seq<Buf>, disk: Disk)
    requires Consistent(pool, disk)
    ensures forall b: Word :: (NULLDEV, b) !in disk
  {
  }

  lemma NamesDiffer(pool: seq<Buf>, disk: Disk, i: nat)
    requires Consistent(pool, disk) && i < |pool| && pool[i].dev != NULLDEV
    ensures forall k | 0 <= k < |pool| && k != i :: pool[k].Name() != pool[i].Name()
  {
  }

  lemma CleanBuffer(pool: seq<Buf>, disk: Disk, i: nat)
    requires Consistent(pool, disk) && i < |pool|
    ensures pool[i].dev == NULLDEV ==> pool[i].dirty == 0
    ensures pool[i].dev != NULLDEV ==> pool[i].Name() in disk
    ensures pool[i].dev != NULLDEV && pool[i].dirty == 0 && !pool[i].busy ==> disk[pool[i].Name()] == pool[i].data
  {
  }

  lemma StillAbsent(pool: seq<Buf>, pool': seq<Buf>, n: nat, name: Name)
    requires n < |pool| && Find(pool, name) == |pool| && pool' == pool[n := pool[n].(dirty := 0)]
    ensures Find(pool', name) == |pool'|
  {
    forall k | 0 <= k < |pool'| ensures pool'[k].Name() != name {
      assert pool[k].Name() != name;
    }
  }

  lemma PresentReadsBuffer(pool: seq<Buf>, disk: Disk, name: Name)
    requires name in disk && Find(pool, name) < |pool|
    ensures Logical(pool, disk, name) == pool[Find(pool, name)].data
  {
  }

  lemma AbsentReadsDisk(pool: seq<Buf>, disk: Disk, name: Name)
    requires name in disk && Find(pool, name) == |pool|
    ensures Logical(pool, disk, name) == disk[name]
  {
  }

  lemma DirtyNamed(pool: seq<Buf>, disk: Disk, i: nat)
    requires Consistent(pool, disk) && i < |pool| && pool[i].dirty != 0
    ensures pool[i].dev != NULLDEV && pool[i].Name() in disk
  {
  }

  /** Other held blocks are in other buffers. */
  lemma OthersElsewhere(pool: seq<Buf>, disk: Disk, h: Holding, n: nat)
    requires Tracks(pool, disk, h) && n < |pool|
    ensures forall name | name in h.held && name != pool[n].Name() :: Find(pool, name) != n
  {
    hide Consistent, Logical;
  }

  /** A new pool over a disk: whatever run its users make, once all is handed back and synced the
      disk is the plain store, but for blocks left raw. */
  method UseAndSync(nbufs: nat, disk: Disk, uses: seq<Use>) returns (p: BufPool, shown: seq<Block>)
    requires forall b: Word :: (NULLDEV, b) !in disk
    requires Holding(disk, {}, {}, {}).LegalRun(uses, nbufs)
    ensures shown == Holding(disk, {}, {}, {}).Shown(uses) && p.disk.Keys == disk.Keys
    ensures var h := Holding(disk, {}, {}, {}).AfterRun(uses);
            && h.store.Keys == disk.Keys
            && (h.held == {} ==> forall name | name in disk && name !in h.raw :: p.disk[name] == h.store[name])
  {
    hide Consistent, Logical, Known;
    p := new BufPool(nbufs, disk);
    ghost var h := Holding(disk, {}, {}, {});
    shown := p.Run(uses, h);
    p.PerformSync(h.AfterRun(uses));
    if h.AfterRun(uses).held == {} {
      AllOnDisk(p.pool[..], p.disk, h.AfterRun(uses));
    }
  }
}
