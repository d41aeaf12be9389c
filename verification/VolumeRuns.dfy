/** Whole runs: any sequence of operations on a volume keeps its blocks, a volume fresh from mkfs
    hands out its data blocks in order, and fsck's rebuilt free list makes a volume consistent. */
module VolumeRuns {
  import opened Basics
  import opened Blocks
  import opened FreeChain
  import opened SuperBlocks
  import opened DiskInodes
  import opened FileTree
  import opened ByteFiles
  import opened Volumes
  import opened Mkfs
  import opened Fsck

  /** The kernel operations that allocate or free blocks of files; a transfer comes with the memory
      of its process and its request. */
  datatype Op =
    | MapBlock(ino: nat, bn: Word, rdflg: bool)
    | Transfer(write: bool, ino: nat, umem: seq<Byte>, ubase: nat, ucount: Word, uoffset: nat)
    | Truncate(ino: nat)
    | Deref(ino: nat)

  /** The calls the kernel makes: on existing inodes, transfers on those without drivers and with a
      request that fits, and dropping only references that exist. What is freed must be such that
      f_trunc can leave the volume in order. */
  predicate Callable(v: Volume, op: Op)
    reads v
  {
    && op.ino < |v.inodes|
    && match op
       case MapBlock(_, _, _) => true
       case Transfer(write, i, umem, ubase, ucount, uoffset) =>
         var n := if write then ucount else Readable(v.inodes[i].size, uoffset, ucount);
         && !IsDevice(v.inodes[i].kind) && !v.inodes[i].kind.Pipe?
         && ubase + n <= |umem| && n <= 0x7FFF && ((n == 0 && !write) || uoffset + n <= MAXBYTES)
       case Truncate(i) => v.inodes[i].kind.Regular? ==> v.CanTruncate(i)
       case Deref(i) =>
         && v.inodes[i].refs > 0 && (IsDevice(v.inodes[i].kind) ==> v.DeviceNumber(v.inodes[i].addr))
         && (v.inodes[i].refs == 1 && v.inodes[i].nlink == 0 ==> v.CanTruncate(i))
  }

  /** The same of an image. */
  ghost predicate Possible(g: Image, op: Op) {
    && op.ino < |g.inodes|
    && match op
       case MapBlock(_, _, _) => true
       case Transfer(write, i, umem, ubase, ucount, uoffset) =>
         var n := if write then ucount else Readable(g.inodes[i].size, uoffset, ucount);
         && !IsDevice(g.inodes[i].kind) && !g.inodes[i].kind.Pipe?
         && ubase + n <= |umem| && n <= 0x7FFF && ((n == 0 && !write) || uoffset + n <= MAXBYTES)
       case Truncate(i) => g.inodes[i].kind.Regular? ==> Truncatable(g, i)
       case Deref(i) =>
         && g.inodes[i].refs > 0 && (IsDevice(g.inodes[i].kind) ==> NumberOnly(g, g.inodes[i].addr))
         && (g.inodes[i].refs == 1 && g.inodes[i].nlink == 0 ==> Truncatable(g, i))
  }

  ghost predicate Truncatable(g: Image, i: nat)
    requires i < |g.inodes|
  {
    var ws := FileSeq(g.store, g.inodes[i].addr);
    if IsDevice(g.inodes[i].kind) then g.inodes[i].addr[0] == 0
    else g.nfree != 0 || ws == [] || (ws[0] < |g.store| && Suits(g.store[ws[0]]))
  }

  ghost predicate NumberOnly(g: Image, addr: Addr) {
    (forall k | 0 < k < TOTALREFBLOCKS :: addr[k] == 0) && (addr[0] == 0 || InRegion(g, addr[0]))
  }

  lemma CallableIs(v: Volume, op: Op)
    ensures Callable(v, op) <==> Possible(v.Img(), op)
  {
    hide FileSeq, Suits, Readable;
  }

  // ---------- What an operation does ----------

  /** Writing what `src` holds at offset o of file i: the bytes are in place, all of them if the blocks suffice. */
  ghost predicate Written(g: Image, g': Image, i: nat, o: nat, src: seq<Byte>)
    requires i < |g.inodes|
  {
    exists moved: nat :: WriteOutcome(g, g', i, o, src, moved)
  }

  ghost predicate MappedAny(g: Image, g': Image, i: nat, bn: Word) {
    exists nb: Word :: Mapped(g, g', i, bn, nb)
  }

  /** Nothing that lies on the disk changed. */
  predicate SameBlocks(g: Image, g': Image) {
    g'.stack == g.stack && g'.store == g.store && g'.nfree == g.nfree && g'.free == g.free
  }

  /** The blocks of inode i went to the free list, in order, and no other slot changed. */
  ghost predicate Emptied(g: Image, g': Image, i: nat)
    requires i < |g.inodes|
  {
    && g'.stack == g.stack + FileSeq(g.store, g.inodes[i].addr)
    && OnlyTouches(g.store, g'.store, FileSeq(g.store, g.inodes[i].addr))
    && forall t: Slot :: Holds(g', t) == if t.ino == i then 0 else Holds(g, t)
  }

  /** The image after an operation. */
  ghost predicate Done(g: Image, op: Op, g': Image)
    requires op.ino < |g.inodes|
  {
    var i, n := op.ino, g.inodes[op.ino];
    && |g'.inodes| == |g.inodes|
    && match op
       case MapBlock(_, bn, rdflg) => if rdflg || IsDevice(n.kind) then g' == g else MappedAny(g, g', i, bn)
       case Transfer(write, _, umem, ubase, ucount, uoffset) =>
         if write && !n.readonly && (n.kind.Regular? || n.kind.Directory?) && ubase + ucount <= |umem| then
           Written(g, g', i, uoffset, umem[ubase..ubase + ucount])
         else g' == g
       case Truncate(_) =>
         if n.kind.Regular? then
           Emptied(g, g', i) && g'.inodes == g.inodes[i := n.(addr := NoBlocks(), dirty := true, size := 0)]
         else g' == g
       case Deref(_) =>
         && (forall j | 0 <= j < |g.inodes| && j != i :: g'.inodes[j] == g.inodes[j])
         && if n.refs > 1 then SameBlocks(g, g') && g'.inodes[i] == n.(refs := n.refs - 1)
            else if n.nlink != 0 then SameBlocks(g, g') && g'.inodes[i] == n.(refs := 0, dirty := false)
            else
              && g'.inodes[i] == n.(refs := 0, size := 0, addr := NoBlocks(), kind := Unused, dirty := false)
              && if IsDevice(n.kind) then SameBlocks(g, g') else Emptied(g, g', i)
  }

  /** One operation: what it does to the volume, and, for a read, what it delivers. */
  method Perform(v: Volume, op: Op, stale: Block)
    requires v.Valid() && !v.readOnly && Callable(v, op)
    modifies v
    ensures v.Valid() && !v.readOnly
    ensures v.reserv == old(v.reserv) && v.isize == old(v.isize) && v.fsize == old(v.fsize)
    ensures Done(old(v.Img()), op, v.Img())
    ensures op.Transfer? && !op.write && !old(v.inodes[op.ino]).kind.Unused? ==>
              && v.ucount == Readable(old(v.inodes[op.ino]).size, op.uoffset, op.ucount)
              && v.umem == op.umem[..op.ubase] + Bytes(v.Img(), op.ino, op.uoffset, v.ucount)
                           + op.umem[op.ubase + v.ucount..]
  {
    hide Ok, FreeOk, Mapped, MappedAny, Written, Emptied, Holds, FileSeq, At, Bytes, Readable;
    match op
    case MapBlock(i, bn, rdflg) =>
      PerformMap(v, i, bn, rdflg);
    case Transfer(write, i, umem, ubase, ucount, uoffset) =>
      v.umem, v.ubase, v.ucount, v.uoffset := umem, ubase, ucount, uoffset;
      PerformTransfer(v, write, i, stale);
    case Truncate(i) =>
      PerformTruncate(v, i, stale);
    case Deref(i) =>
      PerformDeref(v, i, stale);
  }

  method PerformTruncate(v: Volume, i: nat, stale: Block)
    requires v.Valid() && !v.readOnly && Callable(v, Truncate(i))
    modifies v
    ensures v.Valid() && !v.readOnly
    ensures v.reserv == old(v.reserv) && v.isize == old(v.isize) && v.fsize == old(v.fsize)
    ensures Done(old(v.Img()), Truncate(i), v.Img())
  {
    hide Ok, FreeOk, FileSeq, At, Holds;
    v.TruncateTo0(i, stale);
  }

  method PerformDeref(v: Volume, i: nat, stale: Block)
    requires v.Valid() && !v.readOnly && Callable(v, Deref(i))
    modifies v
    ensures v.Valid() && !v.readOnly
    ensures v.reserv == old(v.reserv) && v.isize == old(v.isize) && v.fsize == old(v.fsize)
    ensures Done(old(v.Img()), Deref(i), v.Img())
  {
    hide Ok, FreeOk, FileSeq, At, Holds;
    v.IDeref(i, stale);
  }

  method PerformMap(v: Volume, i: nat, bn: Word, rdflg: bool)
    requires v.Valid() && !v.readOnly && i < |v.inodes|
    modifies v
    ensures v.Valid() && !v.readOnly
    ensures v.reserv == old(v.reserv) && v.isize == old(v.isize) && v.fsize == old(v.fsize)
    ensures Done(old(v.Img()), MapBlock(i, bn, rdflg), v.Img())
  {
    hide Ok, Mapped, Holds, At;
    ghost var g := v.Img();
    var nb := v.Bmap(i, bn, rdflg);
    if !rdflg && !IsDevice(g.inodes[i].kind) {
      MappedOk(g, v.Img(), i, bn, nb);
      assert MappedAny(g, v.Img(), i, bn);
    }
  }

  method PerformTransfer(v: Volume, write: bool, i: nat, stale: Block)
    requires v.Valid() && !v.readOnly && i < |v.inodes| && (if write then v.Request() else v.ReadRequest(i))
    requires !IsDevice(v.inodes[i].kind) && !v.inodes[i].kind.Pipe?
    modifies v
    ensures v.Valid() && !v.readOnly
    ensures v.reserv == old(v.reserv) && v.isize == old(v.isize) && v.fsize == old(v.fsize)
    ensures Done(old(v.Img()), Transfer(write, i, old(v.umem), old(v.ubase), old(v.ucount), old(v.uoffset)), v.Img())
    ensures !write && !old(v.inodes[i]).kind.Unused? ==>
              && v.ucount == Readable(old(v.inodes[i]).size, old(v.uoffset), old(v.ucount))
              && v.umem == old(v.umem)[..old(v.ubase)] + Bytes(v.Img(), i, old(v.uoffset), v.ucount)
                           + old(v.umem)[old(v.ubase) + v.ucount..]
  {
    hide Ok, WriteOutcome, BytesPut, Bytes, Missing, Holds;
    ghost var g, o, src := v.Img(), v.uoffset, if write then v.umem[v.ubase..v.ubase + v.ucount] else [];
    v.ReadWriteI(write, i, stale);
    if write && !g.inodes[i].readonly && WritableKind(g.inodes[i].kind) {
      OutcomeOk(g, v.Img(), i, o, src, v.uoffset - o);
      assert Written(g, v.Img(), i, o, src);
    }
  }

  lemma MappedOk(g: Image, g': Image, i: nat, bn: nat, nb: Word)
    requires Mapped(g, g', i, bn, nb)
    ensures Ok(g') && |g'.inodes| == |g.inodes|
  {
  }

  lemma OutcomeOk(g: Image, g': Image, i: nat, o: nat, src: seq<Byte>, moved: nat)
    requires i < |g.inodes| && WriteOutcome(g, g', i, o, src, moved)
    ensures Ok(g') && |g'.inodes| == |g.inodes| && moved <= |src|
    ensures BytesPut(g, g', i, o, src[..moved])
    ensures moved == |src| <==> |Missing(g, i, o / 512, EndBlock(o, |src|))| <= |g.stack|
    ensures forall f | 0 <= f < |g.inodes| ::
              && g'.inodes[f].kind == g.inodes[f].kind
              && var grows := f == i && moved == |src| && o + moved > g.inodes[f].size;
                 g'.inodes[f].size == if grows then o + moved else g.inodes[f].size
  {
    hide Ok, BytesPut, Missing;
    assert src[..|src|] == src;
    forall f | 0 <= f < |g.inodes| ensures g'.inodes[f].kind == g.inodes[f].kind {
      assert SameButBlocks(g.inodes[f], g'.inodes[f])
        || SameButBlocks(g.inodes[f].(size := 0), g'.inodes[f].(size := 0));
    }
  }

  /** A run: every operation that is possible does what Done says, the others are passed over. */
  ghost predicate Traced(ops: seq<Op>, n: nat, hist: seq<Image>) {
    && n <= |ops| && |hist| == n + 1
    && forall k | 0 <= k < n ::
         if Possible(hist[k], ops[k]) then Done(hist[k], ops[k], hist[k + 1]) else hist[k + 1] == hist[k]
  }

  /** After any run each operation has done what it should, every data block is free or in exactly one slot
      of one inode, none is in two places, none is lost, and the free count of the superblock is right. */
  method Run(v: Volume, ops: seq<Op>, stale: Block) returns (ghost hist: seq<Image>)
    requires v.Valid() && !v.readOnly
    modifies v
    ensures v.Valid()
    ensures v.reserv == old(v.reserv) && v.isize == old(v.isize) && v.fsize == old(v.fsize)
    ensures Partitioned(v.Img())
    ensures Traced(ops, |ops|, hist) && hist[0] == old(v.Img()) && hist[|ops|] == v.Img()
  {
    hide Ok, Partitioned, Done, Possible, Callable;
    hist := [v.Img()];
    var n := 0;
    while n < |ops|
      invariant 0 <= n <= |ops| && v.Valid() && !v.readOnly
      invariant v.reserv == old(v.reserv) && v.isize == old(v.isize) && v.fsize == old(v.fsize)
      invariant Traced(ops, n, hist) && hist[0] == old(v.Img()) && hist[n] == v.Img()
    {
      CallableIs(v, ops[n]);
      if Callable(v, ops[n]) {
        InodeThere(v.Img(), ops[n]);
        Perform(v, ops[n], stale);
      }
      hist := hist + [v.Img()];
      n := n + 1;
    }
    AllPartitioned(v.Img());
  }

  lemma InodeThere(g: Image, op: Op)
    requires Possible(g, op)
    ensures op.ino < |g.inodes|
  {
  }

  /** The data region is partitioned into the free list and the slots' blocks, and counted. */
  ghost predicate Partitioned(g: Image) {
    && (forall b: Word | g.first <= b < g.fsize :: b in g.stack <==> !IsUsed(g, b))
    && (forall s: Slot, t: Slot | Holds(g, s) == Holds(g, t) != 0 :: s == t)
    && (forall s: Slot | Holds(g, s) != 0 :: g.first <= Holds(g, s) < g.fsize)
    && g.tfree + |UsedBlocks(g)| == g.fsize - g.first
  }

  lemma AllPartitioned(g: Image)
    requires Ok(g)
    ensures Partitioned(g)
  {
    hide Ok, Holds, IsUsed, UsedBlocks;
    Conservation(g);
    forall b: Word | g.first <= b < g.fsize ensures b in g.stack <==> !IsUsed(g, b) {
      assert InRegion(g, b);
    }
  }

  /** write at an offset, from memory that holds just the data. */
  method WriteBytes(v: Volume, i: nat, data: seq<Byte>, o: nat, stale: Block) returns (moved: nat)
    requires v.Valid() && !v.readOnly && i < |v.inodes| && WritableKind(v.inodes[i].kind) && !v.inodes[i].readonly
    requires |data| <= 0x7FFF && o + |data| <= MAXBYTES
    modifies v
    ensures v.Valid() && moved <= |data| && WriteOutcome(old(v.Img()), v.Img(), i, o, data, moved)
    ensures v.error == if moved < |data| then ENOSPC else old(v.error)
  {
    hide Ok, WriteOutcome, Bytes;
    ghost var g := v.Img();
    v.umem, v.ubase, v.ucount, v.uoffset := data, 0, |data|, o;
    v.ReadWriteI(true, i, stale);
    moved := v.uoffset - o;
    assert data[0..0 + |data|] == data;
    OutcomeOk(g, v.Img(), i, o, data, moved);
  }

  /** read at an offset, into memory that holds just the bytes read. */
  method ReadBytes(v: Volume, i: nat, o: nat, n: Word, stale: Block) returns (got: seq<Byte>)
    requires v.Valid() && i < |v.inodes|
    requires var r := Readable(v.inodes[i].size, o, n); r <= 0x7FFF && (r == 0 || o + r <= MAXBYTES)
    requires !IsDevice(v.inodes[i].kind) && !v.inodes[i].kind.Pipe? && !v.inodes[i].kind.Unused?
    modifies v
    ensures v.Img() == old(v.Img()) && v.stray == old(v.stray) && v.error == old(v.error)
    ensures got == Bytes(v.Img(), i, o, Readable(v.inodes[i].size, o, n))
  {
    hide Ok, Bytes, WriteOutcome;
    v.umem, v.ubase, v.ucount, v.uoffset := seq(n, k => 0), 0, n, o;
    v.ReadWriteI(false, i, stale);
    TakeFirst(v.umem, seq(n, k => 0), Bytes(v.Img(), i, o, v.ucount));
    got := v.umem[..v.ucount];
  }

  /** Writing data at offset o of file i, and then reading n bytes at offset o2 of file j: what was
      written is what is read, and everything else is read as before. All of it is written exactly
      if the free list covers the missing blocks; the size then covers it. */
  method WriteThenRead(v: Volume, i: nat, data: seq<Byte>, o: nat, j: nat, o2: nat, n: Word, stale: Block)
    returns (moved: nat, got: seq<Byte>)
    requires v.Valid() && !v.readOnly && i < |v.inodes| && j < |v.inodes|
    requires WritableKind(v.inodes[i].kind) && !v.inodes[i].readonly
    requires !IsDevice(v.inodes[j].kind) && !v.inodes[j].kind.Pipe? && !v.inodes[j].kind.Unused?
    requires |data| <= 0x7FFF && o + |data| <= MAXBYTES
    requires var r := Readable(Max(v.inodes[j].size, if i == j then o + |data| else 0), o2, n);
             r <= 0x7FFF && (r == 0 || o2 + r <= MAXBYTES)
    modifies v
    ensures v.Valid() && moved <= |data|
    ensures moved == |data| <==> |old(Missing(v.Img(), i, o / 512, EndBlock(o, |data|)))| <= |old(v.stack)|
    ensures var size := old(v.inodes)[j].size;
            |got| == Readable(if j == i && moved == |data| && o + moved > size then o + moved else size, o2, n)
    ensures forall k | 0 <= k < |got| ::
              got[k] == if j == i && o <= o2 + k < o + moved then data[o2 + k - o] else old(ByteAt(v.Img(), j, o2 + k))
    ensures moved == |data| && i == j && o == o2 && n == |data| ==> got == data
    ensures v.error == if moved < |data| then ENOSPC else old(v.error)
  {
    hide Ok, WriteOutcome, BytesPut, ByteAt, Missing, Bytes;
    ghost var g := v.Img();
    moved := WriteBytes(v, i, data, o, stale);
    ghost var g1 := v.Img();
    OutcomeOk(g, g1, i, o, data, moved);
    got := ReadBytes(v, j, o2, n, stale);
    PutThenRead(g, g1, i, o, data[..moved], j, o2, got);
  }

  function Max(a: nat, b: nat): nat {
    if a < b then b else a
  }

  lemma TakeFirst(mem: seq<Byte>, was: seq<Byte>, bytes: seq<Byte>)
    requires |bytes| <= |was| && mem == was[..0] + bytes + was[|bytes|..]
    ensures |bytes| <= |mem| && mem[..|bytes|] == bytes
  {
  }

  lemma PutThenRead(g: Image, g': Image, i: nat, o: nat, data: seq<Byte>, j: nat, o2: nat, got: seq<Byte>)
    requires BytesPut(g, g', i, o, data) && (got == [] || o2 + |got| <= MAXBYTES) && got == Bytes(g', j, o2, |got|)
    ensures forall k | 0 <= k < |got| ::
              got[k] == if j == i && o <= o2 + k < o + |data| then data[o2 + k - o] else ByteAt(g, j, o2 + k)
  {
    hide ByteAt;
    forall k | 0 <= k < |got|
      ensures got[k] == if j == i && o <= o2 + k < o + |data| then data[o2 + k - o] else ByteAt(g, j, o2 + k)
    {
      assert got[k] == ByteAt(g', j, o2 + k);
    }
  }

  /** Allocating k times: the stack from its top down, then 0 for ever. */
  method AllocateRun(v: Volume, k: nat) returns (out: seq<Word>)
    requires v.FreeValid() && !v.readOnly
    modifies v
    ensures |out| == k
    ensures forall n | 0 <= n < k ::
              out[n] == if n < |old(v.stack)| then old(v.stack)[|old(v.stack)| - 1 - n] else 0
    ensures v.mounted == if k > |old(v.stack)| && !old(v.sealed) then NOT_SMOUNTED else old(v.mounted)
  {
    hide FreeOk;
    ghost var stack := v.stack;
    assert stack == stack[..|stack|];
    out := [];
    while |out| < k
      invariant |out| <= k && v.FreeValid() && !v.readOnly
      invariant v.stack == stack[..if |out| < |stack| then |stack| - |out| else 0]
      invariant forall n | 0 <= n < |out| :: out[n] == if n < |stack| then stack[|stack| - 1 - n] else 0
      invariant v.sealed == old(v.sealed)
      invariant v.mounted == if |out| > |stack| && !v.sealed then NOT_SMOUNTED else old(v.mounted)
    {
      var newno := v.BlkAlloc();
      out := out + [newno];
    }
  }

  /** fmount: takes the superblock from block 1 of the device; inodes are read from their table. */
  method Mount(disk: Store, roflag: bool, ghost stack: seq<Word>, ghost sealed: bool, ghost owner: map<Word, Owner>)
    returns (v: Volume?)
    requires |disk| > SUPERBLOCK
    requires var fs := ReadSuper(disk[SUPERBLOCK]); fs.mounted == SMOUNTED ==> fs.reserv + fs.isize <= |disk|
    ensures var fs := ReadSuper(disk[SUPERBLOCK]); v == null <==> fs.mounted != SMOUNTED || fs.isize >= fs.fsize
    ensures v != null ==>
              var fs := ReadSuper(disk[SUPERBLOCK]);
              && v.mounted == SMOUNTED && v.reserv == fs.reserv && v.isize == fs.isize && v.fsize == fs.fsize
              && v.tfree == fs.tfree && v.nfree == fs.nfree && v.free == fs.free && v.readOnly == roflag
              && v.store == disk && v.inodes == ReadInodes(disk, fs.reserv, fs.isize, roflag)
    ensures v != null ==> fresh(v) && v.stack == stack && v.sealed == sealed && v.owner == owner && v.stray == 0
  {
    hide ReadSuper, ReadInodes;
    var fs := ReadSuper(disk[SUPERBLOCK]);
    if fs.mounted != SMOUNTED || fs.isize >= fs.fsize {
      return null;
    }
    var inodes := ReadInodes(disk, fs.reserv, fs.isize, roflag);
    v := new Volume(fs.mounted, fs.reserv, fs.isize, fs.fsize, fs.tfree, fs.nfree, fs.free, disk, inodes, roflag,
                    stack, sealed, owner);
  }

  /** The blocks a new file system hands out: those after the root directory in ascending
      order, each once, exactly s_tfree of them; the next request fails and marks the volume
      as corrupt, because mkfs puts no sentinel at the bottom of its list. */
  method FormatThenAllocate(fsize: Word, isize: Word, rsize: Word, quick: bool, disk: Store, junk: Block,
                            dirBlk: Block, k: nat) returns (out: seq<Word>, marked: bool)
    requires |disk| == fsize && RootBlock(isize, rsize) < fsize
    ensures |out| == k
    ensures forall n | 0 <= n < k ::
              out[n] == if 3 + rsize + isize + n < fsize then 3 + rsize + isize + n else 0
    ensures marked <==> 3 + rsize + isize + k > fsize
  {
    hide Chain, FreeOk, ReadSuper, ReadInodes;
    var disk' := Format(fsize, isize, rsize, quick, disk, junk, dirBlk);
    ghost var stack := Descending(RootBlock(isize, rsize) + 1, fsize);
    var v := Mount(disk', false, stack, false, map[]);
    FreshFreeOk(v.Img());
    out := AllocateRun(v, k);
    marked := v.mounted != SMOUNTED;
  }

  lemma FreshFreeOk(g: Image)
    requires 1 <= g.first < g.fsize < 0x1_0000 && |g.store| == g.fsize
    requires g.stack == Descending(g.first + 1, g.fsize) && g.tfree == |g.stack|
    requires Chain(g.nfree, g.free, g.store, g.stack, g.sealed)
    ensures FreeOk(g)
  {
  }

  /** A new file system, mounted: consistent, with every data block but the root directory's free. */
  method FormatThenMount(fsize: Word, isize: Word, rsize: Word, quick: bool, disk: Store, junk: Block, dirBlk: Block)
    returns (v: Volume)
    requires |disk| == fsize && isize > 0 && RootBlock(isize, rsize) < fsize
    ensures fresh(v) && v.Valid() && !v.readOnly && !v.sealed
    ensures v.reserv + v.isize == RootBlock(isize, rsize) && v.fsize == fsize
    ensures v.inodes == NewInodes(isize, RootBlock(isize, rsize), false)
    ensures v.inodes[1] == Inode(Directory, 3, 0, 32, NoBlocks()[0 := 2 + rsize + isize], false, false)
    ensures v.inodes[0].kind == CharDevice && forall k | 2 <= k < |v.inodes| :: v.inodes[k].kind == Unused
    ensures v.stack == Descending(RootBlock(isize, rsize) + 1, fsize)
  {
    hide Chain, Ok, ReadSuper, ReadInodes, NewInodes, NewOwners, Descending;
    var disk' := Format(fsize, isize, rsize, quick, disk, junk, dirBlk);
    ghost var root := RootBlock(isize, rsize);
    var m := Mount(disk', false, Descending(root + 1, fsize), false, NewOwners(root, fsize));
    FreshVolumeOk(m.Img(), isize, root, false);
    FirstTwo(isize, root);
    v := m;
  }

  lemma FirstTwo(isize: Word, root: Word)
    requires isize > 0
    ensures var inodes := NewInodes(isize, root, false);
            && inodes[1] == Inode(Directory, 3, 0, 32, NoBlocks()[0 := root], false, false)
            && inodes[0].kind == CharDevice && forall k | 2 <= k < |inodes| :: inodes[k].kind == Unused
  {
  }

  /** Any run on a new file system. */
  method FormatThenRun(fsize: Word, isize: Word, rsize: Word, quick: bool, disk: Store, junk: Block, dirBlk: Block,
                       ops: seq<Op>, stale: Block) returns (v: Volume, ghost hist: seq<Image>)
    requires |disk| == fsize && isize > 0 && RootBlock(isize, rsize) < fsize
    ensures v.Valid() && Partitioned(v.Img()) && v.reserv + v.isize == RootBlock(isize, rsize) && v.fsize == fsize
    ensures Traced(ops, |ops|, hist) && hist[|ops|] == v.Img()
    ensures hist[0].inodes == NewInodes(isize, RootBlock(isize, rsize), false)
  {
    hide Ok, Partitioned, NewInodes, Descending;
    v := FormatThenMount(fsize, isize, rsize, quick, disk, junk, dirBlk);
    hist := Run(v, ops, stale);
  }

  // ---------- A free list that is drained and then broken ----------

  /** An open file without links, as creat and unlink leave it; they are not part of this model. */
  const UNLINKED := Inode(Regular, 0, 1, 0, NoBlocks(), true, false)

  /** A new file system with one free block, which that file gets, full of bytes 1: the free list is
      drained, and freeing the file will not do. */
  method DrainedFile(isize: Word, rsize: Word, disk: Store, junk: Block, dirBlk: Block, stale: Block)
    returns (v: Volume)
    requires isize > 0 && |disk| == RootBlock(isize, rsize) + 2 <= 0xFFFF
    ensures fresh(v) && v.Valid() && !v.readOnly && v.nfree == 0
    ensures 2 < |v.inodes| && v.inodes[2].(addr := NoBlocks()) == UNLINKED && !v.CanTruncate(2)
  {
    hide Ok, NewInodes, Mapped, FreeOk;
    v := FormatThenMount(|disk|, isize, rsize, false, disk, junk, dirBlk);
    ghost var g := v.Img();
    UnusedInode(isize, RootBlock(isize, rsize));
    v.inodes := v.inodes[2 := UNLINKED];
    Reattribute(g, v.Img(), 2);
    ghost var g0 := v.Img();
    var nb := v.Bmap(2, 0, false);
    ghost var g1 := v.Img();
    OneBlockMapped(g0, g1, 2, nb);
    PutOnes(v, nb, stale);
    OneBlockFile(v.store, v.inodes[2].addr);
    assert FileSeq(v.store, v.inodes[2].addr) == [nb];
  }

  /** The one block of file 2 is written. */
  method PutOnes(v: Volume, nb: Word, stale: Block)
    requires v.Valid() && 2 < |v.inodes| && !IsDevice(v.inodes[2].kind) && v.stack == [] && !v.sealed
    requires v.inodes[2].addr[0] == nb && 0 < nb < |v.store|
    modifies v`store, v`umem, v`ubase
    ensures v.Valid() && v.nfree == 0 && |v.store| == |old(v.store)| && GetWord(v.store[nb], 0) == 0x0101
  {
    hide Ok, Patched, GetWord;
    ghost var g := v.Img();
    v.umem, v.ubase := seq(BUFSIZE, k => 1), 0;
    v.PutBytes(nb, 0, BUFSIZE, stale);
    FullOfOnes(g.store[nb], v.store[nb], v.umem[v.ubase..v.ubase + BUFSIZE]);
    DataWrite(g, v.Img(), Root(2, 0), v.store[nb]);
    OkTop(v.Img());
  }

  lemma FullOfOnes(was: Block, b: Block, ones: seq<Byte>)
    requires Patched(was, b, 0, ones) && |ones| == BUFSIZE && ones[0] == ones[1] == 1
    ensures GetWord(b, 0) == 0x0101
  {
  }

  lemma UnusedInode(isize: Word, root: Word)
    requires isize > 0
    ensures NewInodes(isize, root, false)[2] == Inode(Unused, 0, 0, 0, NoBlocks(), false, false)
  {
  }

  lemma OneBlockMapped(g: Image, g': Image, i: nat, nb: Word)
    requires Ok(g) && i < |g.inodes| && g.inodes[i].addr == NoBlocks() && |g.stack| == 1
    requires Mapped(g, g', i, 0, nb) && !IsDevice(g.inodes[i].kind)
    ensures Ok(g') && g'.stack == [] && g'.sealed == g.sealed && |g'.inodes| == |g.inodes|
    ensures g'.inodes[i] == g.inodes[i].(addr := g'.inodes[i].addr, dirty := g'.inodes[i].dirty)
    ensures g'.inodes[i] == g.inodes[i] || g'.inodes[i].dirty
    ensures Holds(g', Root(i, 0)) == g'.inodes[i].addr[0] == nb && 0 < nb < |g'.store|
    ensures forall k | 0 < k < TOTALREFBLOCKS :: g'.inodes[i].addr[k] == 0
  {
    hide Ok, Mapped, Grown;
    assert Holds(g, Root(i, 0)) == 0;
    OneNeeded(g, g', i, nb);
    OneGrown(g, g', i);
    HeldNotFree(g', Root(i, 0));
  }

  lemma OneNeeded(g: Image, g': Image, i: nat, nb: Word)
    requires Mapped(g, g', i, 0, nb) && Holds(g, Root(i, 0)) == 0 && |g.stack| == 1
    ensures Grown(g, g', {Root(i, 0)}) && nb == Holds(g', Root(i, 0)) && nb != 0
  {
    hide Grown, Holds;
    assert Need(g, i, 0) == {Root(i, 0)};
  }

  lemma OneGrown(g: Image, g': Image, i: nat)
    requires Grown(g, g', {Root(i, 0)}) && i < |g.inodes| && !IsDevice(g.inodes[i].kind) && |g.stack| == 1
    requires g.inodes[i].addr == NoBlocks()
    ensures Ok(g') && g'.stack == [] && g'.sealed == g.sealed && |g'.inodes| == |g.inodes|
    ensures g'.inodes[i] == g.inodes[i].(addr := g'.inodes[i].addr, dirty := g'.inodes[i].dirty)
    ensures g'.inodes[i] == g.inodes[i] || g'.inodes[i].dirty
    ensures Holds(g', Root(i, 0)) == g'.inodes[i].addr[0]
    ensures forall k | 0 < k < TOTALREFBLOCKS :: g'.inodes[i].addr[k] == 0
  {
    hide Ok, Shown;
    assert SameButBlocks(g.inodes[i], g'.inodes[i]);
    forall k | 0 < k < TOTALREFBLOCKS ensures g'.inodes[i].addr[k] == 0 {
      assert Root(i, k) !in {Root(i, 0)};
      assert Holds(g', Root(i, k)) == Holds(g, Root(i, k)) == 0;
    }
  }

  lemma OkTop(g: Image)
    requires Ok(g) && g.stack == [] && !g.sealed
    ensures g.nfree == 0
  {
    TopOfList(g);
  }

  lemma OneBlockFile(store: Store, addr: Addr)
    requires addr[0] != 0 && forall k | 0 < k < TOTALREFBLOCKS :: addr[k] == 0
    ensures FileSeq(store, addr) == [addr[0]]
  {
    OneDirect(addr, DIRECTBLOCKS);
  }

  lemma {:induction false} OneDirect(addr: Addr, k: nat)
    requires addr[0] != 0 && (forall n | 0 < n < TOTALREFBLOCKS :: addr[n] == 0) && 0 < k <= DIRECTBLOCKS
    ensures Directs(addr, k) == [addr[0]]
    decreases k
  {
    if k > 1 {
      OneDirect(addr, k - 1);
    }
  }

  /** Dropping that file breaks the volume: its block goes onto an empty array, and the words of the
      file then stand where the rest of the list should. */
  method DrainedThenDropped(isize: Word, rsize: Word, disk: Store, junk: Block, dirBlk: Block, stale: Block)
    returns (v: Volume)
    requires isize > 0 && |disk| == RootBlock(isize, rsize) + 2 <= 0xFFFF
    ensures NoList(v.Img()) && Hopeless(v.Img())
  {
    hide Ok, FreeOk, NoList, Hopeless;
    v := DrainedFile(isize, rsize, disk, junk, dirBlk, stale);
    v.IDeref(2, stale);
  }

  /** On a new file system an open device inode without links (mknod and unlink are not part of this
      model), with a number that is also that of a data block, is dropped: the volume is broken. */
  method DeviceDropped(fsize: Word, isize: Word, rsize: Word, disk: Store, junk: Block, dirBlk: Block,
                       stale: Block, dev: Word) returns (v: Volume)
    requires isize > 0 && |disk| == fsize && RootBlock(isize, rsize) <= dev < fsize
    ensures Hopeless(v.Img())
  {
    hide Ok, FreeOk, NewInodes, Hopeless;
    v := FormatThenMount(fsize, isize, rsize, false, disk, junk, dirBlk);
    ghost var g := v.Img();
    UnusedInode(isize, RootBlock(isize, rsize));
    v.inodes := v.inodes[2 := Inode(BlockDevice, 0, 1, 0, NoBlocks()[0 := dev], true, false)];
    DeviceHoldsNothing(g, v.Img(), 2);
    v.IDeref(2, stale);
  }

  lemma DeviceHoldsNothing(g: Image, g': Image, i: nat)
    requires i < |g.inodes| && g.inodes[i].addr == NoBlocks() && |g'.inodes| == |g.inodes|
    requires g' == g.(inodes := g.inodes[i := g'.inodes[i]]) && IsDevice(g'.inodes[i].kind)
    ensures Ok(g) <==> Ok(g')
  {
    hide Ok, Hopeless;
    forall t: Slot ensures Holds(g', t) == Holds(g, t) {
    }
    SameHeld(g, g');
  }

  // ---------- fsck ----------

  /** What fsck's other passes are for: every block number in the inodes' trees is one of the data
      region, none appears twice, and a bit of the bitmap is set exactly for those that appear. */
  ghost predicate Exact(disk: Store, inodes: seq<Inode>, bitmap: seq<Byte>, first: nat, fsize: nat)
    requires fsize / 8 < |bitmap|
  {
    && (forall s: Slot | At(disk, inodes, s) != 0 :: first <= At(disk, inodes, s) < fsize)
    && (forall s: Slot, t: Slot | At(disk, inodes, s) == At(disk, inodes, t) != 0 :: s == t)
    && (forall s: Slot | At(disk, inodes, s) != 0 && At(disk, inodes, s) < fsize ::
      !IsClear(bitmap, At(disk, inodes, s)))
    && (forall b: Word | first <= b < fsize && !IsClear(bitmap, b) :: exists s: Slot :: At(disk, inodes, s) == b)
  }

  ghost function SlotOf(disk: Store, inodes: seq<Inode>, b: Word): (s: Slot)
    ensures (exists t: Slot :: At(disk, inodes, t) == b) ==> At(disk, inodes, s) == b
  {
    if t: Slot :| At(disk, inodes, t) == b then t else Root(0, 0)
  }

  ghost function OwnersOnDisk(disk: Store, inodes: seq<Inode>, bitmap: seq<Byte>, first: nat, fsize: nat)
    : map<Word, Owner>
    requires fsize / 8 < |bitmap|
  {
    map b: Word | b in Range(first, fsize) :: if IsClear(bitmap, b) then Free else Used(SlotOf(disk, inodes, b))
  }

  lemma OwnersAre(disk: Store, inodes: seq<Inode>, bitmap: seq<Byte>, first: nat, fsize: nat)
    requires 0 < first && fsize < 0x1_0000 && fsize / 8 < |bitmap| && Exact(disk, inodes, bitmap, first, fsize)
    ensures var owner := OwnersOnDisk(disk, inodes, bitmap, first, fsize);
            && (forall b: Word :: b in owner <==> first <= b < fsize)
            && (forall b | b in owner :: owner[b].Free? <==> IsClear(bitmap, b))
            && (forall b | b in owner && owner[b].Used? :: At(disk, inodes, owner[b].slot) == b)
            && (forall s: Slot | At(disk, inodes, s) != 0 ::
                  At(disk, inodes, s) in owner && owner[At(disk, inodes, s)] == Used(s))
  {
    hide At, IsClear;
  }

  lemma HeldOnDisk(disk: Store, inodes: seq<Inode>, bitmap: seq<Byte>, first: nat, fsize: nat)
    requires fsize / 8 < |bitmap| && Exact(disk, inodes, bitmap, first, fsize)
    ensures forall s: Slot | At(disk, inodes, s) != 0 ::
              first <= At(disk, inodes, s) < fsize && !IsClear(bitmap, At(disk, inodes, s))
  {
    hide At, IsClear;
  }

  /** Slots hold the same if their blocks do. */
  lemma AtSame(disk: Store, disk': Store, inodes: seq<Inode>, s: Slot)
    requires |disk'| == |disk|
    requires forall t: Slot | 0 < At(disk, inodes, t) < |disk| ::
               disk'[At(disk, inodes, t)] == disk[At(disk, inodes, t)]
    ensures At(disk', inodes, s) == At(disk, inodes, s)
  {
    match s
    case Root(_, _) =>
    case Sub(i, k, _) =>
      assert At(disk, inodes, Root(i, k)) == RootAt(inodes, i, k);
    case Leaf(i, a, _) =>
      assert At(disk, inodes, Root(i, DOUBLE)) == RootAt(inodes, i, DOUBLE);
      assert At(disk, inodes, Sub(i, DOUBLE, a)) == SubAt(disk, inodes, i, DOUBLE, a);
  }

  lemma RebuiltFree(g: Image, bitmap: seq<Byte>)
    requires Layout(g) && g.fsize / 8 < |bitmap|
    requires g.stack == ClearDown(bitmap, g.first, g.fsize) && g.tfree == |g.stack|
    requires Chain(g.nfree, g.free, g.store, g.stack, g.sealed)
    ensures FreeOk(g)
  {
    hide IsClear, Chain, ClearDown;
    ClearDownIs(bitmap, g.first, g.fsize);
  }

  /** With such a bitmap the list that fsck rebuilds makes the volume consistent. */
  lemma RebuiltOk(g: Image, disk: Store, bitmap: seq<Byte>)
    requires Layout(g) && 1 < g.first && |disk| == g.fsize && g.fsize / 8 < |bitmap|
    requires Exact(disk, g.inodes, bitmap, g.first, g.fsize)
    requires forall b | g.first <= b < g.fsize && !IsClear(bitmap, b) :: g.store[b] == disk[b]
    requires g.stack == ClearDown(bitmap, g.first, g.fsize) && g.tfree == |g.stack|
    requires Chain(g.nfree, g.free, g.store, g.stack, g.sealed)
    requires g.owner == OwnersOnDisk(disk, g.inodes, bitmap, g.first, g.fsize)
    ensures Ok(g) && forall s: Slot :: Holds(g, s) == At(disk, g.inodes, s)
  {
    hide At, IsClear, Chain, ClearDown, FreeOk, Exact, OwnersOnDisk;
    ClearDownIs(bitmap, g.first, g.fsize);
    OwnersAre(disk, g.inodes, bitmap, g.first, g.fsize);
    RebuiltFree(g, bitmap);
    HeldOnDisk(disk, g.inodes, bitmap, g.first, g.fsize);
    forall s: Slot ensures Holds(g, s) == At(disk, g.inodes, s) {
      AtSame(disk, g.store, g.inodes, s);
    }
  }

  /** fsck's second pass on such a device, and then a mount: the volume is consistent, and its free
      blocks are those with a clear bit. */
  method RepairThenMount(c: Checker, junk: Block) returns (v: Volume)
    requires c.Shaped() && c.mounted == SMOUNTED && 1 < c.reserv && c.isize < c.fsize
    requires Exact(c.disk, ReadInodes(c.disk, c.reserv, c.isize, false), c.bitmap, c.reserv + c.isize, c.fsize)
    modifies c`nfree, c`tfree, c`free, c`disk
    ensures fresh(v) && v.Valid() && !v.readOnly && v.sealed
    ensures v.inodes == old(ReadInodes(c.disk, c.reserv, c.isize, false)) && v.reserv == c.reserv && v.isize == c.isize
    ensures v.fsize == c.fsize && v.stack == ClearDown(c.bitmap, c.reserv + c.isize, c.fsize)
    ensures forall s: Slot :: Holds(v.Img(), s) == old(At(c.disk, ReadInodes(c.disk, c.reserv, c.isize, false), s))
  {
    hide Chain, Ok, Exact, ReadSuper, ReadInodes, ClearDown, IsClear, OwnersOnDisk, At;
    ghost var disk, first, fsize := c.disk, c.reserv + c.isize, c.fsize;
    ghost var inodes := ReadInodes(disk, c.reserv, c.isize, false);
    c.Pass2(junk);
    InodesFrame(disk, c.disk, c.reserv, c.isize, false);
    var m := Mount(c.disk, false, ClearDown(c.bitmap, first, fsize), true,
      OwnersOnDisk(disk, inodes, c.bitmap, first, fsize));
    RebuiltOk(m.Img(), disk, c.bitmap);
    v := m;
  }
}
