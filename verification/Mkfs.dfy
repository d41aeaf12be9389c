/** mkfs: building the free list of a new file system, and what allocation then returns. */
module Mkfs {
  import opened Blocks
  import opened FreeChain
  import opened FileTree
  import opened SuperBlocks
  import opened DiskInodes

  /** hi-1, .., lo, so that the top of the stack is lo. */
  function Descending(lo: nat, hi: nat): (s: seq<Word>)
    requires lo <= hi <= 0xFFFF
    ensures |s| == hi - lo
    ensures forall k | 0 <= k < |s| :: s[k] == hi - 1 - k
    decreases hi - lo
  {
    if lo == hi then [] else Descending(lo + 1, hi) + [lo]
  }

  /** The first block after the reserved blocks and the inodes: the root directory. */
  function RootBlock(isize: Word, rsize: Word): nat {
    SUPERBLOCK + 1 + rsize + isize
  }

  /** Clears all blocks, or, for a quick format, the last block and those before the data. */
  method Clear(fsize: Word, isize: Word, rsize: Word, quick: bool, disk: Store) returns (disk': Store)
    requires |disk| == fsize && RootBlock(isize, rsize) < fsize
    ensures |disk'| == fsize && disk'[fsize - 1] == ZeroBlock()
    ensures forall b | 1 <= b < if quick then RootBlock(isize, rsize) else fsize :: disk'[b] == ZeroBlock()
  {
    disk' := disk;
    var lm := fsize as int;
    if quick {
      disk' := disk'[fsize - 1 := ZeroBlock()];
      lm := RootBlock(isize, rsize);
    }
    var j := 1;
    while j < lm
      invariant 1 <= j <= fsize && |disk'| == fsize
      invariant quick || j == fsize ==> disk'[fsize - 1] == ZeroBlock()
      invariant forall b | 1 <= b < j :: disk'[b] == ZeroBlock()
    {
      disk' := disk'[j := ZeroBlock()];
      j := j + 1;
    }
  }

  /** Adds the blocks from fsize-1 down to the one after the root directory to the list. A full
      array is written to the next block, with whatever follows it in memory (`junk`). */
  method BuildFreeList(fs0: SuperBlock, root: nat, disk: Store, junk: Block) returns (fs: SuperBlock, disk': Store)
    requires |disk| == fs0.fsize && 1 <= root < fs0.fsize
    requires disk[fs0.fsize - 1] == ZeroBlock()
    requires fs0.nfree == 0 && fs0.tfree == 0 && |fs0.free| == FSFREEBLOCKS
    ensures fs == fs0.(tfree := fs.tfree, nfree := fs.nfree, free := fs.free)
    ensures |disk'| == |disk| && forall b | 0 <= b <= root :: disk'[b] == disk[b]
    ensures fs.tfree == fs.fsize - 1 - root
    ensures Chain(fs.nfree, fs.free, disk', Descending(root + 1, fs.fsize), false)
  {
    hide Chain;
    fs, disk' := fs0, disk;
    EmptyList(fs0, disk);
    var j: nat := fs.fsize - 1;
    while j > root
      invariant root <= j < fs0.fsize
      invariant fs == fs0.(tfree := fs.tfree, nfree := fs.nfree, free := fs.free) && |fs.free| == FSFREEBLOCKS
      invariant |disk'| == |disk| && forall b | 0 <= b <= j :: disk'[b] == disk[b]
      invariant fs.tfree == fs0.fsize - 1 - j
      invariant j + 1 < fs0.fsize ==> 0 < fs.nfree <= FSFREEBLOCKS
      invariant j + 1 == fs0.fsize ==> fs.nfree == 0
      invariant Chain(fs.nfree, fs.free, disk', Descending(j + 1, fs0.fsize), false)
    {
      ghost var stack, fs1, disk1 := Descending(j + 1, fs0.fsize), fs, disk';
      if fs.nfree == FSFREEBLOCKS {
        disk' := disk'[j := SetWords(SetWord(junk, 0, fs.nfree), 1, fs.free)];
        fs := fs.(nfree := 0, free := seq(FSFREEBLOCKS, k => 0));
      }
      fs := fs.(tfree := fs.tfree + 1);
      fs := fs.(free := fs.free[fs.nfree := j]);
      fs := fs.(nfree := fs.nfree + 1);
      ListGrows(fs1, fs, disk1, disk', stack, j);
      assert Descending(j, fs0.fsize) == stack + [j];
      j := j - 1;
    }
  }

  lemma ChainShape(fs: SuperBlock, disk: Store, stack: seq<Word>)
    requires Chain(fs.nfree, fs.free, disk, stack, false)
    ensures |fs.free| == FSFREEBLOCKS
  {
  }

  lemma EmptyList(fs: SuperBlock, disk: Store)
    requires fs.nfree == 0 && |fs.free| == FSFREEBLOCKS && 0 < fs.fsize <= 0xFFFF
    ensures Chain(fs.nfree, fs.free, disk, Descending(fs.fsize, fs.fsize), false)
  {
  }

  lemma ListGrows(fs: SuperBlock, fs': SuperBlock, disk: Store, disk': Store, stack: seq<Word>, j: Word)
    requires Chain(fs.nfree, fs.free, disk, stack, false) && 0 != j < |disk| && |disk'| == |disk| && j !in stack
    requires fs.nfree == 0 ==> disk[j] == ZeroBlock() && stack == []
    requires |fs.free| == |fs'.free| == FSFREEBLOCKS && fs.nfree <= FSFREEBLOCKS
    requires fs.nfree < FSFREEBLOCKS ==>
               disk' == disk && fs'.nfree == fs.nfree + 1 && fs'.free == fs.free[fs.nfree := j]
    requires fs.nfree == FSFREEBLOCKS ==>
               && fs'.nfree == 1 && fs'.free[0] == j
               && (forall b | 0 <= b < |disk| && b != j :: disk'[b] == disk[b])
               && GetWord(disk'[j], 0) == FSFREEBLOCKS
               && forall k | 0 <= k < FSFREEBLOCKS :: GetWord(disk'[j], k + 1) == fs.free[k]
    ensures Chain(fs'.nfree, fs'.free, disk', stack + [j], false)
  {
    hide Chain;
    if fs.nfree == 0 {
      PushDrained(fs.free, disk, j);
      ZeroBlockWords(0);
      assert stack + [j] == [j];
    } else if fs.nfree < FSFREEBLOCKS {
      PushRoom(fs.nfree, fs.free, disk, stack, false, j);
    } else {
      PushSpill(fs.nfree, fs.free, disk, stack, false, j, disk', fs'.free);
    }
  }

  const S_IFDIR_0755: Word := 0x41ED
  const ANY_MODE: Word := 0xFFFF
  const ROOT_SIZE: Word := 32

  function RootAddr(root: Word): Addr {
    NoBlocks()[0 := root]
  }

  /** The inodes mkfs makes: number 0 is reserved, number 1 is the root directory with its
      one block; all others are unused. */
  function NewInodes(isize: Word, root: Word, ro: bool): (inodes: seq<Inode>)
    requires isize > 0
    ensures |inodes| == DINODESPERBLOCK * isize
  {
    [Inode(CharDevice, 1, 0, 0, NoBlocks(), false, ro), Inode(Directory, 3, 0, ROOT_SIZE, RootAddr(root), false, ro)]
    + seq(DINODESPERBLOCK * isize - 2, k => Inode(Unused, 0, 0, 0, NoBlocks(), false, ro))
  }

  /** The first block of the inode table. */
  function InodeBlock(root: Word): Block {
    var reserved := InodeWords(ANY_MODE, 1, 0, 0, NO_TIMES, NoBlocks());
    var top := InodeWords(S_IFDIR_0755, 3, 0, ROOT_SIZE, NO_TIMES, RootAddr(root));
    SetWords(ZeroBlock(), 0, reserved + top)
  }

  lemma ZeroInode(b: Block, k: nat, ro: bool)
    requires k < DINODESPERBLOCK && forall n | INODE_WORDS * k <= n < INODE_WORDS * (k + 1) :: GetWord(b, n) == 0
    ensures ReadInode(b, k, ro) == Inode(Unused, 0, 0, 0, NoBlocks(), false, ro)
  {
    assert forall n | 0 <= n < INODE_WORDS :: InodeWords(0, 0, 0, 0, NO_TIMES, NoBlocks())[n] == 0;
    InodeRoundTrip(b, k, ro, 0, 0, 0, 0, NO_TIMES, NoBlocks());
  }

  /** The first two inodes of that block. */
  lemma FirstInodes(root: Word, ro: bool)
    ensures ReadInode(InodeBlock(root), 0, ro) == Inode(CharDevice, 1, 0, 0, NoBlocks(), false, ro)
    ensures ReadInode(InodeBlock(root), 1, ro) == Inode(Directory, 3, 0, ROOT_SIZE, RootAddr(root), false, ro)
    ensures forall n | 2 * INODE_WORDS <= n < 256 :: GetWord(InodeBlock(root), n) == 0
  {
    hide InodeWords, ReadInode, GetWord, ZeroBlock;
    var ws0 := InodeWords(ANY_MODE, 1, 0, 0, NO_TIMES, NoBlocks());
    var ws1 := InodeWords(S_IFDIR_0755, 3, 0, ROOT_SIZE, NO_TIMES, RootAddr(root));
    var b := InodeBlock(root);
    forall n | 0 <= n < INODE_WORDS ensures GetWord(b, n) == ws0[n] && GetWord(b, INODE_WORDS + n) == ws1[n] {
      assert (ws0 + ws1)[n] == ws0[n] && (ws0 + ws1)[INODE_WORDS + n] == ws1[n];
    }
    InodeRoundTrip(b, 0, ro, ANY_MODE, 1, 0, 0, NO_TIMES, NoBlocks());
    InodeRoundTrip(b, 1, ro, S_IFDIR_0755, 3, 0, ROOT_SIZE, NO_TIMES, RootAddr(root));
    forall n | 2 * INODE_WORDS <= n < 256 ensures GetWord(b, n) == 0 {
      ZeroBlockWords(n);
    }
  }

  /** What mkfs writes into the inode table reads as those inodes. */
  lemma NewInodesRead(disk: Store, first: nat, isize: Word, root: Word, ro: bool)
    requires isize > 0 && first + isize <= |disk| && disk[first] == InodeBlock(root)
    requires forall b | first < b < first + isize :: disk[b] == ZeroBlock()
    ensures ReadInodes(disk, first, isize, ro) == NewInodes(isize, root, ro)
  {
    hide InodeBlock, ReadInode, GetWord, ZeroBlock, NoBlocks, RootAddr;
    var read, made := ReadInodes(disk, first, isize, ro), NewInodes(isize, root, ro);
    FirstInodes(root, ro);
    forall k | 2 <= k < |made| ensures read[k] == made[k] {
      var blk, n := disk[first + k / DINODESPERBLOCK], k % DINODESPERBLOCK;
      forall w | INODE_WORDS * n <= w < INODE_WORDS * (n + 1) ensures GetWord(blk, w) == 0 {
        ZeroBlockWords(w);
      }
      ZeroInode(blk, n, ro);
    }
    assert read[0] == made[0] && read[1] == made[1];
    assert read == made;
  }

  /** A new file system: the free list, the inode table with the root directory, and the
      superblock in block 1. */
  method Format(fsize: Word, isize: Word, rsize: Word, quick: bool, disk: Store, junk: Block, dirBlk: Block)
    returns (disk': Store)
    requires |disk| == fsize && RootBlock(isize, rsize) < fsize
    ensures |disk'| == fsize
    ensures var fs := ReadSuper(disk'[SUPERBLOCK]);
            && fs.mounted == SMOUNTED && fs.reserv == SUPERBLOCK + 1 + rsize && fs.isize == isize && fs.fsize == fsize
            && fs.tfree == fsize - 1 - RootBlock(isize, rsize)
            && Chain(fs.nfree, fs.free, disk', Descending(RootBlock(isize, rsize) + 1, fsize), false)
    ensures forall ro: bool | isize > 0 ::
              ReadInodes(disk', SUPERBLOCK + 1 + rsize, isize, ro) == NewInodes(isize, RootBlock(isize, rsize), ro)
    ensures disk'[RootBlock(isize, rsize)] == dirBlk
  {
    hide Chain, ReadSuper, ReadInodes, NewInodes, InodeBlock;
    var root := RootBlock(isize, rsize);
    var first := SUPERBLOCK + 1 + rsize;
    disk' := Clear(fsize, isize, rsize, quick, disk);
    var fs := SuperBlock(SMOUNTED, first, isize, fsize, 0, 0, seq(FSFREEBLOCKS, k => 0));
    fs, disk' := BuildFreeList(fs, root, disk', junk);
    ghost var disk1 := disk';
    disk' := disk'[first := InodeBlock(root)];
    disk' := disk'[root := dirBlk];
    ChainShape(fs, disk1, Descending(root + 1, fsize));
    SuperRoundTrip(junk, fs);
    disk' := disk'[SUPERBLOCK := SetWords(junk, 0, SuperWords(fs))];
    ChainFrame(fs.nfree, fs.free, disk1, disk', Descending(root + 1, fsize), false);
    forall ro: bool | isize > 0 ensures ReadInodes(disk', first, isize, ro) == NewInodes(isize, root, ro) {
      NewInodesRead(disk', first, isize, root, ro);
    }
  }

  /** Mounting what mkfs wrote gives a consistent volume: the root directory has its block and
      every other data block is free. */
  lemma FreshVolumeOk(g: Image, isize: Word, root: Word, ro: bool)
    requires isize > 0 && 1 <= root < g.fsize < 0x1_0000 && |g.store| == g.fsize
    requires g.first == root && g.inodes == NewInodes(isize, root, ro)
    requires g.stack == Descending(root + 1, g.fsize) && !g.sealed
    requires g.tfree == |g.stack| && Chain(g.nfree, g.free, g.store, g.stack, g.sealed)
    requires g.owner == NewOwners(root, g.fsize)
    ensures Ok(g)
  {
    forall s: Slot ensures Holds(g, s) == if s == Root(1, 0) then g.first else 0 {
      assert RootAddr(root)[SINGLE] == 0 && RootAddr(root)[DOUBLE] == 0;
    }
    forall b: Word | InRegion(g, b) ensures b in g.stack <==> b != g.first {
      if b != g.first {
        assert g.stack[g.fsize - 1 - b] == b;
      }
    }
  }

  /** On a new volume only the first data block is used. */
  ghost function NewOwners(root: Word, fsize: Word): map<Word, Owner> {
    map b: Word | b in Range(root, fsize) :: if b == root then Used(Root(1, 0)) else Free
  }
}
