/** Inodes as they lie in the blocks of the inode table: eight to a block, 32 words each. */
module DiskInodes {
  import opened Blocks
  import opened FreeChain
  import opened FileTree

  const DINODESPERBLOCK := 8
  const INODE_WORDS := 32

  /** The type bits of a mode; a type that is none of these is a device if it has the bit of one. */
  function KindOf(mode: Word): Kind {
    var t := mode / 0x1000;
    if t == 8 then Regular
    else if t == 4 then Directory
    else if t == 9 then SymLink
    else if t == 1 then Pipe
    else if t == 6 then BlockDevice
    else if mode / 0x2000 % 2 == 1 then CharDevice
    else Unused
  }

  /** The pointers of an inode, whose words begin at w. */
  function ReadAddr(b: Block, w: nat): (addr: seq<Word>)
    requires w + INODE_WORDS <= 256
    ensures |addr| == TOTALREFBLOCKS
  {
    seq<Word>(TOTALREFBLOCKS, n requires 0 <= n < TOTALREFBLOCKS => GetWord(b, w + 11 + n))
  }

  /** Inode k of a block, as it comes into the core. */
  function ReadInode(b: Block, k: nat, ro: bool): Inode
    requires k < DINODESPERBLOCK
  {
    var w := INODE_WORDS * k;
    Inode(KindOf(GetWord(b, w)), GetWord(b, w + 1), 0, GetWord(b, w + 3) + 0x1_0000 * GetWord(b, w + 4),
          ReadAddr(b, w), false, ro)
  }

  /** The whole table: isize blocks from block first on. */
  function ReadInodes(disk: Store, first: nat, isize: nat, ro: bool): (inodes: seq<Inode>)
    requires first + isize <= |disk|
    ensures |inodes| == DINODESPERBLOCK * isize
  {
    seq(DINODESPERBLOCK * isize, n requires 0 <= n < DINODESPERBLOCK * isize =>
      ReadInode(disk[first + n / DINODESPERBLOCK], n % DINODESPERBLOCK, ro))
  }

  /** The table depends on its own blocks only. */
  lemma InodesFrame(disk: Store, disk': Store, first: nat, isize: nat, ro: bool)
    requires first + isize <= |disk| == |disk'|
    requires forall b | first <= b < first + isize :: disk'[b] == disk[b]
    ensures ReadInodes(disk', first, isize, ro) == ReadInodes(disk, first, isize, ro)
  {
  }

  /** The 32 words of an inode: owner is the word of user and group number, times the three time stamps. */
  function InodeWords(mode: Word, nlink: Word, owner: Word, size: nat, times: seq<Word>, addr: Addr): (ws: seq<Word>)
    requires size < 0x1_0000_0000 && |times| == 6
    ensures |ws| == INODE_WORDS
  {
    [mode, nlink, owner, size % 0x1_0000, size / 0x1_0000] + times + addr + [0]
  }

  const NO_TIMES: seq<Word> := [0, 0, 0, 0, 0, 0]

  /** A block that holds these words for inode k reads as that inode, its size being 32 bits wide. */
  lemma InodeRoundTrip(b: Block, k: nat, ro: bool, mode: Word, nlink: Word, owner: Word, size: nat, times: seq<Word>,
                       addr: Addr)
    requires k < DINODESPERBLOCK && size < 0x1_0000_0000 && |times| == 6
    requires forall n | 0 <= n < INODE_WORDS ::
               GetWord(b, INODE_WORDS * k + n) == InodeWords(mode, nlink, owner, size, times, addr)[n]
    ensures ReadInode(b, k, ro) == Inode(KindOf(mode), nlink, 0, size, addr, false, ro)
  {
    var w := INODE_WORDS * k;
    var ws := InodeWords(mode, nlink, owner, size, times, addr);
    assert GetWord(b, w + 0) == ws[0] && GetWord(b, w + 1) == ws[1];
    assert GetWord(b, w + 3) == ws[3] && GetWord(b, w + 4) == ws[4];
    forall n | 0 <= n < TOTALREFBLOCKS ensures ReadInode(b, k, ro).addr[n] == addr[n] {
      assert GetWord(b, w + (11 + n)) == ws[11 + n] == addr[n];
    }
    assert ReadInode(b, k, ro).addr == addr;
  }

  /** Where an inode lies in the table: inode 8b + k is number k of block b. */
  lemma TableRoundTrip(disk: Store, first: nat, isize: nat, b: nat, k: nat, ro: bool, mode: Word, nlink: Word,
                       owner: Word, size: nat, times: seq<Word>, addr: Addr)
    requires first + isize <= |disk| && b < isize && k < 8 && size < 0x1_0000_0000 && |times| == 6
    requires forall n | 0 <= n < INODE_WORDS ::
               GetWord(disk[first + b], INODE_WORDS * k + n) == InodeWords(mode, nlink, owner, size, times, addr)[n]
    ensures ReadInodes(disk, first, isize, ro)[8 * b + k] == Inode(KindOf(mode), nlink, 0, size, addr, false, ro)
  {
    hide InodeWords, ReadInode, GetWord;
    assert (8 * b + k) / 8 == b && (8 * b + k) % 8 == k;
    InodeRoundTrip(disk[first + b], k, ro, mode, nlink, owner, size, times, addr);
  }

  /** The types of inode by their modes, whatever the permissions: 0100000, 0040000, 0110000, 0010000, 0060000 and
      0020000 in octal, and none. A device is what has the bit 0020000. */
  lemma KindsOfModes(permissions: nat, mode: Word)
    requires permissions < 0x1000
    ensures KindOf(8 * 0x1000 + permissions) == Regular
    ensures KindOf(4 * 0x1000 + permissions) == Directory
    ensures KindOf(9 * 0x1000 + permissions) == SymLink
    ensures KindOf(1 * 0x1000 + permissions) == Pipe
    ensures KindOf(6 * 0x1000 + permissions) == BlockDevice
    ensures KindOf(2 * 0x1000 + permissions) == CharDevice
    ensures KindOf(permissions) == Unused
    ensures IsDevice(KindOf(mode)) <==> mode / 0x2000 % 2 == 1
  {
  }
}
