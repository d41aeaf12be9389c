/** A mounted volume: the in-core superblock, the inodes and the blocks of the device, with
    the kernel's operations on them. Blocks are read and written through the flat store that
    the buffer cache provides. */
module Volumes {
  import opened Basics
  import opened Blocks
  import opened FreeChain
  import opened SuperBlocks
  import opened FileTree
  import opened ByteFiles

  datatype Errno = NoError | EROFS | ENOSPC | ENODEV

  predicate WritableKind(k: Kind) {
    k.Regular? || k.Directory?
  }

  class Volume {
    // the superblock
    var mounted: Word
    var reserv: Word
    var isize: Word
    var fsize: Word
    var tfree: Word
    var nfree: Word
    var free: seq<Word>
    var readOnly: bool
    // the device and the inodes
    var store: Store
    var inodes: seq<Inode>
    // the I/O fields of the current process: error, the bytes of its memory, the place in it,
    // the number of bytes asked for and then moved, and the place in the file
    var error: Errno
    var umem: seq<Byte>
    var ubase: nat
    var ucount: Word
    var uoffset: nat

    // the free list as a stack, and what every block is used for
    ghost var stack: seq<Word>
    ghost var sealed: bool
    ghost var owner: map<Word, Owner>
    // the block that went onto the list when it was drained, 0 if none
    ghost var stray: Word

    constructor (mounted: Word, reserv: Word, isize: Word, fsize: Word, tfree: Word, nfree: Word, free: seq<Word>,
                 store: Store, inodes: seq<Inode>, readOnly: bool,
                 ghost stack: seq<Word>, ghost sealed: bool, ghost owner: map<Word, Owner>)
      ensures this.mounted == mounted && this.reserv == reserv && this.isize == isize && this.fsize == fsize
      ensures this.tfree == tfree && this.nfree == nfree && this.free == free && this.readOnly == readOnly
      ensures this.store == store && this.inodes == inodes && this.stack == stack && this.sealed == sealed
              && this.owner == owner && this.stray == 0
    {
      this.mounted, this.reserv, this.isize, this.fsize := mounted, reserv, isize, fsize;
      this.tfree, this.nfree, this.free, this.readOnly := tfree, nfree, free, readOnly;
      this.store, this.inodes, this.stack, this.sealed, this.owner, this.stray :=
        store, inodes, stack, sealed, owner, 0;
      this.error, this.umem, this.ubase, this.ucount, this.uoffset := NoError, [], 0, 0, 0;
    }

    ghost function Img(): Image
      reads this
    {
      Image(reserv + isize, fsize, nfree, free, tfree, store, inodes, stack, sealed, owner)
    }

    /** The free list alone is in order; the trees may be half taken apart. */
    ghost predicate FreeValid()
      reads this
    {
      FreeOk(Img())
    }

    ghost predicate Valid()
      reads this
    {
      Ok(Img()) && stray == 0
    }

    /** Whether f_trunc leaves the volume in order: the array of the free list has an entry, or there
        is nothing to free, or the first block to be freed happens to read as an empty list. For a
        device inode there must be no number. */
    predicate CanTruncate(i: nat)
      requires i < |inodes|
      reads this
    {
      var ws := FileSeq(store, inodes[i].addr);
      if IsDevice(inodes[i].kind) then inodes[i].addr[0] == 0
      else nfree != 0 || ws == [] || (ws[0] < |store| && Suits(store[ws[0]]))
    }

    /** The pointers of a device inode: the device number, which validblk lets pass, and no others. */
    predicate DeviceNumber(addr: Addr)
      reads this
    {
      (forall k | 0 < k < TOTALREFBLOCKS :: addr[k] == 0) && (addr[0] == 0 || IsDataBlock(addr[0]))
    }

    /** What validblk() insists on; it panics otherwise. */
    predicate IsDataBlock(b: Word)
      reads this
    {
      reserv + isize <= b < fsize
    }

    /** Reloads the array of the superblock from a chain block. */
    method Refill(blk: Word)
      requires blk < |store|
      modifies this`nfree, this`free
      ensures nfree == GetWord(store[blk], 0) && free == ChainWords(store[blk])
    {
      var buf := store[blk];
      nfree := GetWord(buf, 0);
      free := ChainWords(buf);
    }

    /** Saves the full array in the block being freed. The buffer taken for it is not read from
        the disk: beyond the 51 words written it keeps whatever it held (`stale`). */
    method Spill(blk: Word, stale: Block)
      requires blk < |store| && |free| == FSFREEBLOCKS
      modifies this`nfree, this`store
      ensures nfree == 0 && |store| == |old(store)|
      ensures GetWord(store[blk], 0) == old(nfree)
      ensures forall k | 0 <= k < FSFREEBLOCKS :: GetWord(store[blk], k + 1) == free[k]
      ensures forall b: Word | b < |store| && b != blk :: store[b] == old(store[b])
    {
      var buf := SetWord(stale, 0, nfree);
      buf := SetWords(buf, 1, free);
      store := store[blk := buf];
      nfree := 0;
    }

    /** What an operation that allocates reports: if it ran short of blocks ENOSPC, and a list without
        bottom entry then marks the volume as corrupt; nothing otherwise. */
    twostate predicate Reports(short: bool)
      reads this`error, this`mounted, this`sealed
    {
      && error == (if short then ENOSPC else old(error))
      && mounted == if short && !sealed then NOT_SMOUNTED else old(mounted)
    }

    /** Takes the top block off the free list and zeroes it, or returns 0. The two tests that
        would mark the volume as corrupt while blocks remain cannot fire. */
    method BlkAlloc() returns (newno: Word)
      requires FreeValid()
      modifies this`nfree, this`free, this`tfree, this`mounted, this`error, this`store, this`stack
      ensures FreeValid()
      ensures readOnly || old(stack) == [] ==>
                newno == 0 && unchanged(this`nfree, this`free, this`tfree, this`store, this`stack)
      ensures !readOnly && old(stack) != [] ==>
                && newno == old(stack[|stack| - 1]) && IsDataBlock(newno) && newno < |old(store)|
                && stack == old(stack[..|stack| - 1])
                && store == old(store)[newno := ZeroBlock()]
      ensures newno == 0 <==> readOnly || old(stack) == []
      ensures !readOnly ==> Reports(newno == 0)
      ensures mounted == if !readOnly && old(stack) == [] && !sealed then NOT_SMOUNTED else old(mounted)
      ensures error == if readOnly then EROFS else if old(stack) == [] then ENOSPC else old(error)
    {
      hide FreeOk, Chain;
      ghost var g := Img();
      TopOfList(g);
      if readOnly {
        error := EROFS;
        return 0;
      }
      if nfree == 0 || nfree > FSFREEBLOCKS {
        mounted := NOT_SMOUNTED;
        error := ENOSPC;
        return 0;
      }
      newno := free[nfree - 1];
      if newno == 0 {
        assert tfree == 0;  // else Corrupt
        error := ENOSPC;
        return 0;
      }
      nfree := nfree - 1;
      if nfree == 0 {
        Refill(newno);
      }
      assert IsDataBlock(newno);  // validblk does not panic
      assert tfree != 0;  // else Corrupt
      tfree := tfree - 1;
      store := store[newno := ZeroBlock()];
      stack := stack[..|stack| - 1];
      PopOk(g, Img());
    }

    /** The entry for a block, after a spill if the array is full. */
    method Enter(blk: Word, stale: Block)
      requires blk < |store| && |free| == FSFREEBLOCKS && nfree <= FSFREEBLOCKS && tfree < 0xFFFF
      modifies this`nfree, this`free, this`tfree, this`store, this`stack
      ensures Pushed(old(Img()), Img(), blk)
    {
      if nfree == FSFREEBLOCKS {
        Spill(blk, stale);
      }
      tfree := tfree + 1;
      free := free[nfree := blk];
      nfree := nfree + 1;
      stack := stack + [blk];
    }

    /** Puts a block on the free list, even if it is on it already. If the array was empty, the block
        becomes the bottom entry, and it depends on its words whether that makes a list. */
    method BlkFree(blk: Word, stale: Block)
      requires Loose(Img(), stray)
      requires blk != 0 && !readOnly ==> IsDataBlock(blk)
      modifies this`nfree, this`free, this`tfree, this`store, this`stack, this`sealed, this`stray
      ensures readOnly || blk == 0 ==> Img() == old(Img()) && stray == old(stray)
      ensures !readOnly && blk != 0 ==> Pushed(old(Img()), Img(), blk)
      ensures !readOnly && blk != 0 && blk !in old(stack) ==> Freed(old(Img()), old(stray), Img(), stray, [blk])
      ensures !readOnly && blk != 0 && old(FreeValid()) && blk in old(stack) ==> NoList(Img())
      ensures !readOnly && blk != 0 && old(nfree) == 0 ==>
                && nfree == 1 && free == old(free)[0 := blk] && store == old(store) && stack == [blk]
                && if Suits(store[blk]) then FreeValid() else NoList(Img())
    {
      hide FreeOk, Loose, Freed, Suits, NoList, Seals, Lands, Pushed;
      if readOnly || blk == 0 {
        return;
      }
      ghost var g, st := Img(), stray;
      LooseIs(g, st);
      LooseCount(g, st);
      Enter(blk, stale);
      if blk in g.stack {
        if FreeOk(g) {
          PushTwice(g, Img(), blk);
        }
      } else {
        ghost var g1 := Img();
        sealed, stray := Seals(g, [blk]), Lands(g, st, [blk]);
        PushedSame(g, g1, Img(), blk);
        FreedOne(g, st, Img(), blk);
        if g.nfree == 0 {
          FirstFreed(g, st, Img(), stray, blk);
        }
      }
    }

    /** Frees the tree at blk while blk_free overwrites blocks of it: children first, reading
        the pointer words from the store as it is then. A single block need not be in use. */
    method FreeBlk(blk: Word, level: nat, stale: Block)
      requires !readOnly && (blk != 0 ==> Loose(Img(), stray))
      requires Freeable(Img(), TreeSeq(store, blk, level)) || (level == 0 && IsDataBlock(blk))
      modifies this`nfree, this`free, this`tfree, this`store, this`stack, this`sealed, this`stray
      ensures blk == 0 ==> Img() == old(Img()) && stray == old(stray)
      ensures blk != 0 && level == 0 ==> Pushed(old(Img()), Img(), blk)
      ensures old(Loose(Img(), stray) && Freeable(Img(), TreeSeq(store, blk, level))) ==>
                Freed(old(Img()), old(stray), Img(), stray, old(TreeSeq(store, blk, level)))
      decreases level
    {
      hide FreeOk, Loose, Freed;
      ghost var g, st := Img(), stray;
      if Loose(g, st) {
        FreedNone(g, st);
      }
      if blk != 0 {
        if level != 0 {
          var j := 256;
          while j != 0
            invariant 0 <= j <= 256
            invariant Freed(g, st, Img(), stray, Kids(g.store, blk, j, level - 1))
          {
            j := j - 1;
            ghost var g1, st1, done := Img(), stray, Kids(g.store, blk, j + 1, level - 1);
            FreedIs(g, st, g1, st1, done);
            FreeChild(g, g1, blk, j, level - 1);
            FreeBlk(GetWord(store[blk], j), level - 1, stale);
            FreedThen(g, st, g1, st1, Img(), stray, done, TreeSeq(g.store, Ref(g.store, blk, j), level - 1));
          }
        }
        ghost var g1, st1, kids := Img(), stray, if level == 0 then [] else Kids(g.store, blk, 0, level - 1);
        FreedIs(g, st, g1, st1, kids);
        ghost var whole := Freeable(g, TreeSeq(g.store, blk, level));
        if whole {
          FreeItself(g, g1, blk, level);
        }
        BlkFree(blk, stale);
        if whole {
          FreedThen(g, st, g1, st1, Img(), stray, kids, [blk]);
          assert [] + [blk] == [blk];
        }
      }
    }

    /** The loop of f_trunc over the direct blocks; the trees of inode i are freed already. */
    method FreeDirects(i: nat, stale: Block, ghost g: Image, ghost st: Word)
      requires !readOnly && i < |inodes| && i < |g.inodes| && g.inodes[i].addr == inodes[i].addr
      requires IsDevice(inodes[i].kind) ==>
                 DeviceNumber(inodes[i].addr) && Img() == g && stray == st && Loose(g, st)
      requires !IsDevice(inodes[i].kind) ==>
                 && Freeable(g, FileSeq(g.store, inodes[i].addr))
                 && Freed(g, st, Img(), stray,
                          TreeSeq(g.store, inodes[i].addr[DOUBLE], 2) + TreeSeq(g.store, inodes[i].addr[SINGLE], 1))
      modifies this`nfree, this`free, this`tfree, this`store, this`stack, this`sealed, this`stray
      ensures !IsDevice(inodes[i].kind) ==> Freed(g, st, Img(), stray, FileSeq(g.store, inodes[i].addr))
      ensures IsDevice(inodes[i].kind) && inodes[i].addr[0] == 0 ==> Img() == g && stray == st
      ensures IsDevice(inodes[i].kind) && inodes[i].addr[0] != 0 ==> Pushed(g, Img(), inodes[i].addr[0])
    {
      hide FreeOk, Freeable, TreeSeq, FileSeq, Directs, Freed, Loose, Pushed;
      var addr := inodes[i].addr;
      ghost var device := IsDevice(inodes[i].kind);
      FileSeqIs(g.store, addr);
      ghost var trees := TreeSeq(g.store, addr[DOUBLE], 2) + TreeSeq(g.store, addr[SINGLE], 1);
      assert trees + Directs(addr, 0) == trees;
      var j := 0;
      while j != DIRECTBLOCKS
        invariant 0 <= j <= DIRECTBLOCKS
        invariant !device ==> Freed(g, st, Img(), stray, trees + Directs(addr, j))
        invariant device && (j == 0 || addr[0] == 0) ==> Img() == g && stray == st
        invariant device && j > 0 && addr[0] != 0 ==> Pushed(g, Img(), addr[0])
      {
        ghost var g1, st1 := Img(), stray;
        if device {
          NothingFreeable(g1);
        } else {
          FreedIs(g, st, g1, st1, trees + Directs(addr, j));
          TruncDirect(g, g1, i, j);
        }
        FreeBlk(addr[j], 0, stale);
        if !device {
          FreedThen(g, st, g1, st1, Img(), stray, trees + Directs(addr, j), TreeSeq(g1.store, addr[j], 0));
          ConcatAssoc(trees, Directs(addr, j), TreeSeq(g1.store, addr[j], 0));
        }
        j := j + 1;
      }
    }

    /** Frees every block of an inode. The double indirect tree goes first, then the single
        indirect one, then the direct blocks. */
    method FreeFile(i: nat, stale: Block)
      requires Loose(Img(), stray) && !readOnly && i < |inodes|
      requires if IsDevice(inodes[i].kind) then DeviceNumber(inodes[i].addr)
               else Freeable(Img(), FileSeq(store, inodes[i].addr))
      modifies this`nfree, this`free, this`tfree, this`store, this`stack, this`sealed, this`stray
      ensures !IsDevice(inodes[i].kind) ==>
                Freed(old(Img()), old(stray), Img(), stray, old(FileSeq(store, inodes[i].addr)))
      ensures IsDevice(inodes[i].kind) && inodes[i].addr[0] == 0 ==> Img() == old(Img()) && stray == old(stray)
      ensures IsDevice(inodes[i].kind) && inodes[i].addr[0] != 0 ==> Pushed(old(Img()), Img(), inodes[i].addr[0])
    {
      hide FreeOk, Freeable, TreeSeq, Directs, Freed, Loose, FileSeq, Pushed;
      ghost var g, st := Img(), stray;
      var addr := inodes[i].addr;
      ghost var device := IsDevice(inodes[i].kind);
      NothingFreeable(g);
      if !device {
        TruncPlan(g, i);
      }
      FreeBlk(addr[DOUBLE], 2, stale);
      ghost var g1, st1 := Img(), stray;
      if !device {
        FreedIs(g, st, g1, st1, TreeSeq(g.store, addr[DOUBLE], 2));
        TruncSingle(g, g1, i);
      }
      FreeBlk(addr[SINGLE], 1, stale);
      if !device {
        FreedThen(g, st, g1, st1, Img(), stray, TreeSeq(g.store, addr[DOUBLE], 2), TreeSeq(g.store, addr[SINGLE], 1));
      }
      FreeDirects(i, stale, g, st);
    }

    /** Frees every block of an inode and clears its pointers; for a device inode it takes the number for
        that of a block. Afterwards the volume is in order, or nothing makes it so. */
    method FTrunc(i: nat, stale: Block)
      requires Valid() && !readOnly && i < |inodes| && (IsDevice(inodes[i].kind) ==> DeviceNumber(inodes[i].addr))
      modifies this`nfree, this`free, this`tfree, this`store, this`stack, this`sealed, this`owner,
               this`inodes, this`stray
      ensures if old(CanTruncate(i)) then Valid() else Hopeless(Img())
      ensures inodes == old(inodes)[i := old(inodes)[i].(addr := NoBlocks(), dirty := true, size := 0)]
      ensures !IsDevice(inodes[i].kind) && !old(CanTruncate(i)) ==> NoList(Img())
      ensures !IsDevice(inodes[i].kind) ==>
                && stack == old(stack) + old(FileSeq(store, inodes[i].addr))
                && OnlyTouches(old(store), store, old(FileSeq(store, inodes[i].addr)))
                && forall t: Slot :: Holds(Img(), t) == if t.ino == i then 0 else old(Holds(Img(), t))
      ensures IsDevice(inodes[i].kind) && old(inodes[i].addr[0]) == 0 ==>
                && stack == old(stack) && store == old(store) && nfree == old(nfree) && free == old(free)
                && forall t: Slot :: Holds(Img(), t) == old(Holds(Img(), t))
      ensures IsDevice(inodes[i].kind) && old(inodes[i].addr[0]) != 0 ==> stack == old(stack) + [old(inodes[i].addr[0])]
    {
      hide FreeOk, FileSeq, At, Loose, Ok, NoList, Hopeless, Freed, Suits, Pushed, Truncated;
      ghost var g := Img();
      ghost var addr := inodes[i].addr;
      OkLoose(g);
      if !IsDevice(inodes[i].kind) {
        FileFreeable(g, i);
      }
      FreeFile(i, stale);
      ghost var g1 := Img();
      inodes := inodes[i := inodes[i].(addr := NoBlocks(), dirty := true, size := 0)];
      if !IsDevice(inodes[i].kind) {
        FreedOutcome(g, g1, stray, FileSeq(g.store, addr));
        FreedIs(g, 0, g1, stray, FileSeq(g.store, addr));
        owner := Released(owner, FileSeq(g.store, addr));
        Truncates(g, g1, Img(), stray, i);
        if stray != 0 {
          NoListSame(g1, Img());
          NoListHopeless(Img());
        }
      } else {
        DeviceTruncated(g, g1, Img(), i);
      }
    }

    /** bmap, a missing pointer of the inode: allocate a block and record it. */
    method AllocRoot(i: nat, k: nat) returns (nb: Word)
      requires Ok(Img()) && !readOnly && Reachable(Img(), Root(i, k)) && Holds(Img(), Root(i, k)) == 0
      modifies this`nfree, this`free, this`tfree, this`mounted, this`error, this`store, this`stack, this`owner,
               this`inodes
      ensures nb == 0 ==> Img() == old(Img()) && stack == []
      ensures nb != 0 ==> Grown(old(Img()), Img(), {Root(i, k)}) && Holds(Img(), Root(i, k)) == nb
      ensures Reports(nb == 0) && (nb != 0 ==> |old(stack)| > 0 && nb == old(stack)[|old(stack)| - 1])
    {
      hide FreeOk, Grown, Reports;
      ghost var g := Img();
      TopOfList(g);
      nb := BlkAlloc();
      if nb != 0 {
        ghost var g1 := Img();
        inodes := inodes[i := inodes[i].(addr := inodes[i].addr[k := nb], dirty := true)];
        owner := owner[nb := Used(Root(i, k))];
        RecordRoot(g, g1, Img(), i, k, nb);
      }
    }

    /** The number of a new block is written to the pointer block. */
    method PutPointer(p: Word, j: nat, nb: Word, ghost s: Slot)
      requires p < |store| && j < 256
      modifies this`store, this`owner
      ensures Img() == old(Img()).(store := old(store)[p := SetWord(old(store)[p], j, nb)],
                                   owner := old(owner)[nb := Used(s)])
    {
      store := store[p := SetWord(store[p], j, nb)];
      owner := owner[nb := Used(s)];
    }

    /** bmap, a missing word j of pointer block p, the block that slot s lies in. */
    method AllocBelow(p: Word, j: nat, ghost s: Slot) returns (nb: Word)
      requires Ok(Img()) && !readOnly && !s.Root? && Reachable(Img(), s) && Holds(Img(), s) == 0
      requires p == Holds(Img(), Parent(s)) && j == Index(s)
      modifies this`nfree, this`free, this`tfree, this`mounted, this`error, this`store, this`stack, this`owner
      ensures nb == 0 ==> Img() == old(Img()) && stack == []
      ensures nb != 0 ==> Grown(old(Img()), Img(), {s}) && Holds(Img(), s) == nb
      ensures Reports(nb == 0) && (nb != 0 ==> |old(stack)| > 0 && nb == old(stack)[|old(stack)| - 1])
    {
      hide FreeOk, Grown, Reports;
      ghost var g := Img();
      HeldNotFree(g, Parent(s));
      TopOfList(g);
      assert Index(s) < 256;
      hide Ok, Holds, Reachable, Parent, Index;
      nb := BlkAlloc();
      if nb != 0 {
        ghost var g1 := Img();
        PutPointer(p, j, nb, s);
        RecordBelow(g, g1, Img(), s, nb, p);
      }
    }
  
    /** The block of the device that holds logical block bn of inode i, or NULLBLK. When
        writing, the blocks missing on the way are allocated. */
    method Bmap(i: nat, bn: Word, rdflg: bool) returns (nb: Word)
      requires Ok(Img()) && i < |inodes| && (rdflg || !readOnly)
      modifies this`nfree, this`free, this`tfree, this`mounted, this`error, this`store, this`stack, this`owner,
               this`inodes
      ensures IsDevice(old(inodes[i].kind)) ==>
                nb == bn && Img() == old(Img()) && mounted == old(mounted) && error == old(error)
      ensures !IsDevice(old(inodes[i].kind)) && rdflg ==>
                && Img() == old(Img()) && mounted == old(mounted) && error == old(error)
                && nb == if Holds(Img(), Place(i, bn)) == 0 then NULLBLK else Holds(Img(), Place(i, bn))
      ensures !IsDevice(old(inodes[i].kind)) && !rdflg ==>
                Mapped(old(Img()), Img(), i, bn, nb) && Reports(nb == NULLBLK)
      ensures !IsDevice(old(inodes[i].kind)) && !rdflg && nb != NULLBLK && old(Holds(Img(), Place(i, bn))) == 0 ==>
                |stack| < |old(stack)| && nb == old(stack)[|stack|]
    {
      if IsDevice(inodes[i].kind) {
        return bn;
      }
      ghost var g := Img();
      FilledNone(g);
      if bn < DIRECTBLOCKS {
        nb := inodes[i].addr[bn];
        if nb == 0 {
          if rdflg {
            return NULLBLK;
          }
          nb := AllocRoot(i, bn);
          if nb == 0 {
            MappedShort(g, Img(), {}, Root(i, bn), i, bn);
            return NULLBLK;
          }
          FilledStep(g, g, Img(), {}, Root(i, bn));
        } else {
          FilledPass(g, g, {}, Root(i, bn));
        }
        MappedDone(g, Img(), i, bn);
        return nb;
      }
      nb := BmapIndirect(i, bn, rdflg);
    }

    /** The rest of bmap: through the single or the double indirect block. */
    method BmapIndirect(i: nat, bn0: Word, rdflg: bool) returns (nb: Word)
      requires Ok(Img()) && i < |inodes| && (rdflg || !readOnly)
      requires bn0 >= DIRECTBLOCKS && !IsDevice(inodes[i].kind)
      modifies this`nfree, this`free, this`tfree, this`mounted, this`error, this`store, this`stack, this`owner,
               this`inodes
      ensures rdflg ==>
                && Img() == old(Img()) && mounted == old(mounted) && error == old(error)
                && nb == if Holds(Img(), Place(i, bn0)) == 0 then NULLBLK else Holds(Img(), Place(i, bn0))
      ensures !rdflg ==> Mapped(old(Img()), Img(), i, bn0, nb) && Reports(nb == NULLBLK)
      ensures !rdflg && nb != NULLBLK && old(Holds(Img(), Place(i, bn0))) == 0 ==>
                |stack| < |old(stack)| && nb == old(stack)[|stack|]
    {
      hide Filled, Mapped, Grown, Ok, FreeOk;
      ghost var g := Img();
      var bn := bn0 - DIRECTBLOCKS;
      var sh := 0;
      var j := 2;
      if bn >= WORDS_PER_BLOCK {
        sh := 8;
        bn := bn - WORDS_PER_BLOCK;
        j := j - 1;
      }
      nb := BmapTop(i, TOTALREFBLOCKS - j, rdflg, bn0, j);
      if nb == 0 {
        return NULLBLK;
      }
      while j <= 2
        invariant 1 <= j <= 3 && (j == 1 ==> bn0 >= DIRECTBLOCKS + 256)
        invariant j <= 2 ==> sh == 8 * (2 - j)
        invariant bn == Remaining(bn0)
        invariant Filled(g, Img(), Passed(i, bn0, j))
        invariant (rdflg ==> Img() == g) && mounted == old(mounted) && error == old(error)
        invariant nb == Holds(Img(), Stop(i, bn0, j)) && nb != 0
        invariant !rdflg && j == 3 && Holds(g, Place(i, bn0)) == 0 ==> |stack| < |g.stack| && nb == g.stack[|stack|]
      {
        nb := BmapStep(nb, Shift(bn, sh) % WORDS_PER_BLOCK, rdflg, i, bn0, j, g);
        if nb == 0 {
          return NULLBLK;
        }
        sh := sh - 8;
        j := j + 1;
      }
      MappedDone(g, Img(), i, bn0);
    }

    /** The pointer of the inode that bmap starts from, allocated if missing. */
    method BmapTop(i: nat, k: nat, rdflg: bool, ghost bn: Word, ghost j: nat) returns (nb: Word)
      requires Ok(Img()) && i < |inodes| && (rdflg || !readOnly) && !IsDevice(inodes[i].kind)
      requires DIRECTBLOCKS <= bn && j == (if bn < DIRECTBLOCKS + 256 then 2 else 1) && k == TOTALREFBLOCKS - j
      modifies this`nfree, this`free, this`tfree, this`mounted, this`error, this`store, this`stack, this`owner,
               this`inodes
      ensures rdflg ==> Img() == old(Img()) && mounted == old(mounted) && error == old(error)
      ensures nb != 0 ==> Filled(old(Img()), Img(), Passed(i, bn, j)) && nb == Holds(Img(), Stop(i, bn, j))
      ensures nb == 0 ==> if rdflg then Holds(Img(), Place(i, bn)) == 0 else Mapped(old(Img()), Img(), i, bn, NULLBLK)
      ensures Reports(nb == 0 && !rdflg)
    {
      ghost var g := Img();
      FilledNone(g);
      assert {Root(i, k)} == {} + {Root(i, k)} == Passed(i, bn, j);
      nb := inodes[i].addr[k];
      if nb == 0 {
        if rdflg {
          return;
        }
        nb := AllocRoot(i, k);
        if nb == 0 {
          MappedShort(g, Img(), {}, Root(i, k), i, bn);
          return;
        }
        FilledStep(g, g, Img(), {}, Root(i, k));
      } else {
        FilledPass(g, g, {}, Root(i, k));
      }
    }

    /** One turn of the loop in bmap: word k of pointer block p, allocated if missing. */
    method BmapStep(p: Word, k: nat, rdflg: bool, ghost i: nat, ghost bn: Word, ghost j: nat, ghost g: Image)
      returns (nb: Word)
      requires (rdflg || !readOnly) && DIRECTBLOCKS <= bn && 1 <= j <= 2 && (j == 1 ==> bn >= DIRECTBLOCKS + 256)
      requires Filled(g, Img(), Passed(i, bn, j))
      requires p == Holds(Img(), Stop(i, bn, j)) && p != 0 && k == Shift(Remaining(bn), 8 * (2 - j)) % 256
      modifies this`nfree, this`free, this`tfree, this`mounted, this`error, this`store, this`stack, this`owner
      ensures rdflg ==> Img() == old(Img()) && mounted == old(mounted) && error == old(error)
      ensures nb != 0 ==> Filled(g, Img(), Passed(i, bn, j + 1)) && nb == Holds(Img(), Stop(i, bn, j + 1))
      ensures !rdflg && nb != 0 && Holds(g, Stop(i, bn, j + 1)) == 0 ==> |stack| < |g.stack| && nb == g.stack[|stack|]
      ensures nb == 0 ==> if rdflg then Holds(Img(), Place(i, bn)) == 0 else Mapped(g, Img(), i, bn, NULLBLK)
      ensures Reports(nb == 0 && !rdflg)
    {
      ghost var g1 := Img();
      FilledOk(g, g1, Passed(i, bn, j));
      hide Grown, Mapped, FreeOk, Filled, Ok, Passed;
      StopBelow(g1, i, bn, j);
      HeldNotFree(g1, Stop(i, bn, j));
      nb := GetWord(store[p], k);
      if nb != 0 {
        StepThere(g, g1, i, bn, j);
      } else if !rdflg {
        nb := BmapFill(p, k, i, bn, j, g);
      } else {
        LastStop(g1, i, bn, j);
      }
    }

    /** That word when it is missing. */
    method BmapFill(p: Word, k: nat, ghost i: nat, ghost bn: Word, ghost j: nat, ghost g: Image) returns (nb: Word)
      requires !readOnly && DIRECTBLOCKS <= bn && 1 <= j <= 2 && (j == 1 ==> bn >= DIRECTBLOCKS + 256)
      requires Filled(g, Img(), Passed(i, bn, j)) && Holds(Img(), Stop(i, bn, j + 1)) == 0
      requires p == Holds(Img(), Stop(i, bn, j)) && p != 0 && k == Shift(Remaining(bn), 8 * (2 - j)) % 256
      modifies this`nfree, this`free, this`tfree, this`mounted, this`error, this`store, this`stack, this`owner
      ensures nb != 0 ==> Filled(g, Img(), Passed(i, bn, j + 1)) && nb == Holds(Img(), Stop(i, bn, j + 1))
      ensures nb != 0 ==> |stack| < |g.stack| && nb == g.stack[|stack|]
      ensures nb == 0 ==> Mapped(g, Img(), i, bn, NULLBLK)
      ensures Reports(nb == 0)
    {
      ghost var g1 := Img();
      FilledOk(g, g1, Passed(i, bn, j));
      hide Grown, Mapped, FreeOk, Filled, Ok, Passed, Holds, Reports, Stop, Reachable, Shift, Remaining, Parent, Index;
      StopBelow(g1, i, bn, j);
      nb := AllocBelow(p, k, Stop(i, bn, j + 1));
      if nb == 0 {
        StepShort(g, g1, i, bn, j);
      } else {
        StepTaken(g, g1, Img(), i, bn, j, nb);
      }
    }

    /** The caller's side of a transfer: the buffer exists, the count is not negative as a
        16-bit integer, and the file range has 16-bit block numbers. */
    predicate Request()
      reads this
    {
      ubase + ucount <= |umem| && ucount <= 0x7FFF && uoffset + ucount <= MAXBYTES
    }

    /** The same for what a read can get of a file: the count is cut at its end before anything else. */
    predicate ReadRequest(i: nat)
      requires i < |inodes|
      reads this
    {
      var n := Readable(inodes[i].size, uoffset, ucount);
      ubase + n <= |umem| && n <= 0x7FFF && (n == 0 || uoffset + n <= MAXBYTES)
    }

    /** Puts `amount` bytes of the caller into block pblk at position uoff. A whole block is
        written into a buffer that was not read (`stale`). */
    method PutBytes(pblk: Word, uoff: nat, amount: nat, stale: Block)
      requires pblk < |store| && uoff + amount <= BUFSIZE && ubase + amount <= |umem|
      modifies this`store
      ensures |store| == |old(store)| && store == old(store)[pblk := store[pblk]]
      ensures Patched(old(store)[pblk], store[pblk], uoff, umem[ubase..ubase + amount])
    {
      var bp := if amount == BUFSIZE then stale else store[pblk];
      bp := bp[..uoff] + umem[ubase..ubase + amount] + bp[uoff + amount..];
      store := store[pblk := bp];
    }

    /** The loop of readwritei when writing. It gets through exactly when the free list covers
        the blocks that are missing; otherwise the bytes before the stop are written. */
    method WriteLoop(i: nat, stale: Block) returns (done: bool)
      requires Ok(Img()) && i < |inodes| && !readOnly && !IsDevice(inodes[i].kind) && Request()
      modifies this`nfree, this`free, this`tfree, this`mounted, this`error, this`store, this`stack, this`owner,
               this`inodes, this`ubase, this`uoffset
      ensures done <==> |Missing(old(Img()), i, old(uoffset) / 512, EndBlock(old(uoffset), ucount))| <= |old(stack)|
      ensures old(uoffset) <= uoffset <= old(uoffset) + ucount && ubase - old(ubase) == uoffset - old(uoffset)
      ensures if done then uoffset == old(uoffset) + ucount
              else stack == [] && uoffset < old(uoffset) + ucount && Holds(Img(), Place(i, uoffset / 512)) == 0
      ensures Reports(!done)
      ensures Wrote(old(Img()), Img(), i, old(uoffset), umem[old(ubase)..ubase])
    {
      hide Ok, Writing, Wrote, Missing, Place, Holds, EndBlock, IsDevice;
      ghost var g := Img();
      ghost var o := uoffset;
      WritingStarts(g, i, o, ucount);
      assert umem[ubase..ubase] == [];
      var todo: nat := ucount;
      while todo != 0
        invariant 0 <= todo <= ucount
        invariant uoffset == o + (ucount - todo) && ubase == old(ubase) + (ucount - todo)
        invariant Writing(g, Img(), i, o, ucount, umem[old(ubase)..ubase])
        invariant i < |inodes| && !IsDevice(inodes[i].kind) && error == old(error) && mounted == old(mounted)
      {
        var amount := WriteTurn(i, todo, stale, g, o, old(ubase));
        if amount == 0 {
          return false;
        }
        todo := todo - amount;
      }
      WritingEnds(g, Img(), i, o, ucount, umem[old(ubase)..ubase]);
      done := true;
    }

    /** One turn of that loop. */
    method WriteTurn(i: nat, todo: nat, stale: Block, ghost g: Image, ghost o: nat, ghost b: nat) returns (amount: nat)
      requires i < |inodes| && !readOnly && !IsDevice(inodes[i].kind) && o + ucount <= MAXBYTES
      requires 0 < todo <= ucount <= 0x7FFF && uoffset == o + (ucount - todo) && ubase + todo <= |umem|
      requires ubase == b + (ucount - todo) && Writing(g, Img(), i, o, ucount, umem[b..ubase])
      modifies this`nfree, this`free, this`tfree, this`mounted, this`error, this`store, this`stack, this`owner,
               this`inodes, this`ubase, this`uoffset
      ensures amount <= todo && uoffset == old(uoffset) + amount && ubase == old(ubase) + amount
      ensures i < |inodes| && !IsDevice(inodes[i].kind) && Reports(amount == 0)
      ensures amount != 0 ==> Writing(g, Img(), i, o, ucount, umem[b..ubase])
      ensures amount == 0 ==>
                && |Missing(g, i, o / 512, EndBlock(o, ucount))| > |g.stack| && stack == []
                && Wrote(g, Img(), i, o, umem[b..ubase]) && Holds(Img(), Place(i, uoffset / 512)) == 0
    {
      hide Ok, Writing, Wrote, Missing, Place, Holds, EndBlock, IsDevice, Reports;
      ghost var data := umem[b..ubase];
      amount := WriteOne(i, todo, stale, g, o, data);
      assert umem[b..ubase + amount] == data + umem[ubase..ubase + amount];
      ubase := ubase + amount;
      uoffset := uoffset + amount;
    }

    /** The part of the transfer that falls in one block. */
    method WriteOne(i: nat, todo: nat, stale: Block, ghost g: Image, ghost o: nat, ghost data: seq<Byte>)
      returns (amount: nat)
      requires i < |inodes| && !readOnly && !IsDevice(inodes[i].kind) && o + ucount <= MAXBYTES
      requires 0 < todo <= ucount <= 0x7FFF && uoffset == o + (ucount - todo) && ubase + todo <= |umem|
      requires |data| == ucount - todo && Writing(g, Img(), i, o, ucount, data)
      modifies this`nfree, this`free, this`tfree, this`mounted, this`error, this`store, this`stack, this`owner,
               this`inodes
      ensures |inodes| == |old(inodes)| && inodes[i].kind == old(inodes)[i].kind
      ensures amount <= todo && Reports(amount == 0)
      ensures amount != 0 ==> Writing(g, Img(), i, o, ucount, data + umem[ubase..ubase + amount])
      ensures amount == 0 ==>
                && |Missing(g, i, o / 512, EndBlock(o, ucount))| > |g.stack| && stack == []
                && Wrote(g, Img(), i, o, data) && Holds(Img(), Place(i, (o + |data|) / 512)) == 0
    {
      hide Ok, Mapped, Grown, Wrote, Patched, Writing;
      WritingOk(g, Img(), i, o, ucount, data);
      var ublk := BlockIndex(uoffset);
      var uoff := InBlock(uoffset);
      ghost var g1 := Img();
      var pblk := Bmap(i, ublk, false);
      ghost var g2 := Img();
      amount := SignedMin(todo, BUFSIZE - uoff);
      MappedInside(g1, g2, i, ublk, pblk);
      if pblk == NULLBLK {
        WritingShort(g, g1, g2, i, o, ucount, data);
        return 0;
      }
      PutBytes(pblk, uoff, amount, stale);
      WritingStep(g, g1, g2, Img(), i, o, ucount, data, pblk, umem[ubase..ubase + amount], store[pblk]);
    }
  
    /** The loop of readwritei when reading; a block that does not exist is a zeroed buffer. */
    method ReadLoop(i: nat)
      requires Ok(Img()) && i < |inodes| && !IsDevice(inodes[i].kind)
      requires ubase + ucount <= |umem| && ucount <= 0x7FFF && (ucount == 0 || uoffset + ucount <= MAXBYTES)
      modifies this`umem, this`ubase, this`uoffset, this`nfree, this`free, this`tfree, this`mounted, this`error,
               this`store, this`stack, this`owner, this`inodes
      ensures Img() == old(Img()) && mounted == old(mounted) && error == old(error)
      ensures |umem| == |old(umem)|
      ensures ubase == old(ubase) + ucount && uoffset == old(uoffset) + ucount
      ensures umem == old(umem)[..old(ubase)] + Bytes(Img(), i, old(uoffset), ucount) + old(umem)[ubase..]
    {
      hide Ok, Holds, Place, ByteAt, Bytes, InBlock;
      ghost var g, b, o := Img(), ubase, uoffset;
      var todo: nat := ucount;
      ReadNothing(Img(), i, o, umem, b);
      while todo != 0
        invariant 0 <= todo <= ucount
        invariant uoffset == o + (ucount - todo) && ubase == b + (ucount - todo) && |umem| == |old(umem)|
        invariant Img() == g && mounted == old(mounted) && error == old(error)
        invariant umem == old(umem)[..b] + Bytes(Img(), i, o, ucount - todo) + old(umem)[ubase..]
      {
        var amount := ReadOne(i, todo, old(umem), b, o);
        ubase := ubase + amount;
        uoffset := uoffset + amount;
        todo := todo - amount;
      }
    }

    /** One turn of that loop. */
    method ReadOne(i: nat, todo: nat, ghost mem: seq<Byte>, ghost b: nat, ghost o: nat) returns (amount: nat)
      requires Ok(Img()) && i < |inodes| && !IsDevice(inodes[i].kind)
      requires 0 < todo <= 0x7FFF && uoffset + todo <= MAXBYTES && ubase + todo <= |umem|
      requires o <= uoffset && ubase - b == uoffset - o && |mem| == |umem|
      requires umem == mem[..b] + Bytes(Img(), i, o, uoffset - o) + mem[ubase..]
      modifies this`umem, this`nfree, this`free, this`tfree, this`mounted, this`error, this`store, this`stack,
               this`owner, this`inodes
      ensures Img() == old(Img()) && mounted == old(mounted) && error == old(error)
      ensures 0 < amount <= todo && |umem| == |mem|
      ensures umem == mem[..b] + Bytes(Img(), i, o, uoffset - o + amount) + mem[ubase + amount..]
    {
      hide Ok, Bytes, ByteAt, Place, Shown, InBlock, Holds;
      var uoff := InBlock(uoffset);
      var bp := ReadBlock(i);
      amount := SignedMin(todo, BUFSIZE - uoff);
      BytesShown(Img(), i, uoffset, amount);
      BytesMore(Img(), i, o, uoffset - o, amount);
      SpliceMore(mem, umem, b, Bytes(Img(), i, o, uoffset - o), bp[uoff..uoff + amount], ubase);
      umem := umem[..ubase] + bp[uoff..uoff + amount] + umem[ubase + amount..];
    }

    /** The buffer a read copies from: the block of the file, or zeros if there is none. */
    method ReadBlock(i: nat) returns (bp: Block)
      requires Ok(Img()) && i < |inodes| && !IsDevice(inodes[i].kind) && uoffset < MAXBYTES
      modifies this`nfree, this`free, this`tfree, this`mounted, this`error, this`store, this`stack,
               this`owner, this`inodes
      ensures Img() == old(Img()) && mounted == old(mounted) && error == old(error)
      ensures bp == Shown(Img(), Place(i, uoffset / 512))
    {
      hide Ok, Place;
      var ublk := BlockIndex(uoffset);
      var pblk := Bmap(i, ublk, true);
      if Holds(Img(), Place(i, ublk)) != 0 {
        HeldNotFree(Img(), Place(i, ublk));
      }
      bp := if pblk == NULLBLK then ZeroBlock() else store[pblk];
    }
  
    /** readwritei on a regular file, directory or symbolic link, reading side: delivers the
        bytes of the file up to its end. */
    method ReadI(i: nat)
      requires Ok(Img()) && i < |inodes| && !IsDevice(inodes[i].kind) && ReadRequest(i)
      modifies this`umem, this`ubase, this`ucount, this`uoffset, this`nfree, this`free, this`tfree, this`mounted,
               this`error, this`store, this`stack, this`owner, this`inodes
      ensures Img() == old(Img()) && mounted == old(mounted) && error == old(error)
      ensures ucount == Readable(inodes[i].size, old(uoffset), old(ucount)) <= old(ucount)
      ensures ucount > 0 ==> old(uoffset) + ucount <= inodes[i].size
      ensures ucount < old(ucount) ==>
                old(uoffset) + ucount == inodes[i].size || (ucount == 0 && old(uoffset) >= inodes[i].size)
      ensures uoffset == old(uoffset) + ucount && ubase == old(ubase) + ucount
      ensures umem == old(umem)[..old(ubase)] + Bytes(Img(), i, old(uoffset), ucount) + old(umem)[ubase..]
    {
      hide Ok, Bytes;
      if uoffset >= inodes[i].size {
        ucount := 0;
        ReadNothing(Img(), i, uoffset, umem, ubase);
        return;
      }
      if uoffset + ucount > inodes[i].size {
        ucount := inodes[i].size - uoffset;
      }
      ReadLoop(i);
    }

    /** readwritei on a regular file or directory, writing side. When space runs out, neither
        the size of the file nor the count of the request is updated. */
    method WriteI(i: nat, stale: Block)
      requires Ok(Img()) && i < |inodes| && !readOnly && !IsDevice(inodes[i].kind) && Request()
      modifies this`ubase, this`uoffset, this`nfree, this`free, this`tfree, this`mounted,
               this`error, this`store, this`stack, this`owner, this`inodes
      ensures old(uoffset) <= uoffset <= old(uoffset) + ucount && ubase - old(ubase) == uoffset - old(uoffset)
      ensures WriteOutcome(old(Img()), Img(), i, old(uoffset), umem[old(ubase)..old(ubase) + ucount],
              uoffset - old(uoffset))
      ensures Reports(uoffset < old(uoffset) + ucount)
    {
      hide Ok, BytesPut, Missing;
      ghost var g := Img();
      var done := WriteLoop(i, stale);
      SliceTake(umem, old(ubase), ucount, uoffset - old(uoffset));
      if !done {
        return;
      }
      ghost var g1 := Img();
      if uoffset > inodes[i].size {
        inodes := inodes[i := inodes[i].(size := uoffset, dirty := true)];
      }
      WroteResized(g, g1, Img(), i, old(uoffset), umem[old(ubase)..ubase], inodes[i].size, inodes[i].dirty);
    }

    /** readwritei for the kinds of inode that have no driver behind them. */
    method ReadWriteI(write: bool, i: nat, stale: Block)
      requires Ok(Img()) && i < |inodes| && (write && !inodes[i].readonly ==> !readOnly)
      requires if write then Request() else ReadRequest(i)
      requires !IsDevice(inodes[i].kind) && !inodes[i].kind.Pipe?
      modifies this`umem, this`ubase, this`ucount, this`uoffset, this`nfree, this`free, this`tfree, this`mounted,
               this`error, this`store, this`stack, this`owner, this`inodes
      ensures write && old(inodes)[i].readonly ==> error == EROFS
      ensures !(write && old(inodes)[i].readonly)
              && (old(inodes)[i].kind.Unused? || (write && old(inodes)[i].kind.SymLink?))
              ==> error == ENODEV
      ensures write && (old(inodes)[i].readonly || !WritableKind(old(inodes)[i].kind)) ==>
                Img() == old(Img()) && ucount == old(ucount) && uoffset == old(uoffset)
      ensures write ==> umem == old(umem)
      ensures write && !old(inodes)[i].readonly && WritableKind(old(inodes)[i].kind) ==>
                && ucount == old(ucount) && old(uoffset) <= uoffset
                && WriteOutcome(old(Img()), Img(), i, old(uoffset), old(umem[ubase..ubase + ucount]),
                  uoffset - old(uoffset))
                && uoffset <= old(uoffset) + ucount && Reports(uoffset < old(uoffset) + ucount)
      ensures !write ==> Img() == old(Img()) && mounted == old(mounted)
      ensures !write && !old(inodes)[i].kind.Unused? ==>
                && error == old(error) && ucount <= old(ucount)
                && (ucount > 0 ==> old(uoffset) + ucount <= inodes[i].size)
                && (ucount < old(ucount) ==>
                      old(uoffset) + ucount == inodes[i].size || (ucount == 0 && old(uoffset) >= inodes[i].size))
      ensures !write && old(inodes)[i].kind.Unused? ==> ucount == 0xFFFF && umem == old(umem) && uoffset == old(uoffset)
      ensures !write && !old(inodes)[i].kind.Unused? ==>
                && ucount == Readable(inodes[i].size, old(uoffset), old(ucount)) && uoffset == old(uoffset) + ucount
                && umem == old(umem)[..old(ubase)] + Bytes(Img(), i, old(uoffset), ucount)
                  + old(umem)[old(ubase) + ucount..]
    {
      hide Ok, WriteOutcome, Bytes;
      if write && inodes[i].readonly {
        error := EROFS;
        return;
      }
      if inodes[i].kind.Unused? || (write && inodes[i].kind.SymLink?) {
        error := ENODEV;
        if !write {
          ucount := 0xFFFF;
        }
      } else if write {
        WriteI(i, stale);
      } else {
        ReadI(i);
      }
    }

    /** truncateto0: only regular files are cut. */
    method TruncateTo0(i: nat, stale: Block)
      requires Valid() && !readOnly && i < |inodes|
      modifies this`nfree, this`free, this`tfree, this`store, this`stack, this`sealed, this`owner,
               this`inodes, this`stray
      ensures if old(inodes)[i].kind.Regular? ==> old(CanTruncate(i)) then Valid() else Hopeless(Img())
      ensures !old(inodes)[i].kind.Regular? ==> Img() == old(Img())
      ensures old(inodes)[i].kind.Regular? ==>
                && stack == old(stack) + old(FileSeq(store, inodes[i].addr))
                && OnlyTouches(old(store), store, old(FileSeq(store, inodes[i].addr)))
                && inodes == old(inodes)[i := old(inodes)[i].(addr := NoBlocks(), dirty := true, size := 0)]
                && forall t: Slot :: Holds(Img(), t) == if t.ino == i then 0 else old(Holds(Img(), t))
    {
      if inodes[i].kind.Regular? {
        FTrunc(i, stale);
      }
    }

    /** i_deref on the last reference: frees the blocks and the inode itself. */
    method FreeInode(i: nat, stale: Block)
      requires Valid() && !readOnly && i < |inodes| && (IsDevice(inodes[i].kind) ==> DeviceNumber(inodes[i].addr))
      modifies this`nfree, this`free, this`tfree, this`store, this`stack, this`sealed, this`owner,
               this`inodes, this`stray
      ensures if old(CanTruncate(i)) then Valid() else Hopeless(Img())
      ensures !old(IsDevice(inodes[i].kind)) && !old(CanTruncate(i)) ==> NoList(Img())
      ensures inodes
              == old(inodes)[i := old(inodes)[i].(size := 0, addr := NoBlocks(), kind := Unused, dirty := true)]
      ensures old(IsDevice(inodes[i].kind)) && old(inodes[i].addr[0]) == 0 ==>
                stack == old(stack) && store == old(store) && nfree == old(nfree) && free == old(free)
      ensures !old(IsDevice(inodes[i].kind)) ==>
                && stack == old(stack) + old(FileSeq(store, inodes[i].addr))
                && OnlyTouches(old(store), store, old(FileSeq(store, inodes[i].addr)))
                && forall t: Slot :: Holds(Img(), t) == if t.ino == i then 0 else old(Holds(Img(), t))
    {
      hide Ok, FreeOk, At, FileSeq, Hopeless, NoList;
      ghost var g := Img();
      inodes := inodes[i := inodes[i].(size := 0)];
      Reattribute(g, Img(), i);
      FTrunc(i, stale);
      ghost var g1 := Img();
      inodes := inodes[i := inodes[i].(kind := Unused)];
      Reattribute(g1, Img(), i);
    }

    /** i_deref: dropping the last reference to an inode without links frees its blocks and
        the inode itself; in every other case the blocks stay where they are. */
    method IDeref(i: nat, stale: Block)
      requires Valid() && !readOnly && i < |inodes| && inodes[i].refs > 0
      requires IsDevice(inodes[i].kind) ==> DeviceNumber(inodes[i].addr)
      modifies this`nfree, this`free, this`tfree, this`store, this`stack, this`sealed, this`owner,
               this`inodes, this`stray
      ensures if old(inodes)[i].refs == 1 && old(inodes)[i].nlink == 0 ==> old(CanTruncate(i)) then Valid()
              else Hopeless(Img())
      ensures old(inodes)[i].refs == 1 && old(inodes)[i].nlink == 0 && !IsDevice(old(inodes)[i].kind) ==>
                old(CanTruncate(i)) || NoList(Img())
      ensures |inodes| == |old(inodes)|
      ensures old(inodes)[i].refs == 1 && old(inodes)[i].nlink == 0 ==>
                inodes[i] == old(inodes)[i].(refs := 0, size := 0, addr := NoBlocks(), kind := Unused, dirty := false)
      ensures old(inodes)[i].refs == 1 && old(inodes)[i].nlink == 0 && IsDevice(old(inodes)[i].kind)
              && old(inodes)[i].addr[0] == 0 ==>
                stack == old(stack) && store == old(store) && nfree == old(nfree) && free == old(free)
      ensures old(inodes)[i].refs == 1 && old(inodes)[i].nlink == 0 && !IsDevice(old(inodes)[i].kind) ==>
                && stack == old(stack) + old(FileSeq(store, inodes[i].addr))
                && OnlyTouches(old(store), store, old(FileSeq(store, inodes[i].addr)))
                && (forall t: Slot :: Holds(Img(), t) == if t.ino == i then 0 else old(Holds(Img(), t)))
      ensures old(inodes)[i].refs != 1 || old(inodes)[i].nlink != 0 ==>
                && stack == old(stack) && store == old(store) && nfree == old(nfree) && free == old(free)
                && (forall t: Slot :: Holds(Img(), t) == old(Holds(Img(), t)))
      ensures old(inodes)[i].refs != 1 ==> inodes[i] == old(inodes)[i].(refs := old(inodes)[i].refs - 1)
      ensures old(inodes)[i].refs == 1 && old(inodes)[i].nlink != 0 ==>
              inodes[i] == old(inodes)[i].(refs := 0, dirty := false)
      ensures forall j | 0 <= j < |inodes| && j != i :: inodes[j] == old(inodes)[j]
    {
      hide Ok, FreeOk, At, FileSeq, Hopeless, NoList;
      ghost var g := Img();
      inodes := inodes[i := inodes[i].(refs := inodes[i].refs - 1)];
      Reattribute(g, Img(), i);
      if inodes[i].refs == 0 {
        if inodes[i].nlink == 0 {
          FreeInode(i, stale);
        }
        if inodes[i].dirty {
          ghost var g2 := Img();
          inodes := inodes[i := inodes[i].(dirty := false)];
          Reattribute(g2, Img(), i);
        }
      }
    }
  }

  /** What the inodes hold is all that counts of them. */
  lemma SameHeld(g: Image, g': Image)
    requires g' == g.(inodes := g'.inodes) && forall t: Slot :: Holds(g', t) == Holds(g, t)
    ensures (Ok(g) <==> Ok(g')) && (Hopeless(g) <==> Hopeless(g'))
  {
    hide At, Ok;
    forall t: Slot ensures At(g'.store, g'.inodes, t) == At(g.store, g.inodes, t) {
      assert Holds(g', t) == Holds(g, t);
    }
    forall st: seq<Word>, se: bool, ow: map<Word, Owner>
      ensures Ok(g.(stack := st, sealed := se, owner := ow)) <==> Ok(g'.(stack := st, sealed := se, owner := ow))
    {
      OkSame(g.(stack := st, sealed := se, owner := ow), g'.(stack := st, sealed := se, owner := ow));
    }
    OkSame(g, g');
  }

  lemma OkSame(g: Image, g': Image)
    requires g' == g.(inodes := g'.inodes)
    requires forall t: Slot :: At(g'.store, g'.inodes, t) == At(g.store, g.inodes, t)
    ensures Ok(g) <==> Ok(g')
  {
    hide At;
    FreeOkSame(g, g');
    forall t: Slot ensures Holds(g', t) == Holds(g, t) {
      assert At(g'.store, g'.inodes, t) == At(g.store, g.inodes, t);
    }
  }

  /** Attributes that are not block pointers do not matter, and neither do those of an inode without any. */
  lemma Reattribute(g: Image, g': Image, i: nat)
    requires i < |g.inodes| && |g'.inodes| == |g.inodes|
    requires g' == g.(inodes := g.inodes[i := g'.inodes[i]])
    requires g'.inodes[i].addr == g.inodes[i].addr
    requires IsDevice(g'.inodes[i].kind) == IsDevice(g.inodes[i].kind) || g.inodes[i].addr == NoBlocks()
    ensures (Ok(g) <==> Ok(g')) && (Hopeless(g) <==> Hopeless(g')) && (NoList(g) ==> NoList(g'))
    ensures forall t: Slot :: Holds(g', t) == Holds(g, t)
  {
    hide Ok, Hopeless, NoList;
    forall t: Slot ensures Holds(g', t) == Holds(g, t) {
    }
    SameHeld(g, g');
    if NoList(g) {
      NoListSame(g, g');
    }
  }

  lemma NoListSame(g: Image, g': Image)
    requires NoList(g) && g' == g.(inodes := g'.inodes, owner := g'.owner)
    ensures NoList(g')
  {
    forall st: seq<Word>, se: bool ensures !FreeOk(g'.(stack := st, sealed := se)) {
      FreeOkSame(g.(stack := st, sealed := se), g'.(stack := st, sealed := se));
    }
  }

  lemma NothingFreeable(g: Image)
    ensures Freeable(g, []) && forall level: nat :: TreeSeq(g.store, 0, level) == []
  {
  }

  /** f_trunc on an inode with blocks. */
  lemma Truncates(g: Image, g1: Image, g': Image, stray: Word, i: nat)
    requires Ok(g) && i < |g.inodes| && !IsDevice(g.inodes[i].kind)
    requires Freed(g, 0, g1, stray, FileSeq(g.store, g.inodes[i].addr))
    requires g' == g1.(inodes := g'.inodes, owner := Released(g.owner, FileSeq(g.store, g.inodes[i].addr)))
    requires g'.inodes == g.inodes[i := g.inodes[i].(addr := NoBlocks(), dirty := true, size := 0)]
    ensures Ok(g') <==> FreeOk(g1)
    ensures forall t: Slot :: Holds(g', t) == if t.ino == i then 0 else Holds(g, t)
  {
    hide Ok, FreeOk, Loose, At, FileSeq;
    FreeOkSame(g1, g');
    TruncOk(g, g', i);
  }

  /** f_trunc on a device inode. */
  lemma DeviceTruncated(g: Image, g1: Image, g': Image, i: nat)
    requires Ok(g) && i < |g.inodes| && IsDevice(g.inodes[i].kind)
    requires var d := g.inodes[i].addr[0]; if d == 0 then g1 == g else InRegion(g, d) && Pushed(g, g1, d)
    requires g1.inodes == g.inodes && g' == g1.(inodes := g'.inodes)
    requires g'.inodes == g.inodes[i := g.inodes[i].(addr := NoBlocks(), dirty := true, size := 0)]
    ensures if g.inodes[i].addr[0] == 0 then Ok(g') else Hopeless(g') && g'.stack == g.stack + [g.inodes[i].addr[0]]
    ensures forall t: Slot :: Holds(g', t) == Holds(g1, t)
  {
    hide Ok, Hopeless;
    forall t: Slot ensures Holds(g', t) == Holds(g1, t) {
    }
    if g.inodes[i].addr[0] != 0 {
      NumberPushed(g, g1, g.inodes[i].addr[0]);
    }
    SameHeld(g1, g');
  }

  lemma OkLoose(g: Image)
    requires Ok(g)
    ensures Loose(g, 0) && FreeOk(g)
  {
  }

  /** What several of the steps below need to know about the blocks freed so far. */
  lemma FreedIs(g: Image, st: Word, g': Image, st': Word, ws: seq<Word>)
    requires Freed(g, st, g', st', ws)
    ensures Loose(g', st') && Layout(g') && g'.first == g.first && g'.fsize == g.fsize
    ensures g'.stack == g.stack + ws && OnlyTouches(g.store, g'.store, ws)
  {
    LooseIs(g', st');
  }

  lemma PushedSame(g: Image, g1: Image, g': Image, blk: Word)
    requires Pushed(g, g1, blk) && g' == g1.(sealed := g'.sealed)
    ensures Pushed(g, g', blk)
  {
  }

  /** The first block on a drained list. */
  lemma FirstFreed(g: Image, st: Word, g': Image, st': Word, blk: Word)
    requires Loose(g, st) && Freed(g, st, g', st', [blk]) && Pushed(g, g', blk) && g.nfree == 0 && blk < |g.store|
    ensures g'.nfree == 1 && g'.free == g.free[0 := blk] && g'.store == g.store && g'.stack == [blk]
    ensures if Suits(g'.store[blk]) then FreeOk(g') else NoList(g')
  {
    hide FreeOk, NoList, Suits;
    LooseIs(g, st);
    LooseIs(g', st');
    assert g.stack == [] && blk in g'.stack;
    assert st != 0 ==> st in g.stack;
  }

  lemma SpliceMore(mem: seq<Byte>, m: seq<Byte>, b: nat, x: seq<Byte>, y: seq<Byte>, u: nat)
    requires b + |x| == u && u + |y| <= |mem| && m == mem[..b] + x + mem[u..]
    ensures m[..u] + y + m[u + |y|..] == mem[..b] + (x + y) + mem[u + |y|..]
  {
  }

  lemma ReadNothing(g: Image, i: nat, o: nat, mem: seq<Byte>, b: nat)
    requires b <= |mem|
    ensures mem == mem[..b] + Bytes(g, i, o, 0) + mem[b..]
  {
  }

  lemma FileFreeable(g: Image, i: nat)
    requires Ok(g) && i < |g.inodes| && !IsDevice(g.inodes[i].kind)
    ensures Freeable(g, FileSeq(g.store, g.inodes[i].addr))
  {
    FileOwned(g, i);
  }

  /** With its children freed, the block itself can be freed. */
  lemma FreeItself(g: Image, g': Image, blk: Word, level: nat)
    requires 0 != blk && Freeable(g, TreeSeq(g.store, blk, level))
    requires g'.first == g.first && g'.fsize == g.fsize
    requires g'.stack == g.stack + if level == 0 then [] else Kids(g.store, blk, 0, level - 1)
    ensures InRegion(g', blk) && blk !in g'.stack
  {
    if level == 0 {
      assert blk in [blk];
    } else {
      FreeableRest(g, g', Kids(g.store, blk, 0, level - 1), [blk]);
      assert blk in [blk];
    }
  }

  /** In the middle of freeing the children of blk: the pointer block still reads as before,
      and so does the next subtree, which can be freed as a whole. */
  lemma FreeChild(g: Image, g': Image, blk: Word, j: nat, level: nat)
    requires Layout(g) && Layout(g') && 0 != blk && j < 256
    requires g'.first == g.first && g'.fsize == g.fsize
    requires Freeable(g, TreeSeq(g.store, blk, level + 1))
    requires g'.stack == g.stack + Kids(g.store, blk, j + 1, level)
    requires OnlyTouches(g.store, g'.store, Kids(g.store, blk, j + 1, level))
    ensures blk < |g.store| && g'.store[blk] == g.store[blk]
    ensures GetWord(g.store[blk], j) == Ref(g.store, blk, j)
    ensures TreeSeq(g'.store, Ref(g.store, blk, j), level) == TreeSeq(g.store, Ref(g.store, blk, j), level)
    ensures Freeable(g', TreeSeq(g'.store, Ref(g.store, blk, j), level))
  {
    var done, tree := Kids(g.store, blk, j + 1, level), TreeSeq(g.store, Ref(g.store, blk, j), level);
    KidsSplit(g.store, blk, j, level);
    var pre := KidsRest(g.store, blk, j, level);
    ConcatAssoc(done + tree, pre, [blk]);
    DistinctSplit(done + tree, pre + [blk]);
    assert blk in pre + [blk] && blk in TreeSeq(g.store, blk, level + 1);
    FreeableNext(g, g', done, tree, pre + [blk]);
    TreeFrame(g.store, g'.store, Ref(g.store, blk, j), level);
  }

  lemma TruncPlan(g: Image, i: nat)
    requires i < |g.inodes| && Freeable(g, FileSeq(g.store, g.inodes[i].addr))
    ensures Freeable(g, TreeSeq(g.store, g.inodes[i].addr[DOUBLE], 2))
  {
    var addr := g.inodes[i].addr;
    var d, s, r := TreeSeq(g.store, addr[DOUBLE], 2), TreeSeq(g.store, addr[SINGLE], 1), Directs(addr, DIRECTBLOCKS);
    assert FileSeq(g.store, addr) == d + (s + r);
    FreeablePrefix(g, d, s + r);
  }

  /** The single indirect tree is untouched by freeing the double indirect one. */
  lemma TruncSingle(g: Image, g': Image, i: nat)
    requires i < |g.inodes| && Freeable(g, FileSeq(g.store, g.inodes[i].addr))
    requires g'.first == g.first && g'.fsize == g.fsize
    requires g'.stack == g.stack + TreeSeq(g.store, g.inodes[i].addr[DOUBLE], 2)
    requires OnlyTouches(g.store, g'.store, TreeSeq(g.store, g.inodes[i].addr[DOUBLE], 2))
    ensures TreeSeq(g'.store, g.inodes[i].addr[SINGLE], 1) == TreeSeq(g.store, g.inodes[i].addr[SINGLE], 1)
    ensures Freeable(g', TreeSeq(g'.store, g.inodes[i].addr[SINGLE], 1))
  {
    var addr := g.inodes[i].addr;
    var d, s, r := TreeSeq(g.store, addr[DOUBLE], 2), TreeSeq(g.store, addr[SINGLE], 1), Directs(addr, DIRECTBLOCKS);
    FreeableNext(g, g', d, s, r);
    TreeFrame(g.store, g'.store, addr[SINGLE], 1);
  }

  lemma {:induction false} DirectsSplit(addr: Addr, j: nat, k: nat)
    requires j <= k <= DIRECTBLOCKS
    ensures exists post :: Directs(addr, k) == Directs(addr, j) + post
    decreases k
  {
    if j == k {
      assert Directs(addr, k) == Directs(addr, j) + [];
    } else {
      DirectsSplit(addr, j, k - 1);
      var post :| Directs(addr, k - 1) == Directs(addr, j) + post;
      assert Directs(addr, k) == Directs(addr, j) + (post + if addr[k - 1] == 0 then [] else [addr[k - 1]]);
    }
  }

  lemma FileSeqIs(store: Store, addr: Addr)
    ensures FileSeq(store, addr) == TreeSeq(store, addr[DOUBLE], 2) + TreeSeq(store, addr[SINGLE], 1)
            + Directs(addr, DIRECTBLOCKS)
    ensures Directs(addr, 0) == []
  {
  }

  lemma DirectsNext(store: Store, addr: Addr, j: nat)
    requires j < DIRECTBLOCKS
    ensures Directs(addr, j + 1) == Directs(addr, j) + TreeSeq(store, addr[j], 0)
  {
  }

  lemma TruncDirect(g: Image, g': Image, i: nat, j: nat)
    requires i < |g.inodes| && Freeable(g, FileSeq(g.store, g.inodes[i].addr)) && j < DIRECTBLOCKS
    requires g'.first == g.first && g'.fsize == g.fsize
    requires g'.stack == g.stack + TreeSeq(g.store, g.inodes[i].addr[DOUBLE], 2)
                         + TreeSeq(g.store, g.inodes[i].addr[SINGLE], 1) + Directs(g.inodes[i].addr, j)
    ensures Freeable(g', TreeSeq(g'.store, g.inodes[i].addr[j], 0))
    ensures forall b | b in TreeSeq(g'.store, g.inodes[i].addr[j], 0) :: b in FileSeq(g.store, g.inodes[i].addr)
    ensures Directs(g.inodes[i].addr, j + 1)
            == Directs(g.inodes[i].addr, j) + TreeSeq(g'.store, g.inodes[i].addr[j], 0)
  {
    hide Freeable, Ok, TreeSeq, Directs, FileSeq;
    var addr := g.inodes[i].addr;
    FileSeqIs(g.store, addr);
    DirectsNext(g'.store, addr, j);
    var ds := TreeSeq(g.store, addr[DOUBLE], 2) + TreeSeq(g.store, addr[SINGLE], 1);
    var next := TreeSeq(g'.store, addr[j], 0);
    DirectsSplit(addr, j + 1, DIRECTBLOCKS);
    var post :| Directs(addr, DIRECTBLOCKS) == Directs(addr, j + 1) + post;
    ConcatAssoc(ds, Directs(addr, j + 1), post);
    ConcatAssoc(ds, Directs(addr, j), next);
    FreeableNext(g, g', ds + Directs(addr, j), next, post);
  }

  lemma MappedInside(g: Image, g': Image, i: nat, bn: Word, nb: Word)
    requires Mapped(g, g', i, bn, nb) && i < |g.inodes|
    ensures nb != NULLBLK ==> nb < |g'.store|
    ensures |g'.inodes| == |g.inodes| && g'.inodes[i].kind == g.inodes[i].kind
  {
    if nb != NULLBLK {
      HeldNotFree(g', Place(i, bn));
    }
    assert SameButBlocks(g.inodes[i], g'.inodes[i]);
  }
}
