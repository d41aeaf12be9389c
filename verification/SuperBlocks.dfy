/** The superblock record as it lies in block 1 of a device. */
module SuperBlocks {
  import opened Blocks
  import opened FreeChain

  const SUPERBLOCK := 1
  const SMOUNTED: Word := 19638
  const NOT_SMOUNTED: Word := 0xFFFF - 19638

  /** The leading fields, in the order they lie in the block. */
  datatype SuperBlock = SuperBlock(mounted: Word, reserv: Word, isize: Word, fsize: Word,
                                   tfree: Word, nfree: Word, free: seq<Word>)

  function SuperWords(fs: SuperBlock): seq<Word> {
    [fs.mounted, fs.reserv, fs.isize, fs.fsize, fs.tfree, fs.nfree] + fs.free
  }

  /** The superblock as fmount copies it out of block 1. */
  function ReadSuper(b: Block): (fs: SuperBlock)
    ensures |fs.free| == FSFREEBLOCKS
  {
    SuperBlock(GetWord(b, 0), GetWord(b, 1), GetWord(b, 2), GetWord(b, 3), GetWord(b, 4), GetWord(b, 5),
               seq(FSFREEBLOCKS, k requires 0 <= k < FSFREEBLOCKS => GetWord(b, k + 6)))
  }

  lemma SuperRoundTrip(junk: Block, fs: SuperBlock)
    requires |fs.free| == FSFREEBLOCKS
    ensures ReadSuper(SetWords(junk, 0, SuperWords(fs))) == fs
  {
    var b, ws := SetWords(junk, 0, SuperWords(fs)), SuperWords(fs);
    forall k | 0 <= k < FSFREEBLOCKS ensures ReadSuper(b).free[k] == fs.free[k] {
      assert GetWord(b, k + 6) == ws[k + 6];
    }
    assert ReadSuper(b).free == fs.free;
  }

  /** Where the fields lie: one 16-bit word each, in this order, the list behind them. */
  lemma SuperLayout(junk: Block, fs: SuperBlock)
    requires |fs.free| == FSFREEBLOCKS
    ensures var b := SetWords(junk, 0, SuperWords(fs));
            && GetWord(b, 0) == fs.mounted && GetWord(b, 1) == fs.reserv && GetWord(b, 2) == fs.isize
            && GetWord(b, 3) == fs.fsize && GetWord(b, 4) == fs.tfree && GetWord(b, 5) == fs.nfree
            && (forall k | 0 <= k < 50 :: GetWord(b, 6 + k) == fs.free[k])
            && (forall k | 56 <= k < 256 :: GetWord(b, k) == GetWord(junk, k))
  {
    var b, ws := SetWords(junk, 0, SuperWords(fs)), SuperWords(fs);
    forall k | 0 <= k < 50 ensures GetWord(b, 6 + k) == fs.free[k] {
      assert GetWord(b, 6 + k) == ws[6 + k];
    }
  }
}
