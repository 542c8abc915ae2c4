/** Where the allocator's bookkeeping lies: the bitmaps of all levels follow each other in one byte
    area, and the whole bookkeeping must end below the first byte handed out to callers. */
module MetadataLayout {
  import opened BlockGeometry

  const MIN_SIZE: nat := 1024
  const BITMAP_STRUCT_SIZE: nat := 16

  /** The bytes of a bitmap of `count` bits. */
  function BitmapBytes(count: nat): nat {
    (count + 7) / 8
  }

  /** The offset of the bitmap of level `j` in the bitmap area of a pool of `n` cells. */
  function Base(n: nat, j: nat): nat {
    if j == 0 then 0 else Base(n, j - 1) + BitmapBytes(Shr(n, j - 1))
  }

  /** The number of levels: the bit length of `n`. */
  function LevelCount(n: nat): (levels: nat)
    ensures Shr(n, levels) == 0
    ensures n > 0 ==> levels > 0 && Shr(n, levels - 1) == 1
  {
    if n == 0 then 0
    else
      HalfThenShr(n, LevelCount(n / 2));
      if n >= 2 then
        HalfThenShr(n, LevelCount(n / 2) - 1);
        1 + LevelCount(n / 2)
      else
        1 + LevelCount(n / 2)
  }

  lemma HalfThenShr(n: nat, k: nat)
    ensures Shr(n, k + 1) == Shr(n / 2, k)
  {
    ShrAdd(n, 1, k);
    assert Shr(n, 1) == Shr(n, 0) / 2;
  }

  lemma {:induction false} LevelCountBound(n: nat, k: nat)
    requires n < Pow2(k)
    ensures LevelCount(n) <= k
  {
    hide Pow2, Shr;
    if k < LevelCount(n) {
      ShrBounds(n, LevelCount(n) - 1);
      Pow2Monotone(k, LevelCount(n) - 1);
    }
  }

  lemma NonzeroLevel(n: nat, k: nat)
    ensures Shr(n, k) > 0 <==> k < LevelCount(n)
  {
    if k < LevelCount(n) {
      ShrAdd(n, k, LevelCount(n) - 1 - k);
      ShrShrinks(Shr(n, k), LevelCount(n) - 1 - k);
    } else {
      ShrAdd(n, LevelCount(n), k - LevelCount(n));
      ShrShrinks(0, k - LevelCount(n));
    }
  }

  /** The bytes of the bitmap descriptors and bitmaps of a pool of `n` cells, level by level. */
  function BitmapAreaBytes(n: nat): nat {
    if n == 0 then 0 else BITMAP_STRUCT_SIZE + BitmapBytes(n) + BitmapAreaBytes(n / 2)
  }

  /** The number of smallest blocks set aside for the bookkeeping of a memory of `blocks` smallest
      blocks: one index byte per block, the descriptors and the bitmaps, rounded up. */
  function MetaBlocks(blocks: nat): nat {
    (blocks + BitmapAreaBytes(blocks) + MIN_SIZE - 1) / MIN_SIZE
  }

  lemma {:induction false} BitmapAreaMonotone(m: nat, n: nat)
    requires m <= n
    ensures BitmapAreaBytes(m) <= BitmapAreaBytes(n)
  {
    if m == 0 {
    } else {
      BitmapAreaMonotone(m / 2, n / 2);
    }
  }

  lemma {:induction false} BitmapAreaSmall(n: nat)
    ensures BitmapAreaBytes(n) <= 34 * n
  {
    if n == 0 {
    } else {
      BitmapAreaSmall(n / 2);
    }
  }

  /** The offsets used while the bitmaps are laid out add up to the size computed beforehand. */
  lemma {:induction false} LayoutAddsUp(n: nat, j: nat)
    requires j <= LevelCount(n)
    ensures j * BITMAP_STRUCT_SIZE + Base(n, j) + BitmapAreaBytes(Shr(n, j)) == BitmapAreaBytes(n)
  {
    if j == 0 {
    } else {
      LayoutAddsUp(n, j - 1);
      NonzeroLevel(n, j - 1);
    }
  }

  /** The index, the descriptors and the bitmaps of the pool that remains fit into the blocks set
      aside, although those were sized for the larger memory; and some pool does remain. */
  lemma MetadataFits(blocks: nat)
    requires blocks >= 2
    ensures MetaBlocks(blocks) < blocks
    ensures var n := blocks - MetaBlocks(blocks);
            n + LevelCount(n) * BITMAP_STRUCT_SIZE + Base(n, LevelCount(n)) <= MetaBlocks(blocks) * MIN_SIZE
  {
    BitmapAreaSmall(blocks);
    var n := blocks - MetaBlocks(blocks);
    LayoutAddsUp(n, LevelCount(n));
    BitmapAreaMonotone(n, blocks);
  }

  /** The bitmaps of different levels do not overlap and stay inside the area. */
  lemma {:induction false} BasesDisjoint(n: nat, j: nat, k: nat)
    requires j < k
    ensures Base(n, j) + BitmapBytes(Shr(n, j)) <= Base(n, k)
  {
    if j + 1 >= k {
    } else {
      BasesDisjoint(n, j, k - 1);
    }
  }
}
