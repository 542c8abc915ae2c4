/** The buddy allocator: bitmaps of free blocks per level, split on allocation, merged on release. */
module DynamicMemory {
  import opened BlockGeometry
  import opened AllocationMap
  import opened MetadataLayout
  import opened BitBytes
  import opened Bitmaps
  import opened AllocatorSteps

  /** The bookkeeping block count, summed up level by level. */
  method CalculateMetaBlockCount(dynamicSize: nat) returns (r: nat)
    ensures r == MetaBlocks(dynamicSize / MIN_SIZE)
  {
    var blocks := dynamicSize / MIN_SIZE;
    var sizeOfBitmap := 0;
    var i := 0;
    var atLevel := blocks;
    while atLevel > 0
      invariant atLevel == Shr(blocks, i)
      invariant sizeOfBitmap + BitmapAreaBytes(atLevel) == BitmapAreaBytes(blocks)
    {
      sizeOfBitmap := sizeOfBitmap + BITMAP_STRUCT_SIZE;
      sizeOfBitmap := sizeOfBitmap + (atLevel + 7) / 8;
      i := i + 1;
      atLevel := atLevel / 2;
    }
    return (blocks + sizeOfBitmap + MIN_SIZE - 1) / MIN_SIZE;
  }

  /** Divides the memory above the fixed start address into bookkeeping and pool. */
  method SizePool(ramMegabytes: nat) returns (n: nat, start: nat, end: nat)
    requires 64 <= ramMegabytes
    ensures 0 < n < 3 * 0x100000
    ensures end == if ramMegabytes * MEGABYTE <= MAX_RAM then ramMegabytes * MEGABYTE else MAX_RAM
    ensures start % MIN_SIZE == 0 && start + n * MIN_SIZE == end
    ensures START_ADDRESS + n + LevelCount(n) * BITMAP_STRUCT_SIZE + Base(n, LevelCount(n)) <= start
    ensures var blocks := (end - START_ADDRESS) / MIN_SIZE;
            var needed := START_ADDRESS + blocks + BitmapAreaBytes(blocks);
            needed <= start < needed + MIN_SIZE
  {
    hide LevelCount, Base, BitmapAreaBytes;
    end := ramMegabytes * MEGABYTE;
    if end > MAX_RAM {
      end := MAX_RAM;
    }
    ghost var megabytes := (if ramMegabytes <= 3072 then ramMegabytes else 3072) - 17;
    WholeMegabytes(megabytes);
    var dynamicSize := end - START_ADDRESS;
    var metaBlocks := CalculateMetaBlockCount(dynamicSize);
    PoolFits(megabytes, metaBlocks);
    n := dynamicSize / MIN_SIZE - metaBlocks;
    start := START_ADDRESS + metaBlocks * MIN_SIZE;
  }

  /** `b | mask` or `b & ~mask` for the mask of bit `m`. */
  method WithBit(b: bv8, m: nat, flag: bool) returns (v: bv8)
    requires m < 8
    ensures DiffersInBit(b, v, m, flag)
  {
    MaskDiffers(b, m);
    v := if flag then b | Mask(m) else b & !Mask(m);
  }

  datatype Request = Allocate(size: nat) | Release(address: nat)

  class Manager {
    const blockCount: nat
    const levels: nat
    const startAddress: nat
    const endAddress: nat
    const index: array<nat>
    const bitmap: array<bv8>
    const existCount: array<nat>
    var usedSize: nat

    /** The layout, fixed at start-up. */
    ghost predicate Shape() {
      && 0 < blockCount < 3 * 0x100000
      && Layout()
      && index.Length == blockCount
      && index != existCount && index as object != bitmap as object
      && START_ADDRESS <= startAddress
      && startAddress + blockCount * MIN_SIZE <= endAddress <= MAX_RAM
    }

    /** What the bitmap operations rely on. */
    ghost predicate Layout() {
      && levels == LevelCount(blockCount)
      && bitmap.Length == Base(blockCount, levels)
      && existCount.Length == levels
      && existCount as object != bitmap as object
    }

    /** The set bits of all bitmaps. */
    ghost function Shown(): set<(nat, nat)>
      requires Layout()
      reads bitmap
    {
      Marked(bitmap[..], blockCount)
    }

    /** Each level's counter is the number of its set bits. */
    ghost predicate Counts()
      requires Layout()
      reads bitmap, existCount
    {
      CountsOf(existCount[..], Shown())
    }

    ghost function Free(): seq<bool>
      reads index
    {
      FreeMap(index[..])
    }

    ghost predicate Valid()
      reads this, index, bitmap, existCount
    {
      && Shape()
      && WellPlaced(index[..], levels)
      && Shown() == CanonicalSet(Free(), levels)
      && Counts()
      && usedSize == MIN_SIZE * AllocatedCells(index[..])
      && ShiftSafe(index[..])
    }

    /** Sizes the pool for a machine of `ramMegabytes`, which the boot loader has checked to be at
        least 64, and marks the blocks of its binary decomposition free. */
    constructor Initialize(ramMegabytes: nat)
      requires 64 <= ramMegabytes
      ensures Valid() && fresh(index) && fresh(bitmap) && fresh(existCount)
      ensures usedSize == 0 && forall x :: 0 <= x < blockCount ==> index[x] == NOT_ALLOCATED
      ensures endAddress == if ramMegabytes * MEGABYTE <= MAX_RAM then ramMegabytes * MEGABYTE else MAX_RAM
      ensures startAddress % MIN_SIZE == 0 && startAddress + blockCount * MIN_SIZE == endAddress
      ensures START_ADDRESS + blockCount + levels * BITMAP_STRUCT_SIZE + bitmap.Length <= startAddress
      ensures var blocks := (endAddress - START_ADDRESS) / MIN_SIZE;
              startAddress < START_ADDRESS + blocks + BitmapAreaBytes(blocks) + MIN_SIZE
    {
      hide LevelCount, Base, BitmapAreaBytes, Manager.Valid;
      var n, start, end := SizePool(ramMegabytes);
      blockCount := n;
      levels := LevelCount(n);
      startAddress := start;
      endAddress := end;
      index := new nat[n];
      bitmap := new bv8[Base(n, LevelCount(n))];
      existCount := new nat[LevelCount(n)];
      usedSize := 0;
      new;
      BuildMetadata();
    }

    /** Nothing is allocated, and the bitmaps show the binary decomposition of the pool. */
    method BuildMetadata()
      requires Shape() && usedSize == 0
      modifies index, bitmap, existCount
      ensures Valid()
      ensures forall x :: 0 <= x < blockCount ==> index[x] == NOT_ALLOCATED
    {
      ClearIndex();
      BuildBitmaps();
      ReadyCounts(blockCount);
      ReadyIsCanonical(index[..]);
      NothingAllocated(index[..]);
      assert existCount[..] == InitialCounts(blockCount, levels);
    }

    method ClearIndex()
      modifies index
      ensures forall x :: 0 <= x < index.Length ==> index[x] == NOT_ALLOCATED
    {
      var i := 0;
      while i < index.Length
        invariant 0 <= i <= index.Length
        invariant forall x :: 0 <= x < i ==> index[x] == NOT_ALLOCATED
      {
        index[i] := NOT_ALLOCATED;
        i := i + 1;
      }
    }

    /** Clears every bitmap and sets the last bit of each level whose block count is odd: that block
        has no buddy to merge with. */
    method BuildBitmaps()
      requires Layout()
      modifies bitmap, existCount
      ensures bitmap[..] == InitialArea(blockCount, levels)
      ensures existCount[..] == InitialCounts(blockCount, levels)
    {
      var position := 0;
      var j := 0;
      while j < levels
        invariant 0 <= j <= levels
        invariant position == Base(blockCount, j) <= bitmap.Length
        invariant bitmap[..position] == InitialArea(blockCount, j)
        invariant existCount[..j] == InitialCounts(blockCount, j)
      {
        position := BuildBitmapOfLevel(j, position);
        j := j + 1;
      }
      assert bitmap[..] == bitmap[..position] && existCount[..] == existCount[..j];
    }

    method BuildBitmapOfLevel(j: nat, start: nat) returns (position: nat)
      requires Layout() && j < levels && start == Base(blockCount, j) <= bitmap.Length
      modifies bitmap, existCount
      ensures position == Base(blockCount, j + 1) <= bitmap.Length
      ensures bitmap[..position] == old(bitmap[..start]) + InitialBytes(Shr(blockCount, j))
      ensures existCount[..j + 1] == old(existCount[..j]) + [Shr(blockCount, j) % 2]
    {
      hide LevelCount, Shr;
      BasesDisjoint(blockCount, j, levels);
      existCount[j] := 0;
      var blocksOfLevel := Shr(blockCount, j);
      position := ClearBytes(start, blocksOfLevel / 8);
      ghost var before, zeros := old(bitmap[..start]), Zeros(blocksOfLevel / 8);
      AppendByte(before, zeros, bitmap[..position]);
      if blocksOfLevel % 8 != 0 {
        BuildLastByte(j, position, blocksOfLevel % 8);
        position := position + 1;
      }
    }

    method ClearBytes(start: nat, count: nat) returns (position: nat)
      requires start + count <= bitmap.Length
      modifies bitmap
      ensures position == start + count
      ensures bitmap[..position] == old(bitmap[..start]) + Zeros(count)
    {
      position := start;
      var i := 0;
      while i < count
        invariant 0 <= i <= count && position == start + i
        invariant bitmap[..position] == old(bitmap[..start]) + Zeros(i)
      {
        bitmap[position] := 0x00;
        position := position + 1;
        i := i + 1;
      }
    }

    method BuildLastByte(j: nat, position: nat, rest: nat)
      requires Layout() && j < levels && position < bitmap.Length && 0 < rest < 8
      modifies bitmap, existCount
      ensures bitmap[..position + 1] == old(bitmap[..position]) + [if rest % 2 == 1 then Mask(rest - 1) else 0]
      ensures existCount[..] == if rest % 2 == 1 then old(existCount[..])[j := 1] else old(existCount[..])
    {
      bitmap[position] := 0x00;
      if rest % 2 == 1 {
        bitmap[position] := 0x00 | Mask(rest - 1);
        existCount[j] := 1;
      }
    }

    /** Sets or clears one bit and keeps the counter of its level. */
    method SetFlagInBitmap(j: nat, o: nat, flag: bool)
      requires Layout() && Counts() && HasRoom(blockCount, j, o)
      modifies bitmap, existCount
      ensures Counts()
      ensures Shown() == WithFlag(old(Shown()), j, o, flag)
    {
      PositionInArea(blockCount, j, o);
      CountsStep(existCount[..], Shown(), j, o, flag);
      var p := BytePosition(blockCount, j, o);
      var wasSet := GetFlagInBitmap(j, o);
      if flag {
        if !wasSet {
          existCount[j] := existCount[j] + 1;
        }
        StoreBit(p, j, o, true);
      } else {
        if wasSet {
          existCount[j] := existCount[j] - 1;
        }
        StoreBit(p, j, o, false);
      }
    }

    /** Stores a byte that has the bit of `(j, o)` set to `flag` and is otherwise the old byte. */
    method StoreBit(p: nat, j: nat, o: nat, flag: bool)
      requires Layout() && HasRoom(blockCount, j, o) && p == BytePosition(blockCount, j, o)
      modifies bitmap
      ensures Shown() == WithFlag(old(Shown()), j, o, flag)
    {
      PositionInArea(blockCount, j, o);
      var v := WithBit(bitmap[p], o % 8, flag);
      ghost var was := bitmap[..];
      UpdateMarked(was, blockCount, j, o, v, flag);
      bitmap[p] := v;
      assert bitmap[..] == was[p := v];
    }

    method GetFlagInBitmap(j: nat, o: nat) returns (flag: bool)
      requires Layout() && HasRoom(blockCount, j, o)
      ensures flag <==> (j, o) in Shown()
    {
      PositionInArea(blockCount, j, o);
      var p := BytePosition(blockCount, j, o);
      flag := HasBit(bitmap[p], o % 8);
      assert flag == BitIn(bitmap[..], blockCount, j, o);
    }

    /** The least set bit of level `j`, or -1 when the level has none.  Words that are wholly zero are
        skipped; the word test also runs at positions inside a word, but only while a set bit of
        that word is still ahead, so no unread bit is skipped. */
    method FindFreeBlockInBitmap(j: nat) returns (r: int)
      requires Layout() && Counts() && j < levels
      requires forall o: nat :: (j, o) in Shown() ==> o < Shr(blockCount, j)
      ensures -1 <= r
      ensures r == -1 <==> forall o: nat :: (j, o) !in Shown()
      ensures r >= 0 ==> (j, r) in Shown() && forall o: nat :: o < r ==> (j, o) !in Shown()
    {
      if existCount[j] == 0 {
        EmptyLevel(existCount[..], Shown(), j);
        return -1;
      }
      r := ScanBitmap(j);
    }

    method ScanBitmap(j: nat) returns (r: int)
      requires Layout() && j < levels
      requires forall o: nat :: (j, o) in Shown() ==> o < Shr(blockCount, j)
      ensures -1 <= r
      ensures r == -1 <==> forall o: nat :: (j, o) !in Shown()
      ensures r >= 0 ==> (j, r) in Shown() && forall o: nat :: o < r ==> (j, o) !in Shown()
    {
      var maxCount := Shr(blockCount, j);
      var i := 0;
      ghost var marks := Shown();
      ghost var word, ahead := 0, 0;
      while i < maxCount
        invariant Shown() == marks
        invariant 0 <= 8 * word <= i <= maxCount
        invariant forall o: nat :: o < i ==> (j, o) !in marks
        invariant i == 8 * word || maxCount - i < 64 || (i <= ahead < 8 * word + 64 && (j, ahead) in marks)
        decreases maxCount - i
      {
        if maxCount - i >= 64 {
          var zero, first, next := WordTest(j, i, maxCount, word);
          if zero {
            i := i + 64;
            word := first + 8;
            continue;
          }
          if i == 8 * word {
            ahead := next;
          }
        }
        var flag := GetFlagInBitmap(j, i);
        if flag {
          return i;
        }
        i := i + 1;
      }
      return -1;
    }

    /** Reads the eight bytes from the byte of bit `i` on as one word.  That byte is not before byte
        `word`, where the current aligned word starts. */
    method WordTest(j: nat, i: nat, maxCount: nat, ghost word: nat)
      returns (zero: bool, ghost first: nat, ghost ahead: nat)
      requires Layout() && j < levels && maxCount == Shr(blockCount, j) && i + 64 <= maxCount
      requires 8 * word <= i
      ensures word <= first && 8 * first <= i < 8 * first + 8
      ensures zero ==> forall o: nat :: 8 * first <= o < 8 * first + 64 ==> (j, o) !in Shown()
      ensures !zero ==> 8 * first <= ahead < 8 * first + 64 && (j, ahead) in Shown()
    {
      BasesDisjoint(blockCount, j, levels);
      first := i / 8;
      ahead := 0;
      assert i / 8 + 8 <= BitmapBytes(maxCount);
      zero := WordIsZero(bitmap[..], Base(blockCount, j) + i / 8);
      if zero {
        forall o: nat | 8 * first <= o < 8 * first + 64
          ensures (j, o) !in Shown()
        {
          ZeroWord(bitmap[..], blockCount, j, first, o);
        }
      } else {
        ahead := NonzeroWord(bitmap[..], blockCount, j, first);
      }
    }

    /** The least level whose blocks, as the int shift computes them, hold `size` bytes, or -1. */
    method GetBlockListIndexOfMatchSize(size: nat) returns (r: int)
      requires levels <= 22
      ensures -1 <= r < levels
      ensures r >= 0 ==> size <= ShiftedMinSize(r)
      ensures forall i :: 0 <= i < (if r >= 0 then r else levels) ==> ShiftedMinSize(i) < size
    {
      var i := 0;
      while i < levels
        invariant 0 <= i <= levels
        invariant forall j :: 0 <= j < i ==> ShiftedMinSize(j) < size
      {
        if size <= ShiftedMinSize(i) {
          return i;
        }
        i := i + 1;
      }
      return -1;
    }

    /** `size` rounded up to a block size, or 0. */
    method GetBuddyBlockSize(size: nat) returns (r: nat)
      requires levels <= 22
      ensures r == 0 ==> forall i :: 0 <= i < levels ==> ShiftedMinSize(i) < size
      ensures r != 0 ==> exists k :: 0 <= k < levels && r == ShiftedMinSize(k) && size <= r &&
                           forall i :: 0 <= i < k ==> ShiftedMinSize(i) < size
    {
      var i := 0;
      while i < levels
        invariant 0 <= i <= levels
        invariant forall j :: 0 <= j < i ==> ShiftedMinSize(j) < size
      {
        if size <= ShiftedMinSize(i) {
          return ShiftedMinSize(i);
        }
        i := i + 1;
      }
      return 0;
    }

    /** Finds a free block of the level of `alignedSize` or, failing that, of the next level that has
        one, and splits it down, always keeping the left half.  The block found is held out: the
        bitmaps then show the canonical blocks of what remains. */
    method AllocationBuddyBlock(alignedSize: nat, ghost k: nat) returns (r: int, ghost i: nat, ghost b: nat)
      requires Layout() && Counts() && levels <= 22 && index.Length == blockCount
      requires index as object != bitmap as object && index != existCount
      requires k < levels && alignedSize == ShiftedMinSize(k)
      requires Shown() == CanonicalSet(Free(), levels)
      modifies bitmap, existCount
      ensures Counts() && -1 <= r
      ensures r == -1 ==> Shown() == old(Shown()) && forall o: nat :: o < Shr(blockCount, k) ==> !Whole(Free(), k, o)
      ensures r >= 0 ==> r < Shr(blockCount, k) && Whole(Free(), k, r)
      ensures r >= 0 ==> Shown() == CanonicalSet(Without(Free(), k, r), levels)
      ensures r >= 0 ==> BestFit(Free(), k, r, i, b)
    {
      i, b := 0, 0;
      var listIndex := GetBlockListIndexOfMatchSize(alignedSize);
      LevelOfAlignedSize(k, listIndex);
      if listIndex == -1 {
        return -1, i, b;
      }
      var level, found := SearchLevels(listIndex);
      if found == -1 {
        NoneCanonicalNoneWhole(Free(), k, levels);
        return -1, i, b;
      }
      i, b := level, found;
      ghost var free := Free();
      TakeFromSet(free, levels, i, b);
      HasRoomInPool(blockCount, i, b);
      SetFlagInBitmap(level, found, false);
      r := SplitDown(free, level, found, listIndex);
      BestFitDown(free, i, b, k);
    }

    /** Looks through the bitmaps from level `k` up for the first free block. */
    method SearchLevels(k: nat) returns (i: nat, found: int)
      requires Layout() && Counts() && k < levels && index.Length == blockCount
      requires Shown() == CanonicalSet(Free(), levels)
      ensures -1 <= found
      ensures found == -1 ==> forall j, x :: k <= j < levels ==> !Canonical(Free(), j, x)
      ensures found >= 0 ==> k <= i < levels && (i, found) in CanonicalSet(Free(), levels)
      ensures found >= 0 ==> BestFit(Free(), i, found, i, found)
      ensures found >= 0 ==> forall j, x :: k <= j < i ==> !Canonical(Free(), j, x)
    {
      ghost var free := Free();
      found := -1;
      i := k;
      while i < levels
        invariant k <= i <= levels && found == -1
        invariant Free() == free && Counts() && Shown() == CanonicalSet(free, levels)
        invariant forall j, x :: k <= j < i ==> !Canonical(free, j, x)
      {
        found := FindFreeBlockInBitmap(i);
        if found != -1 {
          break;
        }
        assert forall x: nat :: (i, x) !in CanonicalSet(free, levels);
        i := i + 1;
      }
    }

    /** The split loop: keeps the left half, marks the right half free. */
    method SplitDown(ghost free: seq<bool>, top: nat, block: nat, k: nat) returns (r: nat)
      requires Layout() && Counts() && k <= top < levels && |free| == blockCount
      requires block < Shr(blockCount, top) && Whole(free, top, block)
      requires Shown() == CanonicalSet(Without(free, top, block), levels)
      modifies bitmap, existCount
      ensures Counts()
      ensures r == First(top - k, block) < Shr(blockCount, k) && Whole(free, k, r)
      ensures Shown() == CanonicalSet(Without(free, k, r), levels)
    {
      hide Shr, Whole, Without, CanonicalSet, Base, LevelCount;
      r := block;
      var i := top;
      while i > k
        invariant k <= i <= top
        invariant 0 <= r < Shr(blockCount, i) && Whole(free, i, r)
        invariant First(i - k, r) == First(top - k, block)
        invariant Counts()
        invariant Shown() == CanonicalSet(Without(free, i, r), levels)
      {
        i := i - 1;
        Split(free, i, r);
        r := r * 2;
      }
    }

    method Split(ghost free: seq<bool>, i: nat, r: nat)
      requires Layout() && Counts() && i < levels && |free| == blockCount
      requires r < Shr(blockCount, i + 1) && Whole(free, i + 1, r)
      requires Shown() == CanonicalSet(Without(free, i + 1, r), levels)
      modifies bitmap, existCount
      ensures Counts()
      ensures 2 * r < Shr(blockCount, i) && Whole(free, i, 2 * r)
      ensures Shown() == CanonicalSet(Without(free, i, 2 * r), levels)
    {
      hide Shr, Whole, Without, CanonicalSet;
      SplitStep(free, levels, i, r);
      SetFlagInBitmap(i, r * 2, false);
      SetFlagInBitmap(i, r * 2 + 1, true);
    }

    /** The merge loop: marks the block free, and while its buddy is free too clears both and goes on
        with their parent.  It always leaves by finding a buddy that is not free. */
    method FreeBuddyBlock(ghost target: seq<bool>, k: nat, block: nat)
      requires Layout() && Counts() && k < levels && |target| == blockCount
      requires block < Shr(blockCount, k) && Whole(target, k, block)
      requires Shown() == CanonicalSet(Without(target, k, block), levels)
      modifies bitmap, existCount
      ensures Counts()
      ensures Shown() == CanonicalSet(target, levels)
    {
      var o := block;
      var i := k;
      while i < levels
        invariant k <= i <= levels
        invariant 0 <= o < Shr(blockCount, i) && Whole(target, i, o)
        invariant Counts()
        invariant Shown() == CanonicalSet(Without(target, i, o), levels)
      {
        var merged := ReleaseOrMerge(target, i, o);
        if !merged {
          return;
        }
        o := o / 2;
        i := i + 1;
      }
      assert false;
    }

    /** Marks block `(i, o)` free; if its buddy is free too, clears both. */
    method ReleaseOrMerge(ghost target: seq<bool>, i: nat, o: nat) returns (merged: bool)
      requires Layout() && Counts() && i < levels && |target| == blockCount
      requires o < Shr(blockCount, i) && Whole(target, i, o)
      requires Shown() == CanonicalSet(Without(target, i, o), levels)
      modifies bitmap, existCount
      ensures Counts()
      ensures !merged ==> Shown() == CanonicalSet(target, levels)
      ensures merged ==>
                && o / 2 < Shr(blockCount, i + 1) && Whole(target, i + 1, o / 2)
                && Shown() == CanonicalSet(Without(target, i + 1, o / 2), levels)
    {
      HasRoomInPool(blockCount, i, o);
      BuddyHasRoom(blockCount, i, o);
      MergeStep(target, levels, i, o);
      SetFlagInBitmap(i, o, true);
      var buddy := if o % 2 == 0 then o + 1 else o - 1;
      merged := GetFlagInBitmap(i, buddy);
      if merged {
        SetFlagInBitmap(i, buddy, false);
        SetFlagInBitmap(i, o, false);
      }
    }

    /** Allocates `size` bytes: the address of a block of the rounded size, or 0 for NULL. */
    method AllocateMemory(size: nat) returns (address: nat)
      requires Valid() && size < QWORD_LIMIT
      modifies this`usedSize, index, bitmap, existCount
      ensures Valid()
      ensures address == 0 <==> !Servable(old(Free()), size, UsableLevels(levels))
      ensures address == 0 ==> index[..] == old(index[..])
      ensures address != 0 ==> Served(old(index[..]), LevelFor(size, 0, UsableLevels(levels)), address)
      ensures address != 0 ==>
                exists k :: 0 <= k < levels && HandsOut(old(index[..]), index[..], startAddress, size, k, address)
    {
      AtMost22Levels(blockCount);
      var alignedSize := GetBuddyBlockSize(size);
      if alignedSize == 0 {
        TooBigForAnyLevel(size, levels);
        return 0;
      }
      ghost var k :| 0 <= k < levels && alignedSize == ShiftedMinSize(k) && size <= alignedSize &&
                     forall i :: 0 <= i < k ==> ShiftedMinSize(i) < size;
      RoundedLevel(size, levels, k);
      ghost var was := index[..];
      address := AllocateAligned(alignedSize, k);
      if address != 0 {
        ServedIsHandedOut(was, size, k, address);
      }
    }

    lemma ServedIsHandedOut(was: seq<nat>, size: nat, k: nat, address: nat)
      requires Served(was, k, address) && k < levels
      requires k == LevelFor(size, 0, UsableLevels(levels)) < UsableLevels(levels)
      ensures HandsOut(was, index[..], startAddress, size, k, address)
    {
      hide HandsOut, First, Shr, Pow2, Whole, Canonical;
      var o: nat, i: nat, b: nat :| ServedBy(was, k, address, o, i, b);
      BestFitIsWhole(FreeMap(was), k, o, i, b);
      BestFitIsHandedOut(was, index[..], startAddress, size, k, address, o);
    }

    /** The part of the allocation after the size has been rounded. */
    method AllocateAligned(alignedSize: nat, ghost k: nat) returns (address: nat)
      requires Valid() && k < levels && alignedSize == ShiftedMinSize(k)
      modifies this`usedSize, index, bitmap, existCount
      ensures Valid()
      ensures address == 0 <==> !(k <= 20 && exists o: nat :: o < Shr(blockCount, k) && Whole(old(Free()), k, o))
      ensures address == 0 ==> index[..] == old(index[..])
      ensures address != 0 ==> Served(old(index[..]), k, address)
    {
      hide Shr, Pow2, LevelCount, Whole, ShiftedMinSize, Base;
      AtMost22Levels(blockCount);
      if (startAddress + usedSize + alignedSize) % QWORD_LIMIT > endAddress {
        EarlyRefusal(index[..], levels, startAddress, endAddress, k);
        return 0;
      }
      address := AllocateFitting(alignedSize, k);
    }

    /** The part of the allocation after the early check. */
    method AllocateFitting(alignedSize: nat, ghost k: nat) returns (address: nat)
      requires Valid() && k < levels <= 22 && alignedSize == ShiftedMinSize(k)
      requires (startAddress + usedSize + alignedSize) % QWORD_LIMIT <= endAddress
      modifies this`usedSize, index, bitmap, existCount
      ensures Valid()
      ensures address == 0 ==> forall o: nat :: o < Shr(blockCount, k) ==> !Whole(old(Free()), k, o)
      ensures address == 0 ==> index[..] == old(index[..])
      ensures address != 0 ==> k <= 20 && Served(old(index[..]), k, address)
      ensures address != 0 ==> exists o: nat :: o < Shr(blockCount, k) && Whole(old(Free()), k, o)
    {
      hide Shr, Pow2, LevelCount, Whole, Base, CanonicalSet;
      ghost var i, b;
      var offset: int;
      offset, i, b := AllocationBuddyBlock(alignedSize, k);
      if offset == -1 {
        return 0;
      }
      ghost var was := index[..];
      EarlyCheck(was, levels, startAddress, endAddress, k, offset);
      address := RecordBlock(alignedSize, offset, k);
      assert ServedBy(was, k, address, offset, i, b);
    }

    /** The recorded block is the best fit. */
    ghost predicate ServedBy(was: seq<nat>, k: nat, address: nat, o: nat, i: nat, b: nat)
      reads index
    {
      BestFit(FreeMap(was), k, o, i, b) && Placed(was, k, o, address)
    }

    ghost predicate Served(was: seq<nat>, k: nat, address: nat)
      reads index
    {
      exists o: nat, i: nat, b: nat :: ServedBy(was, k, address, o, i, b)
    }

    /** Enters the held-out block in the index and counts its size as used. */
    method RecordBlock(alignedSize: nat, offset: nat, ghost k: nat) returns (address: nat)
      requires Shape() && Counts() && WellPlaced(index[..], levels)
      requires usedSize == MIN_SIZE * AllocatedCells(index[..]) && ShiftSafe(index[..])
      requires k < levels && k <= 20 && alignedSize == ShiftedMinSize(k)
      requires offset < Shr(blockCount, k) && Whole(Free(), k, offset)
      requires Shown() == CanonicalSet(Without(Free(), k, offset), levels)
      modifies this`usedSize, index
      ensures Valid()
      ensures address > 0 && Placed(old(index[..]), k, offset, address)
    {
      AtMost22Levels(blockCount);
      var listIndex := GetBlockListIndexOfMatchSize(alignedSize);
      LevelOfAlignedSize(k, listIndex);
      var relativeAddress := alignedSize * offset;
      var x := relativeAddress / MIN_SIZE;
      CellOfBlock(k, offset);
      AllocateStep(index[..], levels, k, offset);
      AllocatedCellsUpdate(index[..], x, k);
      ghost var was := index[..];
      index[x] := listIndex;
      assert index[..] == was[x := k];
      usedSize := usedSize + alignedSize;
      address := relativeAddress + startAddress;
    }

    /** Block `o` of level `k` has been recorded, and `address` is where it starts. */
    ghost predicate Placed(was: seq<nat>, k: nat, o: nat, address: nat)
      reads index
    {
      && First(k, o) < |was|
      && address == startAddress + o * (MIN_SIZE * Pow2(k))
      && index[..] == was[First(k, o) := k]
    }

    /** Releases the block that starts in the cell of `address`, if there is one. */
    method FreeMemory(address: nat) returns (ok: bool)
      requires Valid()
      requires address == 0 || startAddress <= address < startAddress + blockCount * MIN_SIZE
      modifies this`usedSize, index, bitmap, existCount
      ensures Valid()
      ensures ok <==> address != 0 && old(index[(address - startAddress) / MIN_SIZE]) != NOT_ALLOCATED
      ensures index[..] == if ok then old(index[..])[(address - startAddress) / MIN_SIZE := NOT_ALLOCATED]
                           else old(index[..])
    {
      if address == 0 {
        return false;
      }
      var relativeAddress := address - startAddress;
      var x := relativeAddress / MIN_SIZE;
      if index[x] == NOT_ALLOCATED {
        return false;
      }
      var listIndex := index[x];
      ghost var was := index[..];
      AtMost22Levels(blockCount);
      ReleaseStep(was, levels, x);
      AllocatedCellsUpdate(was, x, NOT_ALLOCATED);
      EraseBlock(x);
      assert index[..] == was[x := NOT_ALLOCATED];
      BlockOfAddress(x, relativeAddress, listIndex);
      var blockSize := ShiftedMinSize(listIndex);
      var offset := relativeAddress / blockSize;
      FreeBuddyBlock(Free(), listIndex, offset);
      usedSize := usedSize - blockSize;
      ok := true;
    }

    method EraseBlock(x: nat)
      requires Shape() && x < index.Length
      modifies index
      ensures index[..] == old(index[..])[x := NOT_ALLOCATED]
      ensures Shown() == old(Shown())
      ensures Counts() == old(Counts())
    {
      index[x] := NOT_ALLOCATED;
    }

    /** The index determines every bitmap byte, every counter and the used size. */
    twostate lemma IndexDetermines()
      requires old(Valid()) && Valid() && index[..] == old(index[..])
      ensures bitmap[..] == old(bitmap[..]) && existCount[..] == old(existCount[..]) && usedSize == old(usedSize)
    {
      SameIndexSameBitmaps(old(bitmap[..]), bitmap[..], old(existCount[..]), existCount[..], blockCount);
    }

    ghost predicate NothingInUse()
      reads index
    {
      forall x :: 0 <= x < index.Length ==> index[x] == NOT_ALLOCATED
    }

    /** Whenever everything has been freed, bitmaps and counters are byte for byte those of the fresh pool. */
    lemma FreedPoolIsFresh()
      requires Valid() && NothingInUse()
      ensures bitmap[..] == InitialArea(blockCount, levels) && existCount[..] == InitialCounts(blockCount, levels)
      ensures usedSize == 0
    {
      ReadyCounts(blockCount);
      ReadyIsCanonical(index[..]);
      NothingAllocated(index[..]);
      SameIndexSameBitmaps(bitmap[..], InitialArea(blockCount, levels), existCount[..],
                           InitialCounts(blockCount, levels), blockCount);
    }

    /** What is answered to a request when the index is `a`: an allocation gets 0 exactly if nothing can serve it,
        else the address of the best fit; a release gets 1 exactly if a block starts in the cell of its address. */
    ghost predicate IsAnswer(a: seq<nat>, r: Request, answer: nat) {
      match r
      case Allocate(size) =>
        if answer == 0 then !Servable(FreeMap(a), size, UsableLevels(levels))
        else BestAddress(FreeMap(a), LevelFor(size, 0, UsableLevels(levels)), answer)
      case Release(address) =>
        answer == if address >= startAddress && (address - startAddress) / MIN_SIZE < |a| &&
                     a[(address - startAddress) / MIN_SIZE] != NOT_ALLOCATED then 1 else 0
    }

    ghost predicate BestAddress(free: seq<bool>, k: nat, address: nat) {
      exists o: nat, i: nat, b: nat ::
        BestFit(free, k, o, i, b) && address == startAddress + o * (MIN_SIZE * Pow2(k))
    }

    /** The index after an answered request: an allocated block is entered, a released one erased. */
    ghost function IndexAfter(a: seq<nat>, r: Request, answer: nat): seq<nat> {
      if answer == 0 then a
      else
        match r
        case Allocate(size) => Entered(a, answer, LevelFor(size, 0, UsableLevels(levels)))
        case Release(address) => Entered(a, address, NOT_ALLOCATED)
    }

    ghost function Entered(a: seq<nat>, address: nat, k: nat): (b: seq<nat>)
      ensures |b| == |a|
    {
      if address >= startAddress && (address - startAddress) / MIN_SIZE < |a| then
        a[(address - startAddress) / MIN_SIZE := k]
      else a
    }

    /** The index after a run. */
    ghost function Replayed(a: seq<nat>, requests: seq<Request>, answers: seq<nat>): seq<nat>
      requires |answers| <= |requests|
    {
      if answers == [] then a
      else
        var n := |answers| - 1;
        IndexAfter(Replayed(a, requests, answers[..n]), requests[n], answers[n])
    }

    /** Every request of a run is answered as the requests before it call for. */
    ghost predicate AllAnswered(a: seq<nat>, requests: seq<Request>, answers: seq<nat>)
      requires |answers| <= |requests|
    {
      forall i :: 0 <= i < |answers| ==> IsAnswer(Replayed(a, requests, answers[..i]), requests[i], answers[i])
    }

    lemma AnsweredOnce(a: seq<nat>, requests: seq<Request>, answers: seq<nat>, answer: nat)
      requires |answers| < |requests| && AllAnswered(a, requests, answers)
      requires IsAnswer(Replayed(a, requests, answers), requests[|answers|], answer)
      ensures AllAnswered(a, requests, answers + [answer])
      ensures Replayed(a, requests, answers + [answer]) ==
              IndexAfter(Replayed(a, requests, answers), requests[|answers|], answer)
    {
      hide IsAnswer, Manager.IndexAfter;
      var next := answers + [answer];
      assert next[..|answers|] == answers;
      forall i | 0 <= i < |next|
        ensures IsAnswer(Replayed(a, requests, next[..i]), requests[i], next[i])
      {
        assert i < |answers| ==> next[..i] == answers[..i];
      }
    }

    /** Any sequence of allocations and frees keeps the invariant and answers every request as the requests before
        it call for; the index at the end is what the requests and the answers make of it.  If nothing is
        allocated in the end the pool is as fresh. */
    method RunRequests(requests: seq<Request>) returns (answers: seq<nat>)
      requires Valid() && forall i :: 0 <= i < |requests| ==> MayAsk(requests[i])
      modifies this`usedSize, index, bitmap, existCount
      ensures Valid() && |answers| == |requests|
      ensures AllAnswered(old(index[..]), requests, answers)
      ensures index[..] == Replayed(old(index[..]), requests, answers)
      ensures NothingInUse() ==>
                && bitmap[..] == InitialArea(blockCount, levels)
                && existCount[..] == InitialCounts(blockCount, levels) && usedSize == 0
    {
      hide Manager.Valid, Manager.IsAnswer, Manager.IndexAfter, Manager.Replayed, Manager.AllAnswered;
      answers := [];
      ghost var was := index[..];
      NothingAnswered(was, requests);
      while |answers| < |requests|
        invariant Valid() && |answers| <= |requests|
        invariant AllAnswered(was, requests, answers) && index[..] == Replayed(was, requests, answers)
      {
        var answer := Serve(requests[|answers|]);
        AnsweredOnce(was, requests, answers, answer);
        answers := answers + [answer];
      }
      if NothingInUse() {
        FreedPoolIsFresh();
      }
    }

    lemma NothingAnswered(a: seq<nat>, requests: seq<Request>)
      ensures AllAnswered(a, requests, []) && Replayed(a, requests, []) == a
    {
    }

    method Serve(r: Request) returns (answer: nat)
      requires Valid() && MayAsk(r)
      modifies this`usedSize, index, bitmap, existCount
      ensures Valid() && IsAnswer(old(index[..]), r, answer) && index[..] == IndexAfter(old(index[..]), r, answer)
    {
      hide Servable, Pow2, LevelFor, BestFit, Manager.Valid, Manager.BestAddress, FreeMap, HandsOut, Manager.Served;
      ghost var was := index[..];
      PoolFacts();
      match r {
        case Allocate(size) =>
          answer := AllocateMemory(size);
          if answer != 0 {
            ServedIsEntered(was, LevelFor(size, 0, UsableLevels(levels)), answer);
          }
        case Release(address) =>
          var ok := FreeMemory(address);
          answer := if ok then 1 else 0;
      }
    }

    lemma PoolFacts()
      requires Valid()
      ensures index.Length == blockCount && 0 < startAddress
    {
    }

    lemma ServedIsEntered(was: seq<nat>, k: nat, address: nat)
      requires Served(was, k, address) && |was| == index.Length
      ensures BestAddress(FreeMap(was), k, address) && index[..] == Entered(was, address, k)
    {
      var o: nat, i: nat, b: nat :| ServedBy(was, k, address, o, i, b);
      CellOfBlock(k, o);
    }

    /** Sizes are 64-bit numbers, and addresses to be freed lie in the pool. */
    predicate MayAsk(r: Request) {
      match r
      case Allocate(size) => size < QWORD_LIMIT
      case Release(address) => address == 0 || startAddress <= address < startAddress + blockCount * MIN_SIZE
    }

    /** Allocating and then freeing restores every bitmap byte, every counter and the index. */
    method AllocateThenFree(size: nat) returns (address: nat, ok: bool)
      requires Valid() && size < QWORD_LIMIT
      modifies this`usedSize, index, bitmap, existCount
      ensures Valid() && ok == (address != 0)
      ensures bitmap[..] == old(bitmap[..]) && existCount[..] == old(existCount[..])
      ensures index[..] == old(index[..]) && usedSize == old(usedSize)
    {
      ghost var was := index[..];
      address := AllocateMemory(size);
      ok := false;
      if address != 0 {
        ok := FreeServed(was, LevelFor(size, 0, UsableLevels(levels)), address);
      }
      IndexDetermines();
    }

    /** Frees a block that has just been served. */
    method FreeServed(ghost was: seq<nat>, ghost k: nat, address: nat) returns (ok: bool)
      requires Valid() && WellPlaced(was, levels) && |was| == blockCount && k < levels
      requires Served(was, k, address)
      modifies this`usedSize, index, bitmap, existCount
      ensures Valid() && ok && index[..] == was
    {
      ghost var o: nat, i: nat, b: nat :| ServedBy(was, k, address, o, i, b);
      BestFitIsWhole(FreeMap(was), k, o, i, b);
      ok := FreePlaced(was, k, o, address);
    }

    /** Frees a block that has just been placed. */
    method FreePlaced(ghost was: seq<nat>, ghost k: nat, ghost o: nat, address: nat) returns (ok: bool)
      requires Valid() && WellPlaced(was, levels) && |was| == blockCount && k < levels
      requires o < Shr(|was|, k) && Whole(FreeMap(was), k, o) && Placed(was, k, o, address)
      modifies this`usedSize, index, bitmap, existCount
      ensures Valid() && ok && index[..] == was
    {
      AtMost22Levels(blockCount);
      AddressToCell(was, levels, startAddress, k, o, address);
      assert index[(address - startAddress) / MIN_SIZE] == index[..][First(k, o)] == k;
      ok := FreeMemory(address);
    }
  }
}
