/** The reasoning behind each operation of the buddy allocator, on values: size rounding, the start-up
    bitmaps, the split and merge steps, and the addresses handed out. */
module AllocatorSteps {
  import opened BlockGeometry
  import opened AllocationMap
  import opened MetadataLayout
  import opened BitBytes
  import opened Bitmaps

  /** The end of the task stack pool rounded up to one megabyte. */
  const START_ADDRESS: nat := 0x1100000
  const MEGABYTE: nat := 0x100000
  const MAX_RAM: nat := 0xC000_0000
  const QWORD_LIMIT: nat := 0x1_0000_0000_0000_0000

  /** `1024 << i` as a 32-bit int that is then widened to 64 bits: at level 21 the sign bit is set. */
  function ShiftedMinSize(i: nat): nat {
    if i <= 20 then MIN_SIZE * Pow2(i) else QWORD_LIMIT - 0x8000_0000
  }

  /** No block of a level for which the int shift goes wrong is ever handed out. */
  ghost predicate ShiftSafe(index: seq<nat>) {
    forall x :: 0 <= x < |index| && index[x] != NOT_ALLOCATED ==> index[x] <= 20
  }

  /** The levels whose block size the int shift computes correctly. */
  function UsableLevels(levels: nat): nat {
    if levels <= 21 then levels else 21
  }

  /** The least level from `i` on whose blocks hold `size` bytes, or `top` if there is none. */
  function LevelFor(size: nat, i: nat, top: nat): (k: nat)
    requires i <= top
    ensures i <= k <= top
    ensures k < top ==> size <= MIN_SIZE * Pow2(k)
    ensures forall j :: i <= j < k ==> MIN_SIZE * Pow2(j) < size
    decreases top - i
  {
    if i == top || size <= MIN_SIZE * Pow2(i) then i else LevelFor(size, i + 1, top)
  }

  /** Some aligned in-pool run of free cells of the rounded size exists, at one of the first `top` levels. */
  ghost predicate Servable(free: seq<bool>, size: nat, top: nat) {
    var k := LevelFor(size, 0, top);
    k < top && exists o: nat :: o < Shr(|free|, k) && Whole(free, k, o)
  }

  /** Block `o` of level `k` is the leftmost piece of the first shown block of the least level that can serve. */
  ghost predicate BestFit(free: seq<bool>, k: nat, o: nat, i: nat, b: nat) {
    && k <= i && Canonical(free, i, b) && o == First(i - k, b)
    && (forall j, x :: k <= j < i ==> !Canonical(free, j, x))
    && (forall x :: 0 <= x < b ==> !Canonical(free, i, x))
  }

  lemma Pow2Values()
    ensures Pow2(10) == 0x400 && Pow2(20) == 0x100000 && Pow2(21) == 0x200000 && Pow2(22) == 0x400000
  {
    assert Pow2(5) == 32;
    assert Pow2(10) == 0x400;
    assert Pow2(15) == 0x8000;
    assert Pow2(20) == 0x100000;
  }

  lemma ShiftedMinSizeIncreases(i: nat, j: nat)
    requires i < j <= 21
    ensures ShiftedMinSize(i) < ShiftedMinSize(j)
  {
    Pow2Values();
    Pow2Monotone(i, 20);
    if j <= 20 {
      Pow2Monotone(i + 1, j);
    }
  }

  /** Exactly what the int shift costs: a request the pool could serve is refused when and only when the
      pool has at least 2^21 cells, more than one gigabyte is asked for, and the two-gigabyte block is free. */
  lemma ShiftOverflowGap(free: seq<bool>, size: nat)
    requires 0 < |free| < 3 * 0x100000
    ensures var levels := LevelCount(|free|);
            Servable(free, size, levels) && !Servable(free, size, UsableLevels(levels)) <==>
            0x200000 <= |free| && 0x4000_0000 < size <= 0x8000_0000 && Whole(free, 21, 0)
  {
    hide LevelCount, Pow2, Whole;
    var n, levels := |free|, LevelCount(|free|);
    TopLevel(n);
    if levels == 22 {
      LevelForPrefix(size, 0, 21, 22);
      assert LevelFor(size, 21, 22) == if size <= 0x8000_0000 then 21 else 22;
      assert LevelFor(size, 0, 21) == 21 <==> 0x4000_0000 < size by {
        Pow2Values();
        forall j | 0 <= j <= 20
          ensures Pow2(j) <= Pow2(20)
        {
          Pow2Monotone(j, 20);
        }
      }
    }
  }

  /** Only pools of at least 2^21 cells have a level 21, which then is a single block. */
  lemma TopLevel(n: nat)
    requires 0 < n < 3 * 0x100000
    ensures LevelCount(n) <= 22
    ensures LevelCount(n) == 22 <==> 0x200000 <= n
    ensures 0x200000 <= n ==> Shr(n, 21) == 1
    ensures Pow2(21) == 0x200000
  {
    Pow2Values();
    LevelCountBound(n, 22);
    NonzeroLevel(n, 21);
    BlockInPool(n, 21, 0);
    BlockInPool(n, 21, 1);
    FirstIsMultiple(21, 0);
    FirstIsMultiple(21, 1);
  }

  lemma {:induction false} LevelForPrefix(size: nat, i: nat, top: nat, more: nat)
    requires i <= top < more
    ensures LevelFor(size, i, top) < top ==> LevelFor(size, i, more) == LevelFor(size, i, top)
    ensures LevelFor(size, i, top) == top ==> LevelFor(size, i, more) == LevelFor(size, top, more)
    decreases top - i
  {
    if i >= top || MIN_SIZE * Pow2(i) >= size {
    } else {
      LevelForPrefix(size, i + 1, top, more);
    }
  }

  /** A request that some run can serve always passes the early check of the used size. */
  lemma UsedSizeLeavesRoom(index: seq<nat>, levels: nat, k: nat, o: nat)
    requires WellPlaced(index, levels) && o < Shr(|index|, k) && Whole(FreeMap(index), k, o)
    ensures AllocatedCells(index) + Pow2(k) <= |index|
  {
    CellsAddUp(index, levels);
    WithoutCount(FreeMap(index), k, o);
  }

  function Zeros(k: nat): (r: seq<bv8>)
    ensures |r| == k && forall q :: 0 <= q < k ==> r[q] == 0
  {
    seq(k, _ => 0)
  }

  /** The bytes of a freshly built bitmap of `count` bits: one bit, the last, if `count` is odd. */
  function InitialBytes(count: nat): (r: seq<bv8>)
    ensures |r| == BitmapBytes(count)
  {
    Zeros(count / 8) +
    if count % 8 == 0 then [] else [if count % 2 == 1 then Mask(count % 8 - 1) else 0]
  }

  /** The bytes of the freshly built bitmaps of the first `j` levels. */
  function InitialArea(n: nat, j: nat): (r: seq<bv8>)
    ensures |r| == Base(n, j)
  {
    if j == 0 then [] else InitialArea(n, j - 1) + InitialBytes(Shr(n, j - 1))
  }

  /** The bit counters of the freshly built bitmaps of the first `j` levels. */
  function InitialCounts(n: nat, j: nat): (r: seq<nat>)
    ensures |r| == j
  {
    if j == 0 then [] else InitialCounts(n, j - 1) + [Shr(n, j - 1) % 2]
  }

  lemma {:induction false} InitialCountsAt(n: nat, top: nat, k: nat)
    requires k < top
    ensures InitialCounts(n, top)[k] == Shr(n, k) % 2
  {
    if k + 1 >= top {
    } else {
      InitialCountsAt(n, top - 1, k);
    }
  }

  lemma AppendByte(before: seq<bv8>, zeros: seq<bv8>, now: seq<bv8>)
    requires now == before + zeros
    ensures forall v :: now + [v] == before + (zeros + [v])
    ensures now == before + (zeros + [])
  {
  }

  lemma {:induction false} InitialAreaAt(n: nat, top: nat, k: nat, q: nat)
    requires k < top && q < BitmapBytes(Shr(n, k))
    ensures Base(n, k) + q < Base(n, top)
    ensures InitialArea(n, top)[Base(n, k) + q] == InitialBytes(Shr(n, k))[q]
  {
    BasesDisjoint(n, k, top);
    if k + 1 >= top {
    } else {
      BasesDisjoint(n, k, top - 1);
      InitialAreaAt(n, top - 1, k, q);
    }
  }

  lemma InitialBit(count: nat, o: nat)
    requires o < 8 * BitmapBytes(count)
    ensures HasBit(InitialBytes(count)[o / 8], o % 8) <==> count % 2 == 1 && o == count - 1
  {
    var b := InitialBytes(count)[o / 8];
    if o / 8 == count / 8 && count % 2 == 1 {
      OneBitMask(count % 8 - 1, o % 8);
    } else {
      assert b == 0;
      ZeroByte(b, o % 8);
    }
  }

  ghost predicate LastOfOdd(n: nat, j: nat, o: nat) {
    j < LevelCount(n) && Shr(n, j) % 2 == 1 && o == Shr(n, j) - 1
  }

  lemma ReadyBit(n: nat, j: nat, o: nat)
    ensures (j, o) in Marked(InitialArea(n, LevelCount(n)), n) <==> LastOfOdd(n, j, o)
  {
    if HasRoom(n, j, o) {
      var bytes := ReadyByte(n, j, o);
      BitOfByte(bytes, n, j, o / 8, o % 8);
    }
  }

  lemma ReadyByte(n: nat, j: nat, o: nat) returns (bytes: seq<bv8>)
    requires HasRoom(n, j, o)
    ensures bytes == InitialArea(n, LevelCount(n)) && Base(n, j) + o / 8 < |bytes|
    ensures HasBit(bytes[Base(n, j) + o / 8], o % 8) <==> LastOfOdd(n, j, o)
  {
    bytes := InitialArea(n, LevelCount(n));
    InitialBit(Shr(n, j), o);
    InitialAreaAt(n, LevelCount(n), j, o / 8);
  }

  /** The counters of freshly built bitmaps are right. */
  lemma ReadyCounts(n: nat)
    ensures CountsOf(InitialCounts(n, LevelCount(n)), Marked(InitialArea(n, LevelCount(n)), n))
  {
    forall k | 0 <= k < LevelCount(n)
      ensures InitialCounts(n, LevelCount(n))[k] == |LevelOf(Marked(InitialArea(n, LevelCount(n)), n), k)|
    {
      InitialCountsAt(n, LevelCount(n), k);
      ReadyCount(n, k);
    }
  }

  lemma ReadyCount(n: nat, k: nat)
    requires k < LevelCount(n)
    ensures |LevelOf(Marked(InitialArea(n, LevelCount(n)), n), k)| == Shr(n, k) % 2
  {
    NonzeroLevel(n, k);
    forall o: nat
      ensures (k, o) in Marked(InitialArea(n, LevelCount(n)), n) <==> Shr(n, k) % 2 == 1 && o == Shr(n, k) - 1
    {
      ReadyBit(n, k, o);
    }
    AtMostOne(Marked(InitialArea(n, LevelCount(n)), n), k, Shr(n, k) - 1, Shr(n, k) % 2);
  }

  lemma AtMostOne(marked: set<(nat, nat)>, k: nat, last: nat, count: nat)
    requires count <= 1 && forall o: nat :: (k, o) in marked <==> count == 1 && o == last
    ensures |LevelOf(marked, k)| == count
  {
    forall p | p in LevelOf(marked, k)
      ensures count == 1 && p == (k, last)
    {
      assert p == (k, p.1);
    }
    if count == 1 {
      assert LevelOf(marked, k) == {(k, last)};
    } else {
      assert LevelOf(marked, k) == {};
    }
  }

  /** Freshly built bitmaps show the canonical blocks of a pool in which nothing is allocated. */
  lemma ReadyIsCanonical(index: seq<nat>)
    requires forall x :: 0 <= x < |index| ==> index[x] == NOT_ALLOCATED
    ensures Marked(InitialArea(|index|, LevelCount(|index|)), |index|) ==
            CanonicalSet(FreeMap(index), LevelCount(|index|))
  {
    var n, levels := |index|, LevelCount(|index|);
    forall p
      ensures p in Marked(InitialArea(n, levels), n) <==> p in CanonicalSet(FreeMap(index), levels)
    {
      ReadyBit(n, p.0, p.1);
      AllFreeIsBinaryDecomposition(FreeMap(index), levels, p.0, p.1);
    }
  }

  /** A memory of whole megabytes is divided into bookkeeping blocks and the pool without remainder. */
  lemma PoolFits(megabytes: nat, metaBlocks: nat)
    requires 0 < megabytes < 3 * 1024 && metaBlocks == MetaBlocks(megabytes * 1024)
    ensures metaBlocks < megabytes * 1024
    ensures var n := megabytes * 1024 - metaBlocks;
            n + LevelCount(n) * BITMAP_STRUCT_SIZE + Base(n, LevelCount(n)) <= metaBlocks * MIN_SIZE
  {
    hide LevelCount, Base, MetaBlocks;
    MetadataFits(megabytes * 1024);
  }

  lemma WholeMegabytes(megabytes: nat)
    ensures (megabytes * MEGABYTE) / MIN_SIZE == megabytes * 1024
  {
  }

  lemma AtMost22Levels(n: nat)
    requires 0 < n < 3 * 0x100000
    ensures LevelCount(n) <= 22
  {
    TopLevel(n);
  }

  lemma TooBigForAnyLevel(size: nat, levels: nat)
    requires forall i :: 0 <= i < levels ==> ShiftedMinSize(i) < size
    ensures LevelFor(size, 0, UsableLevels(levels)) == UsableLevels(levels)
  {
    var k := LevelFor(size, 0, UsableLevels(levels));
    if k < UsableLevels(levels) {
      assert ShiftedMinSize(k) == MIN_SIZE * Pow2(k);
    }
  }

  lemma RoundedLevel(size: nat, levels: nat, k: nat)
    requires k < levels <= 22 && size <= ShiftedMinSize(k)
    requires forall i :: 0 <= i < k ==> ShiftedMinSize(i) < size
    ensures LevelFor(size, 0, UsableLevels(levels)) == k
  {
    var r := LevelFor(size, 0, UsableLevels(levels));
    assert r < k ==> ShiftedMinSize(r) == MIN_SIZE * Pow2(r);
  }

  /** The early check of the used size, computed modulo 2^64: it passes for a free block of a level that
      the int shift computes correctly, and it refuses the two-gigabyte block. */
  lemma EarlyCheck(index: seq<nat>, levels: nat, start: nat, end: nat, k: nat, o: nat)
    requires WellPlaced(index, levels) && k <= 21
    requires start + |index| * MIN_SIZE <= end <= MAX_RAM
    requires o < Shr(|index|, k) && Whole(FreeMap(index), k, o)
    ensures (start + MIN_SIZE * AllocatedCells(index) + ShiftedMinSize(k)) % QWORD_LIMIT <= end <==> k <= 20
  {
    Pow2Values();
    UsedSizeLeavesRoom(index, levels, k, o);
  }

  /** A request that the early check refuses could not have been served. */
  lemma EarlyRefusal(index: seq<nat>, levels: nat, start: nat, end: nat, k: nat)
    requires WellPlaced(index, levels) && k <= 21
    requires start + |index| * MIN_SIZE <= end <= MAX_RAM
    requires (start + MIN_SIZE * AllocatedCells(index) + ShiftedMinSize(k)) % QWORD_LIMIT > end
    ensures k <= 20 ==> forall o: nat :: o < Shr(|index|, k) ==> !Whole(FreeMap(index), k, o)
  {
    forall o: nat | o < Shr(|index|, k) && Whole(FreeMap(index), k, o)
      ensures k == 21
    {
      EarlyCheck(index, levels, start, end, k, o);
    }
  }

  /** The index entry of a block is that of its first cell. */
  lemma CellOfBlock(k: nat, o: nat)
    ensures (MIN_SIZE * Pow2(k) * o) / MIN_SIZE == First(k, o)
    ensures MIN_SIZE * Pow2(k) * o == o * (MIN_SIZE * Pow2(k))
  {
    FirstIsMultiple(k, o);
    assert MIN_SIZE * Pow2(k) * o == MIN_SIZE * (o * Pow2(k));
  }

  /** Any address in the first cell of an allocated block leads to the offset of that block. */
  lemma BlockOfAddress(x: nat, relative: nat, k: nat)
    requires x == relative / MIN_SIZE && First(k, Shr(x, k)) == x
    ensures relative / (MIN_SIZE * Pow2(k)) == Shr(x, k)
  {
    var o, p := Shr(x, k), Pow2(k);
    FirstIsMultiple(k, o);
    var size := MIN_SIZE * p;
    assert size * o == MIN_SIZE * (o * p);
    QuotientIs(relative, size, o);
  }

  lemma QuotientIs(a: nat, size: nat, q: nat)
    requires size > 0 && size * q <= a < size * q + size
    ensures a / size == q
  {
    var d := a / size;
    assert a == size * d + a % size;
    if d < q {
      MulMonotone(d + 1, q, size);
    } else if q < d {
      MulMonotone(q + 1, d, size);
    }
  }

  /** The address handed out for a block leads back to the index entry of its first cell. */
  lemma AddressToCell(was: seq<nat>, levels: nat, start: nat, k: nat, o: nat, address: nat)
    requires WellPlaced(was, levels) && levels <= NOT_ALLOCATED && k < levels
    requires o < Shr(|was|, k) && Whole(FreeMap(was), k, o)
    requires address == start + o * (MIN_SIZE * Pow2(k))
    ensures (address - start) / MIN_SIZE == First(k, o) < |was|
    ensures was[First(k, o)] == NOT_ALLOCATED
    ensures start <= address < start + |was| * MIN_SIZE
  {
    AllocateStep(was, levels, k, o);
    CellOfBlock(k, o);
  }

  /** At `address` lies a block of the least level `k` that holds `size` bytes; it is aligned to its size, all its
      cells were free, and the index now has it in its first cell. */
  ghost predicate HandsOut(was: seq<nat>, next: seq<nat>, start: nat, size: nat, k: nat, address: nat) {
    && size <= MIN_SIZE * Pow2(k) && (forall j :: 0 <= j < k ==> MIN_SIZE * Pow2(j) < size)
    && start <= address && (exists o: nat :: address - start == o * (MIN_SIZE * Pow2(k)))
    && var x := (address - start) / MIN_SIZE;
       && x + Pow2(k) <= |was| && next == was[x := k]
       && forall c :: x <= c < x + Pow2(k) ==> FreeMap(was)[c]
  }

  lemma BestFitIsHandedOut(was: seq<nat>, next: seq<nat>, start: nat, size: nat, k: nat, address: nat, o: nat)
    requires size <= MIN_SIZE * Pow2(k) && forall j :: 0 <= j < k ==> MIN_SIZE * Pow2(j) < size
    requires o < Shr(|was|, k) && Whole(FreeMap(was), k, o) && First(k, o) < |was|
    requires address == start + o * (MIN_SIZE * Pow2(k)) && next == was[First(k, o) := k]
    ensures HandsOut(was, next, start, size, k, address)
  {
    hide FreeMap, First, Shr, Pow2;
    CellOfBlock(k, o);
    BlockInPool(|was|, k, o);
    forall c | First(k, o) <= c < First(k, o) + Pow2(k)
      ensures FreeMap(was)[c]
    {
      BlockIsInterval(c, k, o);
    }
  }

  /** The index determines the bitmaps and the counters. */
  lemma SameIndexSameBitmaps(a: seq<bv8>, b: seq<bv8>, m: seq<nat>, n: seq<nat>, count: nat)
    requires |a| == |b| == Base(count, LevelCount(count)) && |m| == |n|
    requires Marked(a, count) == Marked(b, count)
    requires CountsOf(m, Marked(a, count)) && CountsOf(n, Marked(b, count))
    ensures a == b && m == n
  {
    MarkedDetermines(a, b, count);
  }

  lemma LevelOfAlignedSize(k: nat, r: int)
    requires k <= 21 && -1 <= r <= 21
    requires r >= 0 ==> ShiftedMinSize(k) <= ShiftedMinSize(r)
    requires forall i :: 0 <= i < r ==> ShiftedMinSize(i) < ShiftedMinSize(k)
    ensures r == -1 || r == k
  {
    if 0 <= r < k {
      ShiftedMinSizeIncreases(r, k);
    }
  }

  lemma BestFitDown(free: seq<bool>, i: nat, b: nat, k: nat)
    requires k <= i && BestFit(free, i, b, i, b)
    requires forall j, x :: k <= j < i ==> !Canonical(free, j, x)
    ensures BestFit(free, k, First(i - k, b), i, b)
  {
  }

  lemma BestFitIsWhole(free: seq<bool>, k: nat, o: nat, i: nat, b: nat)
    requires BestFit(free, k, o, i, b)
    ensures o < Shr(|free|, k) && Whole(free, k, o)
  {
    ShrOfFirst(i - k, b);
    WholeInside(free, k, o, i, b);
    InPoolInside(|free|, k, o, i, b);
  }

  /** If no level from `k` up shows a free block, no run of the size of level `k` is free. */
  lemma NoneCanonicalNoneWhole(free: seq<bool>, k: nat, levels: nat)
    requires levels == LevelCount(|free|) && k < levels
    requires forall j, x :: k <= j < levels ==> !Canonical(free, j, x)
    ensures forall o: nat :: o < Shr(|free|, k) ==> !Whole(free, k, o)
  {
    forall o: nat | o < Shr(|free|, k)
      ensures !Whole(free, k, o)
    {
      if Whole(free, k, o) {
        var i, b := CanonicalCover(free, k, o, levels);
      }
    }
  }

  lemma HasRoomInPool(n: nat, j: nat, o: nat)
    requires j < LevelCount(n) && o < Shr(n, j)
    ensures HasRoom(n, j, o)
  {
  }

  /** The buddy of the last block of a level with an odd block count has a bit too: a padding bit. */
  lemma BuddyHasRoom(n: nat, j: nat, o: nat)
    requires j < LevelCount(n) && o < Shr(n, j)
    ensures HasRoom(n, j, Buddy(o))
  {
    RoomForBuddy(Shr(n, j), o);
  }

  lemma RoomForBuddy(count: nat, o: nat)
    requires o < count
    ensures Buddy(o) < 8 * BitmapBytes(count)
  {
  }

  /** One split: the left half stays held out and the right half is shown. */
  lemma SplitStep(free: seq<bool>, levels: nat, i: nat, r: nat)
    requires levels == LevelCount(|free|) && i < levels
    requires r < Shr(|free|, i + 1) && Whole(free, i + 1, r)
    ensures HasRoom(|free|, i, 2 * r) && HasRoom(|free|, i, 2 * r + 1)
    ensures 2 * r < Shr(|free|, i) && Whole(free, i, 2 * r)
    ensures (i, 2 * r) !in CanonicalSet(Without(free, i + 1, r), levels)
    ensures CanonicalSet(Without(free, i, 2 * r), levels) ==
            CanonicalSet(Without(free, i + 1, r), levels) + {(i, 2 * r + 1)}
  {
    ParentContains(i, 2 * r);
    WholeInside(free, i, 2 * r, i + 1, r);
    WholeWithout(free, i + 1, r, i, 2 * r);
    HoldHalfInSet(free, levels, i, 2 * r);
  }

  /** Both halves are free: clearing them leaves the canonical blocks with their parent held out. */
  lemma MergeBoth(target: seq<bool>, levels: nat, i: nat, o: nat)
    requires i < levels && o / 2 < Shr(|target|, i + 1) && Whole(target, i + 1, o / 2)
    requires o < Shr(|target|, i)
    ensures var held := CanonicalSet(Without(target, i, o), levels);
            held + {(i, o)} - {(i, Buddy(o))} - {(i, o)} == CanonicalSet(Without(target, i + 1, o / 2), levels)
  {
    var held, rest := CanonicalSet(Without(target, i, o), levels), CanonicalSet(Without(target, i + 1, o / 2), levels);
    HoldHalfInSet(target, levels, i, o);
    ParentContains(i, o);
    ParentContains(i, Buddy(o));
    InPoolInside(|target|, i, Buddy(o), i + 1, o / 2);
    WholeWithout(target, i + 1, o / 2, i, Buddy(o));
    WholeWithout(target, i + 1, o / 2, i, o);
    assert (i, Buddy(o)) !in rest && (i, o) !in rest;
  }

  /** One step of the merge loop: with the held-out block shown, either its buddy is shown too and
      clearing both leaves their parent held out, or the bitmaps are canonical again. */
  lemma MergeStep(target: seq<bool>, levels: nat, i: nat, o: nat)
    requires levels == LevelCount(|target|) && i < levels
    requires o < Shr(|target|, i) && Whole(target, i, o)
    ensures var held := CanonicalSet(Without(target, i, o), levels);
            var shown := held + {(i, o)};
            if (i, Buddy(o)) in shown then
              && o / 2 < Shr(|target|, i + 1) && Whole(target, i + 1, o / 2)
              && shown - {(i, Buddy(o))} - {(i, o)} == CanonicalSet(Without(target, i + 1, o / 2), levels)
            else
              shown == CanonicalSet(target, levels)
  {
    BuddyShows(target, levels, i, o);
    if Buddy(o) < Shr(|target|, i) && Whole(target, i, Buddy(o)) {
      BuddiesMerge(target, i, o);
      MergeBoth(target, levels, i, o);
    } else {
      LoneHalfIsCanonical(target, i, o);
      TakeFromSet(target, levels, i, o);
      assert CanonicalSet(target, levels) == CanonicalSet(Without(target, i, o), levels) + {(i, o)};
    }
  }
}
