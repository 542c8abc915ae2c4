/** What the allocated-block index says about the pool: which cells are free, that the allocated
    blocks are aligned and disjoint, how much memory is in use, and which free blocks the bitmaps
    must show. */
module AllocationMap {
  import opened BlockGeometry

  /** The index entry of a cell at which no allocated block starts. */
  const NOT_ALLOCATED: nat := 0xFF

  /** The cells that no allocated block covers. */
  ghost function FreeMap(index: seq<nat>): (free: seq<bool>)
    ensures |free| == |index|
  {
    seq(|index|, c requires 0 <= c < |index| => !exists x :: Covers(index, x, c))
  }

  /** An allocated block starts at cell `x` and covers cell `c`. */
  ghost predicate Covers(index: seq<nat>, x: nat, c: nat) {
    x < |index| && index[x] != NOT_ALLOCATED && Shr(c, index[x]) == Shr(x, index[x])
  }

  /** Every allocated block has a valid level, starts at a multiple of its size and ends in the pool,
      and no two of them overlap. */
  ghost predicate WellPlaced(index: seq<nat>, levels: nat) {
    && (forall x :: 0 <= x < |index| && index[x] != NOT_ALLOCATED ==> BlockAt(index, levels, x))
    && (forall x, y :: 0 <= x < |index| && 0 <= y < |index| && x != y ==> Apart(index, x, y))
  }

  ghost predicate BlockAt(index: seq<nat>, levels: nat, x: nat)
    requires x < |index|
  {
    && index[x] < levels
    && Shr(x, index[x]) < Shr(|index|, index[x])
    && First(index[x], Shr(x, index[x])) == x
  }

  ghost predicate Apart(index: seq<nat>, x: nat, y: nat)
    requires x < |index| && y < |index|
  {
    index[x] != NOT_ALLOCATED && index[y] != NOT_ALLOCATED ==>
      !Inside(index[x], Shr(x, index[x]), index[y], Shr(y, index[y]))
  }

  /** The number of cells in allocated blocks. */
  ghost function AllocatedCells(index: seq<nat>): nat {
    if index == [] then 0
    else
      var m := |index| - 1;
      AllocatedCells(index[..m]) + if index[m] == NOT_ALLOCATED then 0 else Pow2(index[m])
  }

  /** The blocks that the bitmaps show when they show exactly the largest free runs. */
  ghost function CanonicalSet(free: seq<bool>, levels: nat): (s: set<(nat, nat)>)
    ensures forall k: nat, o: nat :: (k, o) in s <==> k < levels && Canonical(free, k, o)
  {
    forall k: nat
      ensures Shr(|free|, k) <= |free|
    {
      ShrShrinks(|free|, k);
    }
    set k: nat, o: nat | k < levels && o < |free| && Canonical(free, k, o) :: (k, o)
  }

  // ----- one allocation, one release -----

  /** Recording a new block at a wholly free place keeps the blocks well placed and takes exactly that
      block out of the free cells. */
  lemma AllocateStep(index: seq<nat>, levels: nat, k: nat, o: nat)
    requires WellPlaced(index, levels) && levels <= NOT_ALLOCATED
    requires k < levels && o < Shr(|index|, k) && Whole(FreeMap(index), k, o)
    ensures First(k, o) < |index| && index[First(k, o)] == NOT_ALLOCATED
    ensures WellPlaced(index[First(k, o) := k], levels)
    ensures FreeMap(index[First(k, o) := k]) == Without(FreeMap(index), k, o)
  {
    var free, x := FreeMap(index), First(k, o);
    BlockInPool(|index|, k, o);
    ShrOfFirst(k, o);
    assert free[x];
    assert index[x] == NOT_ALLOCATED by {
      if index[x] != NOT_ALLOCATED {
        assert Covers(index, x, x);
      }
    }
    var next := index[x := k];
    forall y | 0 <= y < |index| && y != x
      ensures Apart(next, x, y) && Apart(next, y, x)
    {
      if index[y] != NOT_ALLOCATED {
        NewBlockApart(index, levels, k, o, y);
      }
    }
    forall y, z | 0 <= y < |index| && 0 <= z < |index| && y != z
      ensures Apart(next, y, z)
    {
      assert Apart(index, y, z);
    }
    forall y | 0 <= y < |index| && next[y] != NOT_ALLOCATED
      ensures BlockAt(next, levels, y)
    {
      assert y != x ==> BlockAt(index, levels, y);
    }
    forall c | 0 <= c < |index|
      ensures FreeMap(next)[c] == Without(free, k, o)[c]
    {
      assert Covers(next, x, c) <==> Shr(c, k) == o;
      forall y: nat | y != x
        ensures Covers(next, y, c) == Covers(index, y, c)
      {
      }
    }
  }

  /** A wholly free block is apart from every allocated one. */
  lemma NewBlockApart(index: seq<nat>, levels: nat, k: nat, o: nat, y: nat)
    requires WellPlaced(index, levels)
    requires o < Shr(|index|, k) && Whole(FreeMap(index), k, o)
    requires y < |index| && index[y] != NOT_ALLOCATED
    ensures !Inside(k, o, index[y], Shr(y, index[y])) && !Inside(index[y], Shr(y, index[y]), k, o)
  {
    var free, x, l, b := FreeMap(index), First(k, o), index[y], Shr(y, index[y]);
    BlockInPool(|index|, k, o);
    ShrOfFirst(k, o);
    assert BlockAt(index, levels, y);
    if Inside(k, o, l, b) {
      ShrAdd(x, k, l - k);
      assert free[x];
      assert Covers(index, y, x);
    }
    if Inside(l, b, k, o) {
      ShrAdd(y, l, k - l);
      assert free[y];
      assert Covers(index, y, y);
    }
  }

  /** Erasing a block makes exactly its cells free again. */
  lemma ReleaseStep(index: seq<nat>, levels: nat, x: nat)
    requires WellPlaced(index, levels) && x < |index| && index[x] != NOT_ALLOCATED
    ensures var k, o, next := index[x], Shr(x, index[x]), index[x := NOT_ALLOCATED];
            && WellPlaced(next, levels)
            && k < levels && o < Shr(|index|, k) && First(k, o) == x
            && Whole(FreeMap(next), k, o)
            && FreeMap(index) == Without(FreeMap(next), k, o)
  {
    var k, o, next := index[x], Shr(x, index[x]), index[x := NOT_ALLOCATED];
    assert BlockAt(index, levels, x);
    forall y | 0 <= y < |index| && next[y] != NOT_ALLOCATED
      ensures BlockAt(next, levels, y)
    {
      assert BlockAt(index, levels, y);
    }
    forall y, z | 0 <= y < |index| && 0 <= z < |index| && y != z
      ensures Apart(next, y, z)
    {
      assert Apart(index, y, z);
    }
    forall c | 0 <= c < |index|
      ensures Shr(c, k) == o ==> FreeMap(next)[c]
      ensures FreeMap(index)[c] == Without(FreeMap(next), k, o)[c]
    {
      forall y: nat | y != x
        ensures Covers(next, y, c) == Covers(index, y, c)
        ensures Covers(index, y, c) ==> Shr(c, k) != o
      {
        if Covers(index, y, c) && Shr(c, k) == o {
          assert Apart(index, x, y) && Apart(index, y, x);
          OverlapMeansInside(c, k, o, index[y], Shr(y, index[y]));
        }
      }
      assert Covers(index, x, c) <==> Shr(c, k) == o;
    }
  }

  lemma OverlapMeansInside(c: nat, k: nat, o: nat, l: nat, b: nat)
    requires Shr(c, k) == o && Shr(c, l) == b
    ensures Inside(k, o, l, b) || Inside(l, b, k, o)
  {
    if k <= l {
      ShrAdd(c, k, l - k);
    } else {
      ShrAdd(c, l, k - l);
    }
  }

  lemma {:induction false} AllocatedCellsUpdate(index: seq<nat>, x: nat, v: nat)
    requires x < |index|
    ensures var weight := (e: nat) => if e == NOT_ALLOCATED then 0 else Pow2(e);
            AllocatedCells(index[x := v]) == AllocatedCells(index) - weight(index[x]) + weight(v)
  {
    var m := |index| - 1;
    var next := index[x := v];
    if x == m {
      assert next[..m] == index[..m];
    } else {
      assert next[..m] == index[..m][x := v];
      AllocatedCellsUpdate(index[..m], x, v);
    }
  }

  lemma {:induction false} NothingAllocated(index: seq<nat>)
    requires forall x :: 0 <= x < |index| ==> index[x] == NOT_ALLOCATED
    ensures AllocatedCells(index) == 0
  {
    if index == [] {
    } else {
      NothingAllocated(index[..|index| - 1]);
    }
  }

  // ----- the partition of the pool -----

  ghost function FreeCells(free: seq<bool>): set<nat> {
    set c: nat | c < |free| && free[c]
  }

  predicate AtLeast(c: nat, lo: nat) {
    lo <= c
  }

  ghost function Interval(lo: nat, len: nat): set<nat> {
    set c: nat | c < lo + len && AtLeast(c, lo)
  }

  lemma {:induction false} IntervalSize(lo: nat, len: nat)
    ensures |Interval(lo, len)| == len
  {
    if len == 0 {
      assert Interval(lo, 0) == {};
    } else {
      IntervalSize(lo, len - 1);
      assert Interval(lo, len) == Interval(lo, len - 1) + {lo + len - 1};
    }
  }

  /** Taking a wholly free in-pool block of level `k` out leaves `2^k` fewer free cells. */
  lemma WithoutCount(free: seq<bool>, k: nat, o: nat)
    requires o < Shr(|free|, k) && Whole(free, k, o)
    ensures |FreeCells(free)| == |FreeCells(Without(free, k, o))| + Pow2(k)
  {
    var block := Interval(First(k, o), Pow2(k));
    BlockInPool(|free|, k, o);
    forall c: nat
      ensures c in block <==> Shr(c, k) == o
    {
      BlockIsInterval(c, k, o);
    }
    assert FreeCells(free) == FreeCells(Without(free, k, o)) + block;
    IntervalSize(First(k, o), Pow2(k));
  }

  /** The allocated blocks and the free cells share out the whole pool. */
  lemma {:induction false} CellsAddUp(index: seq<nat>, levels: nat)
    requires WellPlaced(index, levels)
    ensures AllocatedCells(index) + |FreeCells(FreeMap(index))| == |index|
    decreases AllocatedCells(index)
  {
    if x: nat :| x < |index| && index[x] != NOT_ALLOCATED {
      var next := index[x := NOT_ALLOCATED];
      ReleaseStep(index, levels, x);
      AllocatedCellsUpdate(index, x, NOT_ALLOCATED);
      CellsAddUp(next, levels);
      WithoutCount(FreeMap(next), index[x], Shr(x, index[x]));
    } else {
      NothingAllocated(index);
      assert FreeCells(FreeMap(index)) == Interval(0, |index|);
      IntervalSize(0, |index|);
    }
  }

  /** The bitmaps show the free block of level `k` that cell `c` is in. */
  ghost predicate ShownFree(index: seq<nat>, levels: nat, k: nat, c: nat) {
    (k, Shr(c, k)) in CanonicalSet(FreeMap(index), levels)
  }

  /** Every cell lies in exactly one block: one allocated block, or one block shown by the bitmaps. */
  lemma PoolIsPartitioned(index: seq<nat>, levels: nat, c: nat)
    requires WellPlaced(index, levels) && c < |index| && Shr(|index|, levels) == 0
    ensures (exists x :: Covers(index, x, c)) <==> !(exists k :: ShownFree(index, levels, k, c))
    ensures forall x, y :: Covers(index, x, c) && Covers(index, y, c) ==> x == y
    ensures forall i, j :: ShownFree(index, levels, i, c) && ShownFree(index, levels, j, c) ==> i == j
  {
    var free := FreeMap(index);
    if free[c] {
      assert Whole(free, 0, c);
      var i, b := CanonicalCover(free, 0, c, levels);
      assert ShownFree(index, levels, i, c);
    } else {
      forall k: nat
        ensures !ShownFree(index, levels, k, c)
      {
        assert !Whole(free, k, Shr(c, k));
      }
    }
    forall x: nat, y: nat | Covers(index, x, c) && Covers(index, y, c)
      ensures x == y
    {
      if x != y {
        assert Apart(index, x, y) && Apart(index, y, x);
        OverlapMeansInside(c, index[x], Shr(x, index[x]), index[y], Shr(y, index[y]));
      }
    }
    forall i: nat, j: nat | ShownFree(index, levels, i, c) && ShownFree(index, levels, j, c)
      ensures i == j
    {
      if i < j {
        CanonicalDisjoint(free, c, i, j);
      } else if j < i {
        CanonicalDisjoint(free, c, j, i);
      }
    }
  }

  // ----- the canonical set under splitting and merging -----

  lemma TakeFromSet(free: seq<bool>, levels: nat, i: nat, b: nat)
    requires (i, b) in CanonicalSet(free, levels)
    ensures CanonicalSet(Without(free, i, b), levels) == CanonicalSet(free, levels) - {(i, b)}
  {
    var less := CanonicalSet(Without(free, i, b), levels);
    forall k: nat, o: nat | k < levels && o < Shr(|free|, k)
      ensures (k, o) in less <==> (k, o) in CanonicalSet(free, levels) - {(i, b)}
    {
      TakeCanonical(free, i, b, k, o);
    }
    assert forall p :: p in less <==> p in CanonicalSet(free, levels) - {(i, b)};
  }

  lemma HoldHalfInSet(free: seq<bool>, levels: nat, k: nat, o: nat)
    requires k < levels && o / 2 < Shr(|free|, k + 1) && Whole(free, k + 1, o / 2)
    ensures CanonicalSet(Without(free, k, o), levels) ==
            CanonicalSet(Without(free, k + 1, o / 2), levels) + {(k, Buddy(o))}
  {
    var more := CanonicalSet(Without(free, k, o), levels);
    var sum := CanonicalSet(Without(free, k + 1, o / 2), levels) + {(k, Buddy(o))};
    HoldHalf(free, k, o, k, Buddy(o));
    forall j: nat, x: nat | j < levels && x < Shr(|free|, j)
      ensures (j, x) in more <==> (j, x) in sum
    {
      HoldHalf(free, k, o, j, x);
    }
    assert forall p :: p in more <==> p in sum;
  }

  /** The buddy of a held-out block shows in the bitmaps exactly when it is wholly free and in the pool. */
  lemma BuddyShows(free: seq<bool>, levels: nat, k: nat, o: nat)
    requires k < levels && o < Shr(|free|, k) && Whole(free, k, o)
    ensures (k, Buddy(o)) in CanonicalSet(Without(free, k, o), levels) <==>
            Buddy(o) < Shr(|free|, k) && Whole(free, k, Buddy(o))
  {
    var b := Buddy(o);
    if b < Shr(|free|, k) {
      WholeWithout(free, k, o, k, b);
      if Whole(free, k, b) {
        BuddiesMerge(free, k, o);
        HoldHalfInSet(free, levels, k, o);
      }
    }
  }

  /** When everything is free the canonical blocks are the binary decomposition of the pool size:
      the last block of each level whose block count is odd. */
  lemma AllFreeIsBinaryDecomposition(free: seq<bool>, levels: nat, k: nat, o: nat)
    requires forall c :: 0 <= c < |free| ==> free[c]
    ensures (k, o) in CanonicalSet(free, levels) <==>
            k < levels && Shr(|free|, k) % 2 == 1 && o == Shr(|free|, k) - 1
  {
    assert Whole(free, k, o) && Whole(free, k + 1, o / 2);
    assert Shr(|free|, k + 1) == Shr(|free|, k) / 2;
  }
}
