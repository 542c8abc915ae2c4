/** The geometry of a buddy pool whose size need not be a power of two.

    The pool is a row of `n` smallest blocks, called cells.  Block `o` of level `k` is the run of
    cells `c` with `Shr(c, k) == o`; it lies in the pool exactly when `o < Shr(n, k)`.  A map of free
    cells determines one canonical set of free blocks, the largest aligned in-pool runs of free
    cells, and the lemmas here say how that set changes when one block is taken out or put back. */
module BlockGeometry {

  function Pow2(k: nat): (p: nat)
    ensures p >= 1
  {
    if k == 0 then 1 else 2 * Pow2(k - 1)
  }

  /** `n >> k`. */
  function Shr(n: nat, k: nat): nat {
    if k == 0 then n else Shr(n, k - 1) / 2
  }

  /** The first cell of block `o` of level `k`. */
  function First(k: nat, o: nat): nat {
    if k == 0 then o else First(k - 1, 2 * o)
  }

  /** Every cell of block `o` of level `k` is free. */
  ghost predicate Whole(free: seq<bool>, k: nat, o: nat) {
    forall c :: 0 <= c < |free| && Shr(c, k) == o ==> free[c]
  }

  /** Block `o` of level `k` is a largest aligned in-pool run of free cells. */
  ghost predicate Canonical(free: seq<bool>, k: nat, o: nat) {
    && o < Shr(|free|, k)
    && Whole(free, k, o)
    && !(o / 2 < Shr(|free|, k + 1) && Whole(free, k + 1, o / 2))
  }

  /** The free cells once block `o` of level `k` is taken out. */
  ghost function Without(free: seq<bool>, k: nat, o: nat): (r: seq<bool>)
    ensures |r| == |free|
  {
    seq(|free|, c requires 0 <= c < |free| => free[c] && Shr(c, k) != o)
  }

  /** Block `(j, o)` lies inside block `(i, b)`. */
  ghost predicate Inside(j: nat, o: nat, i: nat, b: nat) {
    j <= i && Shr(o, i - j) == b
  }

  /** The other half of the block of the next level. */
  function Buddy(o: nat): nat {
    if o % 2 == 0 then o + 1 else o - 1
  }

  // ----- shifts -----

  lemma {:induction false} ShrAdd(n: nat, j: nat, d: nat)
    ensures Shr(n, j + d) == Shr(Shr(n, j), d)
  {
    if d == 0 {
    } else {
      ShrAdd(n, j, d - 1);
    }
  }

  lemma {:induction false} ShrMonotone(m: nat, n: nat, k: nat)
    requires m <= n
    ensures Shr(m, k) <= Shr(n, k)
  {
    if k == 0 {
    } else {
      ShrMonotone(m, n, k - 1);
    }
  }

  lemma {:induction false} ShrShrinks(n: nat, k: nat)
    ensures Shr(n, k) <= n
  {
    if k == 0 {
    } else {
      ShrShrinks(n, k - 1);
    }
  }

  lemma {:induction false} ShrBounds(n: nat, k: nat)
    ensures Shr(n, k) * Pow2(k) <= n < (Shr(n, k) + 1) * Pow2(k)
  {
    if k == 0 {
    } else {
      ShrBounds(n, k - 1);
      HalveBounds(n, Shr(n, k - 1), Pow2(k - 1));
    }
  }

  lemma HalveBounds(n: nat, q: nat, p: nat)
    requires q * p <= n < (q + 1) * p
    ensures (q / 2) * (2 * p) <= n < (q / 2 + 1) * (2 * p)
  {
    var h := q / 2;
    MulMonotone(2 * h, q, p);
    MulMonotone(q + 1, 2 * h + 2, p);
    assert h * (2 * p) == (2 * h) * p;
    assert (h + 1) * (2 * p) == (2 * h + 2) * p;
  }

  lemma MulMonotone(a: nat, b: nat, p: nat)
    requires a <= b
    ensures a * p <= b * p
  {
  }

  lemma {:induction false} FirstIsMultiple(k: nat, o: nat)
    ensures First(k, o) == o * Pow2(k)
  {
    if k == 0 {
    } else {
      FirstIsMultiple(k - 1, 2 * o);
    }
  }

  lemma {:induction false} ShrOfFirst(k: nat, o: nat)
    ensures Shr(First(k, o), k) == o
  {
    if k == 0 {
    } else {
      ShrOfFirst(k - 1, 2 * o);
    }
  }

  /** A block is the interval of cells from its first cell up to the first cell of the next block. */
  lemma BlockIsInterval(c: nat, k: nat, o: nat)
    ensures Shr(c, k) == o <==> First(k, o) <= c < First(k, o) + Pow2(k)
  {
    ShrBounds(c, k);
    FirstIsMultiple(k, o);
    var q := Shr(c, k);
    if q < o {
      MulMonotone(q + 1, o, Pow2(k));
    } else if o < q {
      MulMonotone(o + 1, q, Pow2(k));
    }
    assert (o + 1) * Pow2(k) == o * Pow2(k) + Pow2(k);
    assert (q + 1) * Pow2(k) == q * Pow2(k) + Pow2(k);
  }

  /** An in-pool block has all of its cells in the pool, and has at least one. */
  lemma BlockInPool(n: nat, k: nat, o: nat)
    ensures o < Shr(n, k) <==> First(k, o) + Pow2(k) <= n
    ensures o < Shr(n, k) ==> First(k, o) < n
  {
    ShrBounds(n, k);
    FirstIsMultiple(k, o);
    assert (o + 1) * Pow2(k) == o * Pow2(k) + Pow2(k);
    if o < Shr(n, k) {
      MulMonotone(o + 1, Shr(n, k), Pow2(k));
    } else {
      MulMonotone(Shr(n, k) + 1, o + 1, Pow2(k));
    }
  }

  lemma {:induction false} Pow2Monotone(j: nat, k: nat)
    requires j <= k
    ensures Pow2(j) <= Pow2(k)
  {
    if j >= k {
    } else {
      Pow2Monotone(j, k - 1);
    }
  }

  // ----- nesting -----

  lemma WholeInside(free: seq<bool>, j: nat, o: nat, i: nat, b: nat)
    requires Inside(j, o, i, b) && Whole(free, i, b)
    ensures Whole(free, j, o)
  {
    forall c | 0 <= c < |free| && Shr(c, j) == o
      ensures free[c]
    {
      ShrAdd(c, j, i - j);
    }
  }

  lemma InPoolInside(n: nat, j: nat, o: nat, i: nat, b: nat)
    requires Inside(j, o, i, b) && b < Shr(n, i)
    ensures o < Shr(n, j)
  {
    ShrAdd(n, j, i - j);
    if Shr(n, j) <= o {
      ShrMonotone(Shr(n, j), o, i - j);
    }
  }

  lemma ParentContains(j: nat, o: nat)
    ensures Inside(j, o, j + 1, o / 2)
  {
    assert Shr(o, 1) == Shr(o, 0) / 2;
  }

  /** A block strictly inside `(i, b)` has its parent inside `(i, b)` too. */
  lemma ParentInside(j: nat, o: nat, i: nat, b: nat)
    requires Inside(j, o, i, b) && j < i
    ensures Inside(j + 1, o / 2, i, b)
  {
    ShrAdd(o, 1, i - j - 1);
    assert Shr(o, 1) == Shr(o, 0) / 2;
  }

  /** What taking out `(i, b)` does to the wholeness of another in-pool block. */
  lemma WholeWithout(free: seq<bool>, i: nat, b: nat, j: nat, o: nat)
    requires b < Shr(|free|, i) && o < Shr(|free|, j)
    ensures Inside(j, o, i, b) || Inside(i, b, j, o) ==> !Whole(Without(free, i, b), j, o)
    ensures !Inside(j, o, i, b) && !Inside(i, b, j, o) ==>
              Whole(Without(free, i, b), j, o) == Whole(free, j, o)
  {
    var r := Without(free, i, b);
    if Inside(j, o, i, b) {
      var c := First(j, o);
      BlockInPool(|free|, j, o);
      ShrOfFirst(j, o);
      ShrAdd(c, j, i - j);
      assert !r[c];
    } else if Inside(i, b, j, o) {
      var c := First(i, b);
      BlockInPool(|free|, i, b);
      ShrOfFirst(i, b);
      ShrAdd(c, i, j - i);
      assert !r[c];
    } else {
      forall c | 0 <= c < |free| && Shr(c, j) == o
        ensures Shr(c, i) != b
      {
        if j <= i {
          ShrAdd(c, j, i - j);
        } else {
          ShrAdd(c, i, j - i);
        }
      }
      if Whole(r, j, o) {
        forall c | 0 <= c < |free| && Shr(c, j) == o
          ensures free[c]
        {
          assert r[c];
        }
      }
    }
  }

  /** No in-pool whole block properly contains a canonical one. */
  lemma CanonicalIsLargest(free: seq<bool>, i: nat, b: nat, j: nat, o: nat)
    requires Canonical(free, i, b) && Inside(i, b, j, o) && i < j && o < Shr(|free|, j)
    ensures !Whole(free, j, o)
  {
    if Whole(free, j, o) {
      ParentInside(i, b, j, o);
      WholeInside(free, i + 1, b / 2, j, o);
      InPoolInside(|free|, i + 1, b / 2, j, o);
    }
  }

  /** Taking a canonical block out removes that block from the canonical set and changes nothing else. */
  lemma TakeCanonical(free: seq<bool>, i: nat, b: nat, j: nat, o: nat)
    requires Canonical(free, i, b) && o < Shr(|free|, j)
    ensures Canonical(Without(free, i, b), j, o) <==> Canonical(free, j, o) && (j, o) != (i, b)
  {
    var r := Without(free, i, b);
    var inPool := o / 2 < Shr(|free|, j + 1);
    WholeWithout(free, i, b, j, o);
    if Inside(j, o, i, b) {
      if j < i {
        ParentInside(j, o, i, b);
        WholeInside(free, j + 1, o / 2, i, b);
        InPoolInside(|free|, j + 1, o / 2, i, b);
        assert !Canonical(free, j, o);
      }
    } else if Inside(i, b, j, o) {
      CanonicalIsLargest(free, i, b, j, o);
    } else if inPool {
      WholeWithout(free, i, b, j + 1, o / 2);
      ParentContains(j, o);
      if Inside(j + 1, o / 2, i, b) {
        ShrAdd(o, 1, i - j - 1);
        assert false;
      } else if Inside(i, b, j + 1, o / 2) {
        CanonicalIsLargest(free, i, b, j + 1, o / 2);
      }
    }
  }

  /** Splitting: holding out one half of a whole block instead of the whole block adds exactly the
      other half to the canonical set. */
  lemma HoldHalf(free: seq<bool>, k: nat, o: nat, j: nat, x: nat)
    requires o / 2 < Shr(|free|, k + 1) && Whole(free, k + 1, o / 2)
    requires x < Shr(|free|, j)
    ensures Buddy(o) < Shr(|free|, k)
    ensures Canonical(Without(free, k, o), j, x) <==>
            Canonical(Without(free, k + 1, o / 2), j, x) || (j, x) == (k, Buddy(o))
  {
    var b := Buddy(o);
    var g := Without(free, k, o);
    ParentContains(k, o);
    ParentContains(k, b);
    InPoolInside(|free|, k, o, k + 1, o / 2);
    InPoolInside(|free|, k, b, k + 1, o / 2);
    WholeInside(free, k, b, k + 1, o / 2);
    WholeWithout(free, k, o, k, b);
    WholeWithout(free, k, o, k + 1, o / 2);
    assert Canonical(g, k, b);
    TakeCanonical(g, k, b, j, x);
    HalvesMakeParent(free, k, o);
  }

  lemma HalvesMakeParent(free: seq<bool>, k: nat, o: nat)
    ensures Without(Without(free, k, o), k, Buddy(o)) == Without(free, k + 1, o / 2)
  {
    forall c | 0 <= c < |free|
      ensures Shr(c, k + 1) == o / 2 <==> Shr(c, k) == o || Shr(c, k) == Buddy(o)
    {
    }
  }

  /** A whole block whose buddy is not whole, or not in the pool, is canonical. */
  lemma LoneHalfIsCanonical(free: seq<bool>, k: nat, o: nat)
    requires o < Shr(|free|, k) && Whole(free, k, o)
    requires !(Buddy(o) < Shr(|free|, k) && Whole(free, k, Buddy(o)))
    ensures Canonical(free, k, o)
  {
    var b := Buddy(o);
    if o / 2 < Shr(|free|, k + 1) && Whole(free, k + 1, o / 2) {
      ParentContains(k, b);
      InPoolInside(|free|, k, b, k + 1, o / 2);
      WholeInside(free, k, b, k + 1, o / 2);
    }
  }

  /** Merging: two whole in-pool buddies are a whole in-pool block of the next level. */
  lemma BuddiesMerge(free: seq<bool>, k: nat, o: nat)
    requires o < Shr(|free|, k) && Whole(free, k, o)
    requires Buddy(o) < Shr(|free|, k) && Whole(free, k, Buddy(o))
    ensures o / 2 < Shr(|free|, k + 1) && Whole(free, k + 1, o / 2)
  {
    forall c | 0 <= c < |free| && Shr(c, k + 1) == o / 2
      ensures free[c]
    {
      assert Shr(c, k) == o || Shr(c, k) == Buddy(o);
    }
  }

  /** Every whole in-pool block lies inside a canonical one. */
  lemma {:induction false} CanonicalCover(free: seq<bool>, k: nat, o: nat, top: nat) returns (i: nat, b: nat)
    requires o < Shr(|free|, k) && Whole(free, k, o)
    requires Shr(|free|, top) == 0 && k <= top
    ensures k <= i < top && Inside(k, o, i, b) && Canonical(free, i, b)
    decreases top - k
  {
    if Canonical(free, k, o) {
      return k, o;
    }
    if k + 1 > top {
      assert false;
    }
    i, b := CanonicalCover(free, k + 1, o / 2, top);
    ShrAdd(o, 1, i - k - 1);
    assert Shr(o, 1) == Shr(o, 0) / 2;
  }

  /** Two canonical blocks of different levels share no cell. */
  lemma CanonicalDisjoint(free: seq<bool>, c: nat, i: nat, j: nat)
    requires i < j
    ensures !(Canonical(free, i, Shr(c, i)) && Canonical(free, j, Shr(c, j)))
  {
    if Canonical(free, i, Shr(c, i)) && Canonical(free, j, Shr(c, j)) {
      ShrAdd(c, i, j - i);
      CanonicalIsLargest(free, i, Shr(c, i), j, Shr(c, j));
    }
  }

  /** No two buddies are both canonical. */
  lemma NoCanonicalBuddies(free: seq<bool>, k: nat, o: nat)
    ensures !(Canonical(free, k, o) && Canonical(free, k, Buddy(o)))
  {
    if Canonical(free, k, o) && Canonical(free, k, Buddy(o)) {
      BuddiesMerge(free, k, o);
    }
  }
}
