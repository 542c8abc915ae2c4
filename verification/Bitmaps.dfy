/** The bitmaps of all levels, read out of the one byte area that holds them. */
module Bitmaps {
  import opened BlockGeometry
  import opened BitBytes
  import opened MetadataLayout

  /** The byte that holds bit `o` of level `j`. */
  function BytePosition(n: nat, j: nat, o: nat): nat {
    Base(n, j) + o / 8
  }

  /** Bit `o` has room in the bitmap of level `j`; the last byte may have bits past the last block. */
  predicate HasRoom(n: nat, j: nat, o: nat) {
    j < LevelCount(n) && o < 8 * BitmapBytes(Shr(n, j))
  }

  lemma PositionInArea(n: nat, j: nat, o: nat)
    requires HasRoom(n, j, o)
    ensures BytePosition(n, j, o) < Base(n, j) + BitmapBytes(Shr(n, j)) <= Base(n, LevelCount(n))
  {
    BasesDisjoint(n, j, LevelCount(n));
  }

  ghost predicate BitIn(bytes: seq<bv8>, n: nat, j: nat, o: nat)
    requires |bytes| == Base(n, LevelCount(n)) && HasRoom(n, j, o)
  {
    PositionInArea(n, j, o);
    HasBit(bytes[BytePosition(n, j, o)], o % 8)
  }

  /** The flag of block `o` of level `j` is bit `o % 8`, counted from the low end, of byte `o / 8` of that level's
      bitmap. */
  lemma FlagIsAt(bytes: seq<bv8>, n: nat, j: nat, o: nat)
    requires |bytes| == Base(n, LevelCount(n)) && HasRoom(n, j, o)
    ensures Base(n, j) + o / 8 < |bytes|
    ensures var masks: seq<bv8> := [0x01, 0x02, 0x04, 0x08, 0x10, 0x20, 0x40, 0x80];
            BitIn(bytes, n, j, o) <==> bytes[Base(n, j) + o / 8] & masks[o % 8] != 0
  {
    PositionInArea(n, j, o);
  }

  /** The set bits, as pairs of level and offset. */
  ghost function Marked(bytes: seq<bv8>, n: nat): (s: set<(nat, nat)>)
    requires |bytes| == Base(n, LevelCount(n))
    ensures forall j: nat, o: nat :: (j, o) in s <==> HasRoom(n, j, o) && BitIn(bytes, n, j, o)
  {
    set j: nat, o: nat |
      j < LevelCount(n) && o < 8 * BitmapBytes(Shr(n, j)) && HasRoom(n, j, o) && BitIn(bytes, n, j, o) ::
      (j, o)
  }

  /** The set bits of one level. */
  ghost function LevelOf(marked: set<(nat, nat)>, j: nat): set<(nat, nat)> {
    set p | p in marked && p.0 == j
  }

  lemma SamePosition(n: nat, j: nat, o: nat, k: nat, x: nat)
    requires HasRoom(n, j, o) && HasRoom(n, k, x)
    ensures BytePosition(n, j, o) == BytePosition(n, k, x) && o % 8 == x % 8 <==> (j, o) == (k, x)
  {
    PositionInArea(n, j, o);
    PositionInArea(n, k, x);
    if j < k {
      BasesDisjoint(n, j, k);
    } else if k < j {
      BasesDisjoint(n, k, j);
    }
  }

  /** Storing a byte that differs in the one bit of `(j, o)` changes that bit and no other. */
  lemma UpdateBit(bytes: seq<bv8>, n: nat, j: nat, o: nat, v: bv8, flag: bool, k: nat, x: nat)
    requires |bytes| == Base(n, LevelCount(n)) && HasRoom(n, j, o) && HasRoom(n, k, x)
    requires BytePosition(n, j, o) < |bytes|
    requires DiffersInBit(bytes[BytePosition(n, j, o)], v, o % 8, flag)
    ensures BitIn(bytes[BytePosition(n, j, o) := v], n, k, x) ==
            if (k, x) == (j, o) then flag else BitIn(bytes, n, k, x)
  {
    PositionInArea(n, k, x);
    SamePosition(n, j, o, k, x);
  }

  /** `v` is `b` with bit `m` set to `flag`. */
  ghost predicate DiffersInBit(b: bv8, v: bv8, m: nat, flag: bool)
    requires m < 8
  {
    forall k :: 0 <= k < 8 ==> HasBit(v, k) == if k == m then flag else HasBit(b, k)
  }

  lemma MaskDiffers(b: bv8, m: nat)
    requires m < 8
    ensures DiffersInBit(b, b | Mask(m), m, true)
    ensures DiffersInBit(b, b & !Mask(m), m, false)
  {
    forall k | 0 <= k < 8
      ensures HasBit(b | Mask(m), k) == if k == m then true else HasBit(b, k)
      ensures HasBit(b & !Mask(m), k) == if k == m then false else HasBit(b, k)
    {
      SetBit(b, m, k);
      ClearBit(b, m, k);
    }
  }

  ghost function WithFlag(marked: set<(nat, nat)>, j: nat, o: nat, flag: bool): set<(nat, nat)> {
    if flag then marked + {(j, o)} else marked - {(j, o)}
  }

  lemma UpdateMarked(bytes: seq<bv8>, n: nat, j: nat, o: nat, v: bv8, flag: bool)
    requires |bytes| == Base(n, LevelCount(n)) && HasRoom(n, j, o)
    requires BytePosition(n, j, o) < |bytes|
    requires DiffersInBit(bytes[BytePosition(n, j, o)], v, o % 8, flag)
    ensures Marked(bytes[BytePosition(n, j, o) := v], n) == WithFlag(Marked(bytes, n), j, o, flag)
  {
    var next := bytes[BytePosition(n, j, o) := v];
    var goal := WithFlag(Marked(bytes, n), j, o, flag);
    forall k: nat, x: nat
      ensures (k, x) in Marked(next, n) <==> (k, x) in goal
    {
      if HasRoom(n, k, x) {
        UpdateBit(bytes, n, j, o, v, flag, k, x);
      }
    }
    assert forall q :: q in Marked(next, n) <==> q in goal;
  }

  lemma LevelCountStep(marked: set<(nat, nat)>, j: nat, o: nat, flag: bool, k: nat)
    ensures |LevelOf(WithFlag(marked, j, o, flag), k)| - |LevelOf(marked, k)| ==
            if k != j || flag == ((j, o) in marked) then 0 else if flag then 1 else -1
  {
    var next := WithFlag(marked, j, o, flag);
    if k != j || flag == ((j, o) in marked) {
      assert LevelOf(next, k) == LevelOf(marked, k);
    } else if flag {
      assert LevelOf(next, k) == LevelOf(marked, k) + {(j, o)};
    } else {
      assert LevelOf(marked, k) == LevelOf(next, k) + {(j, o)};
    }
  }

  /** Each counter is the number of set bits of its level. */
  ghost predicate CountsOf(counts: seq<nat>, marked: set<(nat, nat)>) {
    forall j :: 0 <= j < |counts| ==> counts[j] == |LevelOf(marked, j)|
  }

  lemma CountsStep(counts: seq<nat>, marked: set<(nat, nat)>, j: nat, o: nat, flag: bool)
    requires CountsOf(counts, marked) && j < |counts|
    ensures flag == ((j, o) in marked) ==> CountsOf(counts, WithFlag(marked, j, o, flag))
    ensures flag && (j, o) !in marked ==> CountsOf(counts[j := counts[j] + 1], WithFlag(marked, j, o, flag))
    ensures !flag && (j, o) in marked ==>
              counts[j] > 0 && CountsOf(counts[j := counts[j] - 1], WithFlag(marked, j, o, flag))
  {
    forall k | 0 <= k < |counts|
      ensures |LevelOf(WithFlag(marked, j, o, flag), k)| - counts[k] ==
              if k != j || flag == ((j, o) in marked) then 0 else if flag then 1 else -1
    {
      LevelCountStep(marked, j, o, flag, k);
    }
    if (j, o) in marked {
      assert (j, o) in LevelOf(marked, j);
    }
  }

  lemma EmptyLevel(counts: seq<nat>, marked: set<(nat, nat)>, j: nat)
    requires CountsOf(counts, marked) && j < |counts| && counts[j] == 0
    ensures forall o: nat :: (j, o) !in marked
  {
    forall o: nat
      ensures (j, o) !in marked
    {
      assert (j, o) !in LevelOf(marked, j);
    }
  }

  lemma BitOfByte(bytes: seq<bv8>, n: nat, j: nat, q: nat, k: nat)
    requires |bytes| == Base(n, LevelCount(n)) && j < LevelCount(n) && q < BitmapBytes(Shr(n, j)) && k < 8
    ensures Base(n, j) + q < |bytes|
    ensures (j, 8 * q + k) in Marked(bytes, n) <==> HasBit(bytes[Base(n, j) + q], k)
  {
    assert HasRoom(n, j, 8 * q + k) && BytePosition(n, j, 8 * q + k) == Base(n, j) + q;
    PositionInArea(n, j, 8 * q + k);
    assert (8 * q + k) % 8 == k;
  }

  /** The eight bytes from byte `first` of the bitmap of level `j`, read as one word, are zero. */
  predicate WordIsZero(bytes: seq<bv8>, p: nat)
    requires p + 8 <= |bytes|
  {
    forall q :: p <= q < p + 8 ==> bytes[q] == 0
  }

  lemma ZeroWord(bytes: seq<bv8>, n: nat, j: nat, first: nat, o: nat)
    requires |bytes| == Base(n, LevelCount(n)) && j < LevelCount(n)
    requires first + 8 <= BitmapBytes(Shr(n, j)) && Base(n, j) + first + 8 <= |bytes|
    requires WordIsZero(bytes, Base(n, j) + first) && 8 * first <= o < 8 * first + 64
    ensures (j, o) !in Marked(bytes, n)
  {
    var q, k := o / 8, o % 8;
    BitOfByte(bytes, n, j, q, k);
    ZeroByte(bytes[Base(n, j) + q], k);
  }

  lemma NonzeroWord(bytes: seq<bv8>, n: nat, j: nat, first: nat) returns (o: nat)
    requires |bytes| == Base(n, LevelCount(n)) && j < LevelCount(n)
    requires first + 8 <= BitmapBytes(Shr(n, j)) && Base(n, j) + first + 8 <= |bytes|
    requires !WordIsZero(bytes, Base(n, j) + first)
    ensures 8 * first <= o < 8 * first + 64 && (j, o) in Marked(bytes, n)
  {
    hide Base, LevelCount, Shr, HasBit, Marked, WordIsZero;
    var p := NonzeroAmong(bytes, Base(n, j) + first);
    var q := p - Base(n, j);
    var k := NonzeroByte(bytes[p]);
    BitOfByte(bytes, n, j, q, k);
    o := 8 * q + k;
  }

  lemma NonzeroAmong(bytes: seq<bv8>, lo: nat) returns (p: nat)
    requires lo + 8 <= |bytes| && !WordIsZero(bytes, lo)
    ensures lo <= p < lo + 8 && bytes[p] != 0
  {
    p :| lo <= p < lo + 8 && bytes[p] != 0;
  }

  /** Every byte of the area belongs to the bitmap of some level. */
  lemma {:induction false} LevelOfByte(n: nat, top: nat, p: nat) returns (j: nat)
    requires p < Base(n, top)
    ensures j < top && Base(n, j) <= p < Base(n, j) + BitmapBytes(Shr(n, j))
  {
    if Base(n, top - 1) <= p {
      j := top - 1;
    } else {
      j := LevelOfByte(n, top - 1, p);
    }
  }

  /** The set bits determine every byte of the area, unused trailing bits included. */
  lemma MarkedDetermines(a: seq<bv8>, b: seq<bv8>, n: nat)
    requires |a| == |b| == Base(n, LevelCount(n)) && Marked(a, n) == Marked(b, n)
    ensures a == b
  {
    forall p | 0 <= p < |a|
      ensures a[p] == b[p]
    {
      var j := LevelOfByte(n, LevelCount(n), p);
      var q := p - Base(n, j);
      forall k | 0 <= k < 8
        ensures HasBit(a[p], k) == HasBit(b[p], k)
      {
        var o := 8 * q + k;
        assert HasRoom(n, j, o) && BytePosition(n, j, o) == p && o % 8 == k;
        assert BitIn(a, n, j, o) == ((j, o) in Marked(a, n));
        assert BitIn(b, n, j, o) == ((j, o) in Marked(b, n));
      }
      SameBits(a[p], b[p]);
    }
  }
}
