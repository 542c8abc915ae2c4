/** The bytes of a file, read out of the clusters of its chain, and what one cluster write does to them. */
module FileContent {
  import opened CacheTable
  import opened CachedArea
  import opened LinkTable
  import opened Sequences

  /** The clusters of the chain exist and have the cluster size. */
  ghost predicate Holds(data: seq<Block>, chain: seq<nat>) {
    Sized(data, CLUSTER_SIZE) && forall i :: 0 <= i < |chain| ==> chain[i] < |data|
  }

  ghost function ByteAt(data: seq<Block>, chain: seq<nat>, k: nat): byte
    requires Holds(data, chain) && k < CLUSTER_SIZE * |chain|
  {
    data[chain[k / CLUSTER_SIZE]][k % CLUSTER_SIZE]
  }

  ghost function FileBytes(data: seq<Block>, chain: seq<nat>, size: nat): (r: seq<byte>)
    requires Holds(data, chain) && size <= CLUSTER_SIZE * |chain|
    ensures |r| == size
    ensures forall k :: 0 <= k < size ==> r[k] == ByteAt(data, chain, k)
  {
    seq(size, k requires 0 <= k < size => ByteAt(data, chain, k))
  }

  function ZeroBlock(size: nat): (b: Block)
    ensures |b| == size && forall i :: 0 <= i < size ==> b[i] == 0
  {
    seq(size, _ => 0)
  }

  /** `was` with `d` written over it from `offset` on, growing at the end if need be. */
  function Overwrite(was: seq<byte>, offset: nat, d: seq<byte>): (r: seq<byte>)
    requires offset <= |was|
    ensures |r| == if |was| < offset + |d| then offset + |d| else |was|
    ensures forall k :: 0 <= k < |r| ==> r[k] == if offset <= k < offset + |d| then d[k - offset] else was[k]
  {
    was[..offset] + d + if offset + |d| < |was| then was[offset + |d|..] else []
  }

  lemma OverwriteTwice(was: seq<byte>, offset: nat, d: seq<byte>, e: seq<byte>)
    requires offset <= |was|
    ensures Overwrite(Overwrite(was, offset, d), offset + |d|, e) == Overwrite(was, offset, d + e)
  {
  }

  /** A piece of the file that lies in one cluster. */
  lemma ReadPiece(data: seq<Block>, chain: seq<nat>, size: nat, offset: nat, n: nat)
    requires Holds(data, chain) && size <= CLUSTER_SIZE * |chain| && offset + n <= size && 0 < n
    requires offset % CLUSTER_SIZE + n <= CLUSTER_SIZE
    ensures offset / CLUSTER_SIZE < |chain|
    ensures FileBytes(data, chain, size)[offset..offset + n] ==
            data[chain[offset / CLUSTER_SIZE]][offset % CLUSTER_SIZE..offset % CLUSTER_SIZE + n]
  {
    var piece := FileBytes(data, chain, size)[offset..offset + n];
    var cluster := data[chain[offset / CLUSTER_SIZE]][offset % CLUSTER_SIZE..offset % CLUSTER_SIZE + n];
    forall k | 0 <= k < n
      ensures piece[k] == cluster[k]
    {
      SameCluster(offset, k);
    }
  }

  lemma SameCluster(offset: nat, k: nat)
    requires offset % CLUSTER_SIZE + k < CLUSTER_SIZE
    ensures (offset + k) / CLUSTER_SIZE == offset / CLUSTER_SIZE
    ensures (offset + k) % CLUSTER_SIZE == offset % CLUSTER_SIZE + k
  {
  }

  /** The new content `b` of the cluster under `offset` carries `piece` and keeps the old bytes of the file. */
  ghost predicate Patches(was: Block, b: Block, offset: nat, piece: seq<byte>, size: nat)
    requires |was| == CLUSTER_SIZE && |b| == CLUSTER_SIZE && offset % CLUSTER_SIZE + |piece| <= CLUSTER_SIZE
  {
    var o := offset % CLUSTER_SIZE;
    && b[o..o + |piece|] == piece
    && (forall p :: 0 <= p < CLUSTER_SIZE && !(o <= p < o + |piece|) && offset - o + p < size ==> b[p] == was[p])
  }

  /** Writing that content overwrites exactly the piece in the file. */
  lemma WritePiece(data: seq<Block>, chain: seq<nat>, size: nat, offset: nat, piece: seq<byte>, b: Block)
    requires Holds(data, chain) && Distinct(chain) && size <= CLUSTER_SIZE * |chain| && offset <= size
    requires 0 < |piece| && offset % CLUSTER_SIZE + |piece| <= CLUSTER_SIZE
    requires offset / CLUSTER_SIZE < |chain| && |b| == CLUSTER_SIZE
    requires Patches(data[chain[offset / CLUSTER_SIZE]], b, offset, piece, size)
    ensures var i, now := offset / CLUSTER_SIZE, if size < offset + |piece| then offset + |piece| else size;
            && now <= CLUSTER_SIZE * |chain|
            && Holds(data[chain[i] := b], chain)
            && FileBytes(data[chain[i] := b], chain, now) == Overwrite(FileBytes(data, chain, size), offset, piece)
  {
    var i, now := offset / CLUSTER_SIZE, if size < offset + |piece| then offset + |piece| else size;
    var next := data[chain[i] := b];
    forall k | 0 <= k < now
      ensures ByteAt(next, chain, k) == Overwrite(FileBytes(data, chain, size), offset, piece)[k]
    {
      PieceByte(data, chain, size, offset, piece, b, k);
    }
  }

  lemma PieceByte(data: seq<Block>, chain: seq<nat>, size: nat, offset: nat, piece: seq<byte>, b: Block, k: nat)
    requires Holds(data, chain) && Distinct(chain) && size <= CLUSTER_SIZE * |chain| && offset <= size
    requires 0 < |piece| && offset % CLUSTER_SIZE + |piece| <= CLUSTER_SIZE
    requires offset / CLUSTER_SIZE < |chain| && |b| == CLUSTER_SIZE
    requires Patches(data[chain[offset / CLUSTER_SIZE]], b, offset, piece, size)
    requires k < size || k < offset + |piece|
    ensures k < CLUSTER_SIZE * |chain|
    ensures Holds(data[chain[offset / CLUSTER_SIZE] := b], chain)
    ensures ByteAt(data[chain[offset / CLUSTER_SIZE] := b], chain, k) ==
            if offset <= k < offset + |piece| then piece[k - offset] else ByteAt(data, chain, k)
  {
    var i, o := offset / CLUSTER_SIZE, offset % CLUSTER_SIZE;
    if k / CLUSTER_SIZE == i {
      var p := k % CLUSTER_SIZE;
      assert offset - o + p == k;
      if o <= p < o + |piece| {
        assert b[o..o + |piece|][p - o] == b[p];
      }
    } else {
      assert k < size && !(offset <= k < offset + |piece|);
      assert chain[k / CLUSTER_SIZE] != chain[i];
    }
  }

  /** Another cluster at the end of the chain does not change the bytes before it. */
  lemma LongerChain(data: seq<Block>, chain: seq<nat>, c: nat, size: nat)
    requires Holds(data, chain) && size <= CLUSTER_SIZE * |chain| && c < |data|
    ensures Holds(data, chain + [c])
    ensures FileBytes(data, chain + [c], size) == FileBytes(data, chain, size)
  {
    forall k | 0 <= k < size
      ensures ByteAt(data, chain + [c], k) == ByteAt(data, chain, k)
    {
      assert (chain + [c])[k / CLUSTER_SIZE] == chain[k / CLUSTER_SIZE];
    }
  }

  /** Writes off the chain do not change the file. */
  lemma OtherFileSame(data: seq<Block>, next: seq<Block>, chain: seq<nat>, size: nat)
    requires Holds(data, chain) && size <= CLUSTER_SIZE * |chain|
    requires |next| == |data| && Sized(next, CLUSTER_SIZE)
    requires forall i :: 0 <= i < |chain| ==> next[chain[i]] == data[chain[i]]
    ensures FileBytes(next, chain, size) == FileBytes(data, chain, size)
  {
    forall k | 0 <= k < size
      ensures ByteAt(next, chain, k) == ByteAt(data, chain, k)
    {
      var i := k / CLUSTER_SIZE;
      assert next[chain[i]] == data[chain[i]];
    }
  }

  // ----- the cursor of a file handle -----

  /** The cluster under `offset`: the mark for the last cluster once the offset is past the chain. */
  function ClusterUnder(chain: seq<nat>, offset: nat): nat
    requires offset / CLUSTER_SIZE <= |chain|
  {
    if offset / CLUSTER_SIZE < |chain| then chain[offset / CLUSTER_SIZE] else LAST_CLUSTER
  }

  /** The cluster before the one under `offset`: the first cluster if there is none. */
  function ClusterBefore(chain: seq<nat>, offset: nat): nat
    requires 0 < |chain| && offset / CLUSTER_SIZE <= |chain|
  {
    if offset < CLUSTER_SIZE then chain[0] else chain[offset / CLUSTER_SIZE - 1]
  }

  /** An offset within the file lies on the chain or just behind it, the latter only at the very end. */
  lemma OffsetOnChain(chain: seq<nat>, size: nat, offset: nat)
    requires |chain| == ClusterCount(size) && offset <= size
    ensures offset / CLUSTER_SIZE <= |chain| && size <= CLUSTER_SIZE * |chain|
    ensures offset / CLUSTER_SIZE == |chain| ==> offset == size == CLUSTER_SIZE * |chain|
  {
  }
}
