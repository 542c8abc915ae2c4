/** The file system on values: what reading, writing, growing and shrinking one file does to the links,
    the clusters and the chains, and that every other file keeps its chain and its bytes. */
module FileSteps {
  import opened CacheTable
  import opened CachedArea
  import opened LinkTable
  import opened FileContent
  import opened Sequences

  /** The links, the clusters, and the chain of each directory entry. */
  datatype View = View(links: seq<nat>, clusters: seq<Block>, chains: seq<seq<nat>>)

  ghost predicate Sound(v: View, total: nat, starts: seq<nat>, sizes: seq<nat>) {
    && WellFormed(v.links, total, starts, sizes, v.chains)
    && Sized(v.clusters, CLUSTER_SIZE) && total <= |v.clusters|
  }

  /** The first `size` bytes of the file of entry `e`. */
  ghost function FileOf(v: View, e: nat, size: nat): (r: seq<byte>)
    requires e < |v.chains| && Holds(v.clusters, v.chains[e]) && size <= CLUSTER_SIZE * |v.chains[e]|
    ensures |r| == size
  {
    FileBytes(v.clusters, v.chains[e], size)
  }

  /** The same, for any entry and size: nothing where there is no such file. */
  ghost function ContentOf(v: View, e: nat, size: nat): (r: seq<byte>) {
    if e < |v.chains| && Holds(v.clusters, v.chains[e]) && size <= CLUSTER_SIZE * |v.chains[e]| then FileOf(v, e, size)
    else []
  }

  /** The clusters the file of entry `e` can come to have: its own and the free ones among the first `end`. */
  ghost function Reach(v: View, e: nat, end: nat): nat {
    if e < |v.chains| then |v.chains[e]| + FreeCount(v.links, end) else 0
  }

  /** Only the file of entry `e` has changed, its chain perhaps having grown. */
  ghost predicate OnlyFile(v: View, w: View, e: nat) {
    && |v.chains| == |w.chains| && e < |v.chains| && |v.clusters| == |w.clusters|
    && w.chains == v.chains[e := w.chains[e]]
    && (forall c :: 0 <= c < |v.clusters| && c !in w.chains[e] ==> w.clusters[c] == v.clusters[c])
  }

  /** A live entry's chain lies in existing clusters and has room for the file. */
  lemma SoundHolds(v: View, total: nat, starts: seq<nat>, sizes: seq<nat>, e: nat)
    requires Sound(v, total, starts, sizes) && e < ENTRY_COUNT && starts[e] != 0
    ensures |v.chains| == ENTRY_COUNT && IsChain(v.links, total, v.chains[e]) && v.chains[e][0] == starts[e]
    ensures |v.chains[e]| == ClusterCount(sizes[e])
    ensures Holds(v.clusters, v.chains[e]) && sizes[e] <= CLUSTER_SIZE * |v.chains[e]|
    ensures 0 !in v.chains[e]
  {
    assert EntryChain(v.links, total, starts[e], sizes[e], v.chains[e]);
    OffsetOnChain(v.chains[e], sizes[e], 0);
  }

  lemma SoundWell(v: View, total: nat, starts: seq<nat>, sizes: seq<nat>)
    requires Sound(v, total, starts, sizes)
    ensures WellFormed(v.links, total, starts, sizes, v.chains) && total <= |v.links|
  {
  }

  /** One byte more than fits into so many clusters needs another cluster. */
  lemma ExtendedCount(n: nat)
    ensures n > 0 ==> ClusterCount(CLUSTER_SIZE * n) == n && ClusterCount(CLUSTER_SIZE * n + 1) == n + 1
  {
  }

  lemma SoundApart(v: View, total: nat, starts: seq<nat>, sizes: seq<nat>, e: nat, f: nat)
    requires Sound(v, total, starts, sizes) && e < ENTRY_COUNT && f < ENTRY_COUNT && e != f
    ensures Apart(v.chains[e], v.chains[f])
  {
  }

  /** The bytes of every other file are untouched. */
  lemma OtherFilesSame(v: View, w: View, total: nat, starts: seq<nat>, sizes: seq<nat>, news: seq<nat>, e: nat, f: nat)
    requires Sound(v, total, starts, sizes) && Sound(w, total, starts, news) && OnlyFile(v, w, e)
    requires e < ENTRY_COUNT && f < ENTRY_COUNT && f != e && starts[f] != 0 && news[f] == sizes[f]
    ensures w.chains[f] == v.chains[f]
    ensures Holds(v.clusters, v.chains[f]) && Holds(w.clusters, w.chains[f])
    ensures sizes[f] <= CLUSTER_SIZE * |v.chains[f]|
    ensures FileOf(w, f, sizes[f]) == FileOf(v, f, sizes[f])
  {
    SoundHolds(v, total, starts, sizes, f);
    SoundHolds(w, total, starts, news, f);
    SoundApart(w, total, starts, news, f, e);
    OtherFileSame(v.clusters, w.clusters, v.chains[f], sizes[f]);
  }

  /** In the middle of a write: from `v` to `w` the bytes `d` have been written over the file of `e` from
      `offset` on, and nothing else has changed.  The chain suits a file of `room` bytes. */
  ghost predicate Written(v: View, w: View, total: nat, starts: seq<nat>, sizes: seq<nat>, e: nat,
                          offset: nat, d: seq<byte>, room: nat) {
    && e < ENTRY_COUNT && |starts| == |sizes| == ENTRY_COUNT && starts[e] != 0 && offset <= sizes[e]
    && Larger(sizes[e], offset + |d|) <= room
    && Sound(v, total, starts, sizes) && Sound(w, total, starts, sizes[e := room]) && OnlyFile(v, w, e)
    && WrittenBytes(v, w, sizes[e], e, offset, d)
  }

  ghost predicate WrittenBytes(v: View, w: View, size: nat, e: nat, offset: nat, d: seq<byte>) {
    && e < |v.chains| && Holds(v.clusters, v.chains[e]) && size <= CLUSTER_SIZE * |v.chains[e]|
    && e < |w.chains| && Holds(w.clusters, w.chains[e]) && Larger(size, offset + |d|) <= CLUSTER_SIZE * |w.chains[e]|
    && offset <= size
    && FileOf(w, e, Larger(size, offset + |d|)) == Overwrite(FileOf(v, e, size), offset, d)
  }

  lemma WriteStarts(v: View, total: nat, starts: seq<nat>, sizes: seq<nat>, e: nat, offset: nat)
    requires Sound(v, total, starts, sizes) && e < ENTRY_COUNT && starts[e] != 0 && offset <= sizes[e]
    ensures Written(v, v, total, starts, sizes, e, offset, [], sizes[e])
  {
    SoundHolds(v, total, starts, sizes, e);
    assert sizes[e := sizes[e]] == sizes;
    assert v.chains[e := v.chains[e]] == v.chains;
    var was := FileOf(v, e, sizes[e]);
    assert Overwrite(was, offset, []) == was;
  }

  /** The view after a free cluster has been linked behind the last one of the file. */
  function Extended(w: View, e: nat, c: nat): View
    requires e < |w.chains| && |w.chains[e]| > 0 && c < |w.links|
    requires w.chains[e][|w.chains[e]| - 1] < |w.links|
  {
    var chain := w.chains[e];
    w.(links := w.links[c := LAST_CLUSTER][chain[|chain| - 1] := c], chains := w.chains[e := chain + [c]])
  }

  lemma ExtendStep(v: View, w: View, total: nat, starts: seq<nat>, sizes: seq<nat>, e: nat,
                   offset: nat, d: seq<byte>, room: nat, c: nat)
    requires Written(v, w, total, starts, sizes, e, offset, d, room)
    requires room == Larger(sizes[e], offset + |d|) == CLUSTER_SIZE * |w.chains[e]|
    requires 1 <= c < total && w.links[c] == FREE_CLUSTER
    ensures |w.chains[e]| > 0 && w.chains[e][|w.chains[e]| - 1] < |w.links|
    ensures Written(v, Extended(w, e, c), total, starts, sizes, e, offset, d, room + 1)
  {
    ExtendSound(w, total, starts, sizes[e := room], e, c, room);
    assert sizes[e := room][e := room + 1] == sizes[e := room + 1];
    ExtendOnly(v, w, total, starts, sizes[e := room], e, c);
    ExtendBytes(v, w, sizes[e], e, offset, d, c);
  }

  lemma ExtendSound(w: View, total: nat, starts: seq<nat>, sizes: seq<nat>, e: nat, c: nat, room: nat)
    requires Sound(w, total, starts, sizes) && e < ENTRY_COUNT && starts[e] != 0
    requires room == sizes[e] == CLUSTER_SIZE * |w.chains[e]|
    requires 1 <= c < total && w.links[c] == FREE_CLUSTER
    ensures |w.chains[e]| > 0 && w.chains[e][|w.chains[e]| - 1] < |w.links|
    ensures Sound(Extended(w, e, c), total, starts, sizes[e := room + 1])
  {
    hide WellFormed, IsChain, Holds, ClusterCount;
    SoundHolds(w, total, starts, sizes, e);
    SoundWell(w, total, starts, sizes);
    ExtendedCount(|w.chains[e]|);
    ExtendKeeps(w.links, total, starts, sizes, w.chains, e, c, room + 1);
  }

  /** Growing leaves what the file can come to have as it is. */
  lemma ExtendReach(w: View, total: nat, e: nat, c: nat, end: nat)
    requires e < |w.chains| && IsChain(w.links, total, w.chains[e]) && 1 <= c < end && c < |w.links|
    requires w.links[c] == FREE_CLUSTER && w.chains[e][|w.chains[e]| - 1] < |w.links|
    ensures Reach(Extended(w, e, c), e, end) == Reach(w, e, end)
  {
    var last := w.chains[e][|w.chains[e]| - 1];
    assert w.links[last] == LinkAfter(w.chains[e], |w.chains[e]| - 1);
    ExtendCounts(w.links, c, last, end);
  }

  lemma ExtendBytes(v: View, w: View, size: nat, e: nat, offset: nat, d: seq<byte>, c: nat)
    requires WrittenBytes(v, w, size, e, offset, d) && c < |w.clusters| && c < |w.links|
    requires |w.chains[e]| > 0 && w.chains[e][|w.chains[e]| - 1] < |w.links|
    ensures WrittenBytes(v, Extended(w, e, c), size, e, offset, d)
  {
    LongerChain(w.clusters, w.chains[e], c, Larger(size, offset + |d|));
  }

  lemma ExtendOnly(v: View, w: View, total: nat, starts: seq<nat>, sizes: seq<nat>, e: nat, c: nat)
    requires Sound(w, total, starts, sizes) && OnlyFile(v, w, e) && e < ENTRY_COUNT && starts[e] != 0
    requires 1 <= c < total
    requires |w.chains[e]| > 0 && w.chains[e][|w.chains[e]| - 1] < |w.links|
    ensures OnlyFile(v, Extended(w, e, c), e)
  {
    var x := Extended(w, e, c);
    assert x.chains == v.chains[e := x.chains[e]];
    forall k | 0 <= k < |v.clusters| && k !in x.chains[e]
      ensures x.clusters[k] == v.clusters[k]
    {
      assert k !in w.chains[e];
    }
  }

  /** The view after the cluster under `at` has been written. */
  function Stored(w: View, e: nat, at: nat, b: Block): View
    requires e < |w.chains| && at / CLUSTER_SIZE < |w.chains[e]| && w.chains[e][at / CLUSTER_SIZE] < |w.clusters|
  {
    w.(clusters := w.clusters[w.chains[e][at / CLUSTER_SIZE] := b])
  }

  /** What the write loop knows when it stores a cluster: the piece fits into the cluster under the
      cursor, and `b` carries it and keeps the old bytes of the file. */
  ghost predicate Storing(w: View, e: nat, at: nat, size: nat, room: nat, piece: seq<byte>, b: Block) {
    && e < |w.chains| && at / CLUSTER_SIZE < |w.chains[e]| && w.chains[e][at / CLUSTER_SIZE] < |w.clusters|
    && (room == size || (room == size + 1 && at == size))
    && 0 < |piece| && at % CLUSTER_SIZE + |piece| <= CLUSTER_SIZE
    && |b| == CLUSTER_SIZE && |w.clusters[w.chains[e][at / CLUSTER_SIZE]]| == CLUSTER_SIZE
    && Patches(w.clusters[w.chains[e][at / CLUSTER_SIZE]], b, at, piece, size)
  }

  /** Writing the cluster under the cursor appends the piece to what has been written. */
  lemma StoreStep(v: View, w: View, total: nat, starts: seq<nat>, sizes: seq<nat>, e: nat,
                  offset: nat, d: seq<byte>, room: nat, piece: seq<byte>, b: Block)
    requires Written(v, w, total, starts, sizes, e, offset, d, room)
    requires Storing(w, e, offset + |d|, Larger(sizes[e], offset + |d|), room, piece, b)
    ensures Written(v, Stored(w, e, offset + |d|, b), total, starts, sizes, e, offset, d + piece,
                    Larger(sizes[e], offset + |d + piece|))
  {
    hide Sound, OnlyFile, WrittenBytes, WellFormed, FileOf, Patches, Overwrite, Holds, ClusterCount, Stored, IsChain;
    var at, size := offset + |d|, Larger(sizes[e], offset + |d|);
    var now := Larger(sizes[e], offset + |d + piece|);
    assert now == Larger(size, at + |piece|);
    SoundHolds(w, total, starts, sizes[e := room], e);
    StoreSound(w, total, starts, sizes[e := room], e, at, size, room, piece, b);
    assert sizes[e := room][e := now] == sizes[e := now];
    ChainDistinct(w.links, total, w.chains[e]);
    StoreBytes(v, w, sizes[e], e, offset, d, room, piece, b);
    StoreOnly(v, w, e, at, b);
  }

  lemma ChainDistinct(links: seq<nat>, total: nat, chain: seq<nat>)
    requires IsChain(links, total, chain)
    ensures Distinct(chain)
  {
  }

  lemma StoreSound(w: View, total: nat, starts: seq<nat>, sizes: seq<nat>, e: nat, at: nat, size: nat, room: nat,
                   piece: seq<byte>, b: Block)
    requires Sound(w, total, starts, sizes) && e < ENTRY_COUNT && starts[e] != 0 && sizes[e] == room
    requires Storing(w, e, at, size, room, piece, b) && at <= size
    ensures Sound(Stored(w, e, at, b), total, starts, sizes[e := Larger(size, at + |piece|)])
  {
    var now := Larger(size, at + |piece|);
    SoundHolds(w, total, starts, sizes, e);
    SameClusterCount(|w.chains[e]|, room, at, |piece|, size);
    ResizeKeeps(w.links, total, starts, sizes, w.chains, e, now);
  }

  lemma StoreBytes(v: View, w: View, size: nat, e: nat, offset: nat, d: seq<byte>, room: nat, piece: seq<byte>,
      b: Block)
    requires WrittenBytes(v, w, size, e, offset, d) && Distinct(w.chains[e])
    requires Storing(w, e, offset + |d|, Larger(size, offset + |d|), room, piece, b)
    ensures WrittenBytes(v, Stored(w, e, offset + |d|, b), size, e, offset, d + piece)
  {
    var at, now := offset + |d|, Larger(size, offset + |d|);
    WritePiece(w.clusters, w.chains[e], now, at, piece, b);
    OverwriteTwice(FileOf(v, e, size), offset, d, piece);
  }

  lemma StoreOnly(v: View, w: View, e: nat, at: nat, b: Block)
    requires OnlyFile(v, w, e) && at / CLUSTER_SIZE < |w.chains[e]| && w.chains[e][at / CLUSTER_SIZE] < |w.clusters|
    ensures OnlyFile(v, Stored(w, e, at, b), e)
  {
    assert w.chains[e][at / CLUSTER_SIZE] in w.chains[e];
  }

  lemma SameClusterCount(n: nat, room: nat, at: nat, len: nat, size: nat)
    requires n == ClusterCount(room) && at / CLUSTER_SIZE < n && at <= size
    requires room == size || (room == size + 1 && at == size)
    requires 0 < len && at % CLUSTER_SIZE + len <= CLUSTER_SIZE
    ensures ClusterCount(Larger(size, at + len)) == n
  {
    assert at + len <= CLUSTER_SIZE * (at / CLUSTER_SIZE + 1);
  }

  /** The shared buffer with `piece` copied into it may be stored: it held the old cluster, or the whole
      cluster is overwritten, or the cluster is new and lies wholly behind the end of the file. */
  lemma PatchedBuffer(was: Block, temp: Block, b: Block, at: nat, piece: seq<byte>, size: nat)
    requires |was| == |temp| == CLUSTER_SIZE && at % CLUSTER_SIZE + |piece| <= CLUSTER_SIZE
    requires b == temp[..at % CLUSTER_SIZE] + piece + temp[at % CLUSTER_SIZE + |piece|..]
    requires temp == was || |piece| == CLUSTER_SIZE || (at == size && at % CLUSTER_SIZE == 0)
    ensures |b| == CLUSTER_SIZE && Patches(was, b, at, piece, size)
  {
  }

  /** Rewriting the root cluster leaves every file as it is. */
  lemma RootRewritten(v: View, total: nat, starts: seq<nat>, sizes: seq<nat>, b: Block)
    requires Sound(v, total, starts, sizes) && |b| == CLUSTER_SIZE
    ensures |v.clusters| > 0 && Sound(v.(clusters := v.clusters[0 := b]), total, starts, sizes)
    ensures forall e :: 0 <= e < ENTRY_COUNT && starts[e] != 0 ==>
              ContentOf(v.(clusters := v.clusters[0 := b]), e, sizes[e]) == ContentOf(v, e, sizes[e])
  {
    var w := v.(clusters := v.clusters[0 := b]);
    forall e | 0 <= e < ENTRY_COUNT && starts[e] != 0
      ensures ContentOf(w, e, sizes[e]) == ContentOf(v, e, sizes[e])
    {
      SoundHolds(v, total, starts, sizes, e);
      OtherFileSame(v.clusters, w.clusters, v.chains[e], sizes[e]);
    }
  }

  /** The contents of all files other than `e` are the same in both states. */
  ghost predicate OthersKept(v: View, w: View, starts: seq<nat>, sizes: seq<nat>, e: int) {
    forall f :: 0 <= f < |starts| && f < |sizes| && f != e && starts[f] != 0 ==>
      ContentOf(w, f, sizes[f]) == ContentOf(v, f, sizes[f])
  }

  /** At the end of a write: the file has the new bytes and the others are untouched. */
  lemma WriteEnds(v: View, w: View, total: nat, starts: seq<nat>, sizes: seq<nat>, e: nat, offset: nat, d: seq<byte>)
    requires e < |sizes| && Written(v, w, total, starts, sizes, e, offset, d, Larger(sizes[e], offset + |d|))
    ensures |ContentOf(v, e, sizes[e])| == sizes[e]
    ensures ContentOf(w, e, Larger(sizes[e], offset + |d|)) == Overwrite(ContentOf(v, e, sizes[e]), offset, d)
    ensures OthersKept(v, w, starts, sizes, e)
  {
    var news := sizes[e := Larger(sizes[e], offset + |d|)];
    forall f | 0 <= f < ENTRY_COUNT && f != e && starts[f] != 0
      ensures ContentOf(w, f, sizes[f]) == ContentOf(v, f, sizes[f])
    {
      OtherFilesSame(v, w, total, starts, sizes, news, e, f);
    }
  }

  /** The same once the root cluster has been rewritten as well. */
  lemma WriteEndsWithRoot(v: View, w: View, total: nat, starts: seq<nat>, sizes: seq<nat>, e: nat, offset: nat,
                          d: seq<byte>, b: Block)
    requires e < |sizes| && Written(v, w, total, starts, sizes, e, offset, d, Larger(sizes[e], offset + |d|))
    requires |b| == CLUSTER_SIZE
    ensures |w.clusters| > 0
    ensures var x := w.(clusters := w.clusters[0 := b]);
            && Sound(x, total, starts, sizes[e := Larger(sizes[e], offset + |d|)])
            && ContentOf(x, e, Larger(sizes[e], offset + |d|)) == Overwrite(ContentOf(v, e, sizes[e]), offset, d)
            && OthersKept(v, x, starts, sizes, e)
  {
    hide WellFormed, ContentOf, Overwrite, WrittenBytes, OnlyFile;
    var size := Larger(sizes[e], offset + |d|);
    WriteEnds(v, w, total, starts, sizes, e, offset, d);
    RootRewritten(w, total, starts, sizes[e := size], b);
    var x := w.(clusters := w.clusters[0 := b]);
    forall f | 0 <= f < ENTRY_COUNT && f != e && starts[f] != 0
      ensures ContentOf(x, f, sizes[f]) == ContentOf(v, f, sizes[f])
    {
      assert sizes[e := size][f] == sizes[f];
    }
  }
}
