/** File handles: the cached clusters under and before the cursor, and how the cursor moves. */
module FileHandles {
  import opened CacheTable
  import opened CachedArea
  import opened LinkTable
  import opened FileContent
  import opened DiskFormat
  import opened FileSteps
  import opened Sequences

  /** A slot of the handle pool. */
  datatype Handle =
    | Unused
    | File(entry: nat, size: nat, start: nat, current: nat, previous: nat, offset: nat)

  /** The cached clusters are those the offset calls for. */
  ghost predicate CursorOk(chain: seq<nat>, h: Handle)
    requires h.File?
  {
    && |chain| > 0 && chain[0] == h.start
    && h.offset / CLUSTER_SIZE <= |chain|
    && h.current == ClusterUnder(chain, h.offset)
    && h.previous == ClusterBefore(chain, h.offset)
  }

  /** An open handle belongs to a live entry, knows its size, and has its cursor on the entry's chain. */
  ghost predicate HandleOk(h: Handle, entries: seq<DirectoryEntry>, chains: seq<seq<nat>>) {
    h.File? ==>
      && h.entry < |entries| && h.entry < |chains|
      && entries[h.entry].start == h.start != 0 && entries[h.entry].size == h.size
      && CursorOk(chains[h.entry], h)
      && h.offset / CLUSTER_SIZE <= h.size / CLUSTER_SIZE
      && h.offset < DWORD_LIMIT && h.size < DWORD_LIMIT
  }

  ghost predicate HandlesOk(handles: seq<Handle>, entries: seq<DirectoryEntry>, chains: seq<seq<nat>>) {
    && (forall i :: 0 <= i < |handles| ==> HandleOk(handles[i], entries, chains))
    && (forall i, j :: 0 <= i < |handles| && 0 <= j < |handles| && i != j && handles[i].File? && handles[j].File? ==>
          handles[i].entry != handles[j].entry)
  }

  /** No other handle is open on the file of handle `h`. */
  lemma OnlyHandle(handles: seq<Handle>, entries: seq<DirectoryEntry>, chains: seq<seq<nat>>, h: nat, next: Handle)
    requires HandlesOk(handles, entries, chains) && h < |handles| && handles[h].File?
    requires next.File? && next.entry == handles[h].entry && HandleOk(next, entries, chains)
    ensures HandlesOk(handles[h := next], entries, chains)
  {
  }

  /** The cached clusters are those of cluster index `goal`. */
  ghost predicate PointsAt(chain: seq<nat>, h: Handle, goal: nat)
    requires h.File?
  {
    && 0 < |chain| && chain[0] == h.start && goal <= |chain|
    && h.current == (if goal < |chain| then chain[goal] else LAST_CLUSTER)
    && h.previous == (if goal == 0 then chain[0] else chain[goal - 1])
  }

  lemma PointsAtOffset(chain: seq<nat>, h: Handle)
    requires h.File?
    ensures CursorOk(chain, h) <==> PointsAt(chain, h, h.offset / CLUSTER_SIZE)
  {
  }

  lemma ChainLink(links: seq<nat>, total: nat, chain: seq<nat>, i: nat)
    requires IsChain(links, total, chain) && i < |chain|
    ensures 1 <= chain[i] < total <= |links| && links[chain[i]] == LinkAfter(chain, i)
  {
  }

  /** The handle after `n` bytes of its current cluster have been read or written: at the end of the
      cluster it goes on to the cluster that the link leads to. */
  function Advance(h: Handle, n: nat, link: nat): (r: Handle)
    requires h.File?
    ensures r.File? && r.entry == h.entry && r.size == h.size && r.start == h.start && r.offset == h.offset + n
  {
    if (h.offset + n) % CLUSTER_SIZE == 0 then h.(offset := h.offset + n, previous := h.current, current := link)
    else h.(offset := h.offset + n)
  }

  lemma AdvanceKeepsCursor(links: seq<nat>, total: nat, chain: seq<nat>, h: Handle, n: nat, link: nat)
    requires h.File? && IsChain(links, total, chain) && CursorOk(chain, h)
    requires h.offset / CLUSTER_SIZE < |chain| && 0 < n && h.offset % CLUSTER_SIZE + n <= CLUSTER_SIZE
    requires (h.offset + n) % CLUSTER_SIZE == 0 ==> link == links[chain[h.offset / CLUSTER_SIZE]]
    ensures CursorOk(chain, Advance(h, n, link))
  {
    hide ClusterUnder, ClusterBefore, Distinct;
    assert links[chain[h.offset / CLUSTER_SIZE]] == LinkAfter(chain, h.offset / CLUSTER_SIZE);
    ClustersAfterMove(chain, h.offset, n);
  }

  /** The clusters under and before the cursor after a move within one cluster. */
  lemma ClustersAfterMove(chain: seq<nat>, offset: nat, n: nat)
    requires offset / CLUSTER_SIZE < |chain| && 0 < n && offset % CLUSTER_SIZE + n <= CLUSTER_SIZE
    ensures (offset + n) / CLUSTER_SIZE <= |chain|
    ensures (offset + n) % CLUSTER_SIZE == 0 ==>
              && ClusterUnder(chain, offset + n) == LinkAfter(chain, offset / CLUSTER_SIZE)
              && ClusterBefore(chain, offset + n) == ClusterUnder(chain, offset)
    ensures (offset + n) % CLUSTER_SIZE != 0 ==>
              && ClusterUnder(chain, offset + n) == ClusterUnder(chain, offset)
              && ClusterBefore(chain, offset + n) == ClusterBefore(chain, offset)
  {
    OffsetAdvance(offset, n);
  }

  lemma OffsetAdvance(offset: nat, n: nat)
    requires 0 < n && offset % CLUSTER_SIZE + n <= CLUSTER_SIZE
    ensures (offset + n) / CLUSTER_SIZE == offset / CLUSTER_SIZE + if (offset + n) % CLUSTER_SIZE == 0 then 1 else 0
    ensures (offset + n) % CLUSTER_SIZE == 0 ==> offset + n >= CLUSTER_SIZE
    ensures (offset + n) % CLUSTER_SIZE != 0 ==> (offset + n < CLUSTER_SIZE <==> offset < CLUSTER_SIZE)
  {
    var i, o := offset / CLUSTER_SIZE, offset % CLUSTER_SIZE;
    assert offset + n == CLUSTER_SIZE * i + (o + n);
  }

  /** A cursor within the file is off the chain only at the very end of a file of whole clusters. */
  lemma CursorInFile(v: View, total: nat, entries: seq<DirectoryEntry>, h: Handle)
    requires |entries| == ENTRY_COUNT && Sound(v, total, Starts(entries), Sizes(entries))
    requires h.File? && HandleOk(h, entries, v.chains) && h.offset <= h.size
    ensures IsChain(v.links, total, v.chains[h.entry]) && Holds(v.clusters, v.chains[h.entry])
    ensures h.size <= CLUSTER_SIZE * |v.chains[h.entry]|
    ensures h.current == LAST_CLUSTER <==> h.offset / CLUSTER_SIZE == |v.chains[h.entry]|
    ensures h.current == LAST_CLUSTER ==> h.offset == h.size == CLUSTER_SIZE * |v.chains[h.entry]|
    ensures h.current != LAST_CLUSTER ==>
              h.offset / CLUSTER_SIZE < |v.chains[h.entry]| &&
                  h.current == v.chains[h.entry][h.offset / CLUSTER_SIZE] < total
  {
    SoundHolds(v, total, Starts(entries), Sizes(entries), h.entry);
    OffsetOnChain(v.chains[h.entry], h.size, h.offset);
  }

  /** The directory after one entry's size has been set. */
  function Resized(es: seq<DirectoryEntry>, e: nat, size: nat): (r: seq<DirectoryEntry>)
    requires e < |es|
    ensures |r| == |es|
  {
    es[e := es[e].(size := size)]
  }

  lemma ResizedColumns(es: seq<DirectoryEntry>, e: nat, size: nat)
    requires e < |es|
    ensures Starts(Resized(es, e, size)) == Starts(es)
    ensures Sizes(Resized(es, e, size)) == Sizes(es)[e := size]
  {
  }

  /** Once the directory carries the new size, the handles fit it: the written one with its new cursor and
      the others as they were. */
  lemma HandlesAfterWrite(hs: seq<Handle>, next: seq<Handle>, es: seq<DirectoryEntry>, chains: seq<seq<nat>>,
                          news: seq<seq<nat>>, h: nat, size: nat)
    requires HandlesOk(hs, es, chains) && h < |hs| == |next| && hs[h].File? && |news| == |chains| == |es|
    requires next == hs[h := next[h]] && next[h].File? && next[h].entry == hs[h].entry && next[h].start == hs[h].start
    requires hs[h].entry < |es| && next[h].size == size && CursorOk(news[hs[h].entry], next[h])
    requires next[h].offset <= size < DWORD_LIMIT
    requires news == chains[hs[h].entry := news[hs[h].entry]]
    ensures HandlesOk(next, Resized(es, hs[h].entry, size), news)
  {
    var rs := Resized(es, hs[h].entry, size);
    forall i | 0 <= i < |next|
      ensures HandleOk(next[i], rs, news)
    {
      assert HandleOk(hs[i], es, chains) && HandleOk(hs[h], es, chains);
    }
  }

  /** The directory agrees with an open handle, so storing the handle's data resizes the entry. */
  lemma StoredEntry(hs: seq<Handle>, es: seq<DirectoryEntry>, chains: seq<seq<nat>>, h: nat, size: nat)
    requires HandlesOk(hs, es, chains) && h < |hs| && hs[h].File? && hs[h].entry < |es|
    ensures es[hs[h].entry := es[hs[h].entry].(size := size, start := hs[h].start)] == Resized(es, hs[h].entry, size)
    ensures size == hs[h].size ==> Resized(es, hs[h].entry, size) == es
  {
    assert HandleOk(hs[h], es, chains);
  }

  /** From `v`, `es`, `hs` to `w`, `fs`, `ks` the bytes `d` have been written at the cursor of handle `h`:
      its file has them, its size has grown if need be, its cursor stands behind them, and every other
      file, entry and handle is as it was. */
  ghost predicate Wrote(v: View, es: seq<DirectoryEntry>, hs: seq<Handle>, h: nat, d: seq<byte>,
                        w: View, fs: seq<DirectoryEntry>, ks: seq<Handle>) {
    && h < |hs| == |ks| && hs[h].File? && ks[h].File? && hs[h].entry < |es|
    && hs[h].offset <= |ContentOf(v, hs[h].entry, hs[h].size)| == hs[h].size
    && var e, size := hs[h].entry, Larger(hs[h].size, hs[h].offset + |d|);
       && fs == Resized(es, e, size)
       && ks == hs[h := ks[h]] && ks[h].entry == e && ks[h].start == hs[h].start
       && ks[h].size == size && ks[h].offset == hs[h].offset + |d|
       && ContentOf(w, e, size) == Overwrite(ContentOf(v, e, hs[h].size), hs[h].offset, d)
       && OthersKept(v, w, Starts(es), Sizes(es), e)
  }

  /** Writing no bytes changes nothing. */
  lemma EmptyWrite(v: View, es: seq<DirectoryEntry>, hs: seq<Handle>, chains: seq<seq<nat>>, h: nat)
    requires HandlesOk(hs, es, chains) && h < |hs| && hs[h].File? && hs[h].entry < |es|
    requires hs[h].offset <= |ContentOf(v, hs[h].entry, hs[h].size)| == hs[h].size
    ensures Wrote(v, es, hs, h, [], v, es, hs)
  {
    hide ContentOf, Resized, HandlesOk;
    StoredEntry(hs, es, chains, h, hs[h].size);
    var was := ContentOf(v, hs[h].entry, hs[h].size);
    assert Overwrite(was, hs[h].offset, []) == was;
  }

  /** Two writes in a row are one write. */
  lemma WroteTwice(v: View, es: seq<DirectoryEntry>, hs: seq<Handle>, h: nat, d: seq<byte>,
                   w: View, fs: seq<DirectoryEntry>, ks: seq<Handle>, c: seq<byte>,
                   x: View, gs: seq<DirectoryEntry>, ls: seq<Handle>)
    requires Wrote(v, es, hs, h, d, w, fs, ks) && Wrote(w, fs, ks, h, c, x, gs, ls)
    ensures Wrote(v, es, hs, h, d + c, x, gs, ls)
  {
    hide ContentOf, Overwrite;
    var e := hs[h].entry;
    OverwriteTwice(ContentOf(v, e, hs[h].size), hs[h].offset, d, c);
    ResizedColumns(es, e, ks[h].size);
  }

  datatype Origin = SeekSet | SeekCurrent | SeekEnd

  /** The absolute offset a seek asks for, in 32-bit arithmetic. */
  function SeekTarget(h: Handle, offset: int, origin: Origin): nat
    requires h.File?
  {
    match origin
    case SeekSet => if offset <= 0 then 0 else offset
    case SeekCurrent => if offset < 0 && h.offset <= -offset then 0 else (h.offset + offset) % DWORD_LIMIT
    case SeekEnd => if offset < 0 && h.size <= -offset then 0 else (h.size + offset) % DWORD_LIMIT
  }

  /** A target behind the end of the file but in its last cluster: such a seek is not filled with zeros. */
  predicate LeavesGap(size: nat, target: nat) {
    size < target && target / CLUSTER_SIZE == size / CLUSTER_SIZE
  }

  /** A seek that only moves the cursor, to offset `target`. */
  ghost predicate MovedCursor(hs: seq<Handle>, h: nat, target: nat, ks: seq<Handle>) {
    && h < |hs| == |ks| && hs[h].File? && ks[h].File?
    && ks == hs[h := hs[h].(offset := target, current := ks[h].current, previous := ks[h].previous)]
  }
}
