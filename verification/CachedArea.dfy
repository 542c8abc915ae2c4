/** One area of the disk, the cluster link table or the data clusters, read and written block by block
    either directly or through a write-back cache table.  `blocks` is what a reader of the area sees;
    every operation is specified by it, so that the cached and the uncached area behave alike. */
module CachedArea {
  import opened CacheTable

  type Block = seq<byte>

  /** The visible blocks are the cached contents where there are any and the disk elsewhere; a buffer
      that is not marked changed agrees with the disk. */
  ghost predicate Represents(held: set<(nat, bool, seq<byte>)>, disk: seq<Block>, blocks: seq<Block>) {
    && |blocks| == |disk|
    && (forall p :: p in held ==> p.0 < |disk| && blocks[p.0] == p.2 && (!p.1 ==> disk[p.0] == p.2))
    && (forall t {:trigger Tagged(held, t)} :: 0 <= t < |disk| && !Tagged(held, t) ==> blocks[t] == disk[t])
  }

  ghost predicate Tagged(held: set<(nat, bool, seq<byte>)>, t: int) {
    exists p :: p in held && p.0 == t
  }

  // ----- least recently used -----

  /** Of the blocks ever used the cache holds the ones used last: any block used but not held was last used before
      every block that is held, and then all buffers are in use. */
  ghost predicate Recent(held: set<(nat, bool, seq<byte>)>, full: bool, history: seq<nat>) {
    forall u {:trigger Tagged(held, u)} :: u in history && !Tagged(held, u) ==>
      full && forall p :: p in held ==> LastUse(history, u) < LastUse(history, p.0)
  }

  /** Room for one more block: if all buffers are in use the least recently used one is dropped, and written to the
      disk first if it has changed; else nothing happens. */
  ghost predicate MadeRoom(held: set<(nat, bool, seq<byte>)>, disk: seq<Block>, full: bool, history: seq<nat>,
                           rest: set<(nat, bool, seq<byte>)>, now: seq<Block>) {
    if !full then rest == held && now == disk
    else exists p :: p in held && Dropped(held, disk, history, p, rest, now)
  }

  ghost predicate Dropped(held: set<(nat, bool, seq<byte>)>, disk: seq<Block>, history: seq<nat>,
                          p: (nat, bool, seq<byte>), rest: set<(nat, bool, seq<byte>)>, now: seq<Block>) {
    && p.0 < |disk| && (forall q :: q in held ==> LastUse(history, p.0) <= LastUse(history, q.0))
    && rest == held - {p} && !Tagged(rest, p.0)
    && now == if p.1 then disk[p.0 := p.2] else disk
  }

  /** An access to a block that is not cached: room is made, and its buffer holds it, changed or not. */
  ghost predicate Missed(held: set<(nat, bool, seq<byte>)>, disk: seq<Block>, full: bool, history: seq<nat>,
                         entry: (nat, bool, seq<byte>), next: set<(nat, bool, seq<byte>)>, now: seq<Block>) {
    exists rest :: MadeRoom(held, disk, full, history, rest, now) && next == rest + {entry}
  }

  /** Reading block `t` through the cache: a cached block leaves everything as it is. */
  ghost predicate ReadStep(held: set<(nat, bool, seq<byte>)>, disk: seq<Block>, full: bool, history: seq<nat>,
                           t: nat, b: Block, next: set<(nat, bool, seq<byte>)>, now: seq<Block>) {
    if Tagged(held, t) then next == held && now == disk
    else Missed(held, disk, full, history, (t, false, b), next, now)
  }

  /** Writing block `t` through the cache: the new content goes into its buffer and not to the disk. */
  ghost predicate WriteStep(held: set<(nat, bool, seq<byte>)>, disk: seq<Block>, full: bool, history: seq<nat>,
                            t: nat, b: Block, next: set<(nat, bool, seq<byte>)>, now: seq<Block>) {
    if Tagged(held, t) then next == (set p | p in held && p.0 != t) + {(t, true, b)} && now == disk
    else Missed(held, disk, full, history, (t, true, b), next, now)
  }

  lemma OthersOf(rest: set<(nat, bool, seq<byte>)>, t: nat, changed: bool, b: Block)
    requires !Tagged(rest, t)
    ensures (set p | p in rest + {(t, changed, b)} && p.0 != t) == rest
  {
    assert forall p :: p in rest ==> p.0 != t;
  }

  lemma RecentSameTags(held: set<(nat, bool, seq<byte>)>, full: bool, history: seq<nat>,
                       next: set<(nat, bool, seq<byte>)>)
    requires Recent(held, full, history) && forall u :: Tagged(next, u) <==> Tagged(held, u)
    ensures Recent(next, full, history)
  {
    forall u | u in history && !Tagged(next, u)
      ensures full && forall p :: p in next ==> LastUse(history, u) < LastUse(history, p.0)
    {
      forall p | p in next
        ensures LastUse(history, u) < LastUse(history, p.0)
      {
        assert Tagged(next, p.0);
        var q :| q in held && q.0 == p.0;
      }
      assert !Tagged(held, u);
    }
  }

  lemma RecentAfterHit(held: set<(nat, bool, seq<byte>)>, full: bool, history: seq<nat>, t: nat,
                       next: set<(nat, bool, seq<byte>)>)
    requires Recent(held, full, history) && Tagged(held, t)
    requires forall u :: Tagged(next, u) <==> Tagged(held, u)
    ensures Recent(next, full, history + [t])
  {
    forall u | u in history + [t] && !Tagged(next, u)
      ensures full && forall p :: p in next ==> LastUse(history + [t], u) < LastUse(history + [t], p.0)
    {
      assert !Tagged(held, u);
      UsedAgain(history, t, u);
      forall p | p in next
        ensures LastUse(history + [t], u) < LastUse(history + [t], p.0)
      {
        UsedAgain(history, t, p.0);
        assert Tagged(next, p.0);
        var q :| q in held && q.0 == p.0;
      }
    }
  }

  lemma RecentAfterMiss(held: set<(nat, bool, seq<byte>)>, disk: seq<Block>, full: bool, history: seq<nat>,
                        rest: set<(nat, bool, seq<byte>)>, now: seq<Block>, t: nat, changed: bool, b: Block)
    requires Recent(held, full, history) && !Tagged(held, t) && MadeRoom(held, disk, full, history, rest, now)
    requires forall p, q :: p in held && q in held && LastUse(history, p.0) == LastUse(history, q.0) ==> p.0 == q.0
    ensures Recent(rest + {(t, changed, b)}, full, history + [t])
  {
    var next := rest + {(t, changed, b)};
    TaggedMore(rest, (t, changed, b));
    forall u | u in history + [t] && !Tagged(next, u)
      ensures full && forall p :: p in next ==> LastUse(history + [t], u) < LastUse(history + [t], p.0)
    {
      assert !Tagged(rest, u) && u != t;
      UsedAgain(history, t, u);
      forall p | p in next
        ensures full && LastUse(history + [t], u) < LastUse(history + [t], p.0)
      {
        UsedAgain(history, t, p.0);
        if p.0 != t {
          assert p in rest && p in held;
          if Tagged(held, u) {
            var q :| q in held && q.0 == u;
            assert p.0 != q.0;
          }
        }
      }
      assert (t, changed, b) in next;
    }
  }

  ghost predicate Sized(blocks: seq<Block>, size: nat) {
    forall t :: 0 <= t < |blocks| ==> |blocks[t]| == size
  }

  /** A block that is not cached is read from the disk. */
  lemma ReadMiss(held: set<(nat, bool, seq<byte>)>, disk: seq<Block>, blocks: seq<Block>, t: nat)
    requires Represents(held, disk, blocks) && t < |disk| && !Tagged(held, t)
    ensures blocks[t] == disk[t]
    ensures Represents(held + {(t, false, disk[t])}, disk, blocks)
  {
    TaggedMore(held, (t, false, disk[t]));
  }

  lemma TaggedMore(held: set<(nat, bool, seq<byte>)>, p: (nat, bool, seq<byte>))
    ensures forall k :: Tagged(held + {p}, k) <==> Tagged(held, k) || k == p.0
  {
    forall k
      ensures Tagged(held + {p}, k) <==> Tagged(held, k) || k == p.0
    {
      assert p in held + {p};
      if q :| q in held && q.0 == k {
        assert q in held + {p};
      }
    }
  }

  /** Caching a new content for a block changes that visible block and no other. */
  lemma WriteCached(held: set<(nat, bool, seq<byte>)>, disk: seq<Block>, blocks: seq<Block>, t: nat, b: Block)
    requires Represents(held, disk, blocks) && t < |disk| && !Tagged(held, t)
    ensures Represents(held + {(t, true, b)}, disk, blocks[t := b])
  {
    TaggedMore(held, (t, true, b));
    assert forall p :: p in held ==> p.0 != t;
  }

  /** Changing a cached content in place changes that visible block and no other. */
  lemma RewriteCached(rest: set<(nat, bool, seq<byte>)>, t: nat, changed: bool, was: Block,
                      disk: seq<Block>, blocks: seq<Block>, b: Block)
    requires Represents(rest + {(t, changed, was)}, disk, blocks) && !Tagged(rest, t)
    ensures t < |disk| && blocks[t] == was
    ensures Represents(rest + {(t, true, b)}, disk, blocks[t := b])
  {
    assert (t, changed, was) in rest + {(t, changed, was)};
    assert forall p :: p in rest ==> p in rest + {(t, changed, was)} && p.0 != t;
    TaggedMore(rest, (t, changed, was));
    TaggedMore(rest, (t, true, b));
  }

  /** Writing a changed buffer back leaves what is visible as it was, whether the buffer is then
      dropped or kept as unchanged. */
  lemma WriteBack(rest: set<(nat, bool, seq<byte>)>, t: nat, changed: bool, b: Block,
                  disk: seq<Block>, blocks: seq<Block>)
    requires Represents(rest + {(t, changed, b)}, disk, blocks) && !Tagged(rest, t)
    ensures t < |disk|
    ensures Represents(rest, disk[t := b], blocks)
    ensures Represents(rest + {(t, false, b)}, disk[t := b], blocks)
    ensures !changed ==> disk[t := b] == disk
  {
    assert (t, changed, b) in rest + {(t, changed, b)};
    assert forall p :: p in rest ==> p in rest + {(t, changed, b)} && p.0 != t;
    TaggedMore(rest, (t, changed, b));
    ReadMiss(rest, disk[t := b], blocks, t);
  }

  /** The tag of a live buffer is held by no other buffer. */
  lemma TagIsUnique(buffers: seq<CacheBuffer>, clock: nat, history: seq<nat>, r: nat)
    requires Ordered(buffers, clock, history, -1) && r < |buffers| && Live(buffers[r])
    ensures !Tagged(Held(buffers, r), buffers[r].tag)
    ensures Held(buffers, -1) == Held(buffers, r) + {Content(buffers[r])}
  {
    HeldSplit(buffers, r);
  }

  lemma UntaggedMeansAbsent(buffers: seq<CacheBuffer>, skip: int, t: nat)
    requires t < PENDING_TAG
    ensures !Tagged(Held(buffers, skip), t) <==>
            forall i :: 0 <= i < |buffers| && i != skip ==> buffers[i].tag != t
  {
    if i :| 0 <= i < |buffers| && i != skip && buffers[i].tag == t {
      assert Content(buffers[i]) in Held(buffers, skip);
    }
  }

  /** With no buffer marked changed the disk is exactly what is visible. */
  lemma NothingToFlush(held: set<(nat, bool, seq<byte>)>, disk: seq<Block>, blocks: seq<Block>)
    requires Represents(held, disk, blocks)
    requires forall p :: p in held ==> !p.1
    ensures disk == blocks
  {
    forall t | 0 <= t < |disk|
      ensures disk[t] == blocks[t]
    {
      if Tagged(held, t) {
        var p :| p in held && p.0 == t;
      }
    }
  }

  /** Cache and disk leave no choice in what is visible. */
  lemma VisibleIsDetermined(held: set<(nat, bool, seq<byte>)>, disk: seq<Block>, a: seq<Block>, b: seq<Block>)
    requires Represents(held, disk, a) && Represents(held, disk, b)
    ensures a == b
  {
    forall t | 0 <= t < |disk|
      ensures a[t] == b[t]
    {
      if Tagged(held, t) {
        var p :| p in held && p.0 == t;
      }
    }
  }

  class Area {
    const disk: array<Block>
    const blockSize: nat
    const cacheEnabled: bool
    const table: Table
    ghost var blocks: seq<Block>

    /** The objects an operation on the area may change. */
    ghost function Footprint(): set<object> {
      {this, disk, table, table.buffers}
    }

    ghost predicate Valid()
      reads Footprint()
    {
      && disk as object != table.buffers as object
      && disk.Length < PENDING_TAG
      && 0 < table.buffers.Length
      && |blocks| == disk.Length && Sized(blocks, blockSize) && Sized(disk[..], blockSize)
      && table.Valid() && table.Clean()
      && (if cacheEnabled then Represents(table.Contents(-1), disk[..], blocks) else blocks == disk[..])
      && Recent(table.Contents(-1), AllLive(table.buffers[..]), table.history)
    }

    /** The cache holds the blocks used last. */
    lemma HoldsTheMostRecent(a: nat, b: nat)
      requires Valid() && Tagged(table.Contents(-1), a) && b in table.history && !Tagged(table.Contents(-1), b)
      ensures LastUse(table.history, b) < LastUse(table.history, a)
      ensures forall i :: 0 <= i < table.buffers.Length ==> Live(table.buffers[i])
    {
    }

    /** What users of an area need to know of its invariant. */
    lemma VisibleBlocks()
      requires Valid()
      ensures |blocks| == disk.Length && Sized(blocks, blockSize)
    {
    }

    constructor (content: seq<Block>, blockSize: nat, cacheEnabled: bool, bufferCount: nat)
      requires |content| < PENDING_TAG && Sized(content, blockSize) && 0 < bufferCount <= 32
      ensures Valid() && fresh(Footprint())
      ensures blocks == content && disk[..] == content
      ensures this.blockSize == blockSize && this.cacheEnabled == cacheEnabled
      ensures table.buffers.Length == bufferCount
    {
      disk := new Block[|content|](i requires 0 <= i < |content| => content[i]);
      this.blockSize := blockSize;
      this.cacheEnabled := cacheEnabled;
      table := new Table(bufferCount);
      blocks := content;
      new;
      assert disk[..] == content;
      assert table.Contents(-1) == {};
    }

    /** A buffer has been taken for block `t`, which no other buffer holds. */
    ghost predicate TakenFor(r: nat, t: nat)
      reads Footprint()
    {
      && disk as object != table.buffers as object
      && cacheEnabled && t < disk.Length < PENDING_TAG
      && |blocks| == disk.Length && Sized(blocks, blockSize) && Sized(disk[..], blockSize)
      && table.Taken(r)
      && Represents(table.Contents(r), disk[..], blocks)
      && !Tagged(table.Contents(r), t)
      && (forall i :: 0 <= i < table.buffers.Length && i != r && !Live(table.buffers[i]) ==> !table.buffers[i].changed)
    }

    /** Last uses tell held blocks apart. */
    lemma UsesTellApart()
      requires table.Valid()
      ensures forall p, q :: p in table.Contents(-1) && q in table.Contents(-1) ==>
                (LastUse(table.history, p.0) == LastUse(table.history, q.0) ==> p.0 == q.0)
    {
    }

    /** Takes a buffer for a block that the cache does not hold: an invalid one or else the least
        recently used one, which is written back first if it was changed. */
    method AllocateCacheBufferWithFlush(t: nat) returns (r: nat)
      requires Valid() && cacheEnabled && t < disk.Length && !Tagged(table.Contents(-1), t)
      modifies disk, table, table.buffers
      ensures TakenFor(r, t) && table.history == old(table.history)
      ensures MadeRoom(old(table.Contents(-1)), old(disk[..]), AllLive(old(table.buffers[..])), table.history,
                       table.Contents(r), disk[..])
      ensures AllLive(old(table.buffers[..])) ==> AllLive(table.buffers[..])
    {
      hide Ordered, Held, Recent, Tagged;
      var i := table.AllocateCacheBuffer();
      if i != -1 {
        return i;
      }
      r := EvictLeastRecent(t);
    }

    /** With all buffers in use takes the least recently used one. */
    method EvictLeastRecent(t: nat) returns (r: nat)
      requires disk as object != table.buffers as object && cacheEnabled && t < disk.Length < PENDING_TAG
      requires 0 < table.buffers.Length && table.Valid() && table.Clean() && table.clock < CLOCK_END
      requires |blocks| == disk.Length && Sized(blocks, blockSize) && Sized(disk[..], blockSize)
      requires AllLive(table.buffers[..]) && !Tagged(table.Contents(-1), t)
      requires Represents(table.Contents(-1), disk[..], blocks)
      modifies disk, table, table.buffers
      ensures TakenFor(r, t) && table.history == old(table.history) && AllLive(table.buffers[..])
      ensures MadeRoom(old(table.Contents(-1)), old(disk[..]), true, table.history, table.Contents(r), disk[..])
    {
      hide Ordered, Held, Recent;
      ghost var held, was, clock, before := table.Contents(-1), table.buffers[..], table.clock, disk[..];
      r := table.GetVictimInCacheBuffer();
      TagIsUnique(was, clock, table.history, r);
      TaggedMore(Held(was, r), Content(was[r]));
      HeldUpdate(was, r, table.buffers[r]);
      assert forall i :: 0 <= i < |was| ==> table.buffers[i].tag == was[i].tag;
      VictimIsDropped(was, table.history, r);
      WriteBack(Held(was, r), was[r].tag, was[r].changed, was[r].data, disk[..], blocks);
      if table.buffers[r].changed {
        WriteWithoutCache(table.buffers[r].tag, table.buffers[r].data);
      }
      assert Dropped(held, before, table.history, Content(was[r]), table.Contents(r), disk[..]);
    }

    /** The least recently used buffer, in terms of what is held. */
    lemma VictimIsDropped(was: seq<CacheBuffer>, history: seq<nat>, r: nat)
      requires r < |was| && AllLive(was)
      requires forall i :: 0 <= i < |was| ==> LastUse(history, was[r].tag) <= LastUse(history, was[i].tag)
      requires !Tagged(Held(was, r), was[r].tag)
      ensures forall q :: q in Held(was, -1) ==> LastUse(history, was[r].tag) <= LastUse(history, q.0)
      ensures Held(was, r) == Held(was, -1) - {Content(was[r])} && Content(was[r]) in Held(was, -1)
    {
      HeldSplit(was, r);
      assert forall p :: p in Held(was, r) ==> p.0 != was[r].tag;
    }

    method ReadWithoutCache(t: nat) returns (b: Block)
      requires t < disk.Length
      ensures b == disk[t]
    {
      b := disk[t];
    }

    method WriteWithoutCache(t: nat, b: Block)
      requires t < disk.Length
      modifies disk
      ensures disk[..] == old(disk[..])[t := b]
    {
      disk[t] := b;
    }

    /** How room was made in buffer `r` for block `t`. */
    ghost predicate RoomFor(r: nat, t: nat, held: set<(nat, bool, seq<byte>)>, before: seq<Block>, full: bool)
      reads Footprint()
    {
      && TakenFor(r, t) && MadeRoom(held, before, full, table.history, table.Contents(r), disk[..])
      && Recent(held, full, table.history) && !Tagged(held, t) && (full ==> AllLive(table.buffers[..]))
      && (forall p, q :: p in held && q in held && LastUse(table.history, p.0) == LastUse(table.history, q.0) ==>
            p.0 == q.0)
    }

    lemma StaysRecent(r: nat, t: nat, held: set<(nat, bool, seq<byte>)>, before: seq<Block>, full: bool,
                      changed: bool, b: Block)
      requires RoomFor(r, t, held, before, full)
      ensures Recent(table.Contents(r) + {(t, changed, b)}, full, table.history + [t])
      ensures !full ==> Recent(table.Contents(r) + {(t, changed, b)}, true, table.history + [t])
      ensures Missed(held, before, full, table.history, (t, changed, b),
                     table.Contents(r) + {(t, changed, b)}, disk[..])
    {
      hide Held, MadeRoom, Represents;
      RecentAfterMiss(held, before, full, table.history, table.Contents(r), disk[..], t, changed, b);
    }

    /** Fills the taken buffer with block `t` as it was read. */
    method InstallRead(r: nat, t: nat, b: Block, ghost held: set<(nat, bool, seq<byte>)>, ghost before: seq<Block>,
                       ghost full: bool)
      requires RoomFor(r, t, held, before, full) && b == blocks[t]
      modifies table, table.buffers
      ensures Valid() && table.history == old(table.history) + [t]
      ensures Missed(held, before, full, old(table.history), (t, false, b), table.Contents(-1), disk[..])
    {
      hide Ordered, Held, Recent, Tagged, MadeRoom, Missed;
      ReadMiss(table.Contents(r), disk[..], blocks, t);
      UntaggedMeansAbsent(table.buffers[..], r, t);
      StaysRecent(r, t, held, before, full, false, b);
      table.Install(r, t, b, false);
    }

    /** Fills the taken buffer with a new content for block `t`. */
    method InstallWritten(r: nat, t: nat, b: Block, ghost held: set<(nat, bool, seq<byte>)>, ghost before: seq<Block>,
                          ghost full: bool)
      requires RoomFor(r, t, held, before, full) && |b| == blockSize
      modifies this, table, table.buffers
      ensures Valid() && blocks == old(blocks)[t := b] && table.history == old(table.history) + [t]
      ensures Missed(held, before, full, old(table.history), (t, true, b), table.Contents(-1), disk[..])
    {
      hide Ordered, Held, Recent, Tagged, MadeRoom, Missed;
      WriteCached(table.Contents(r), disk[..], blocks, t, b);
      UntaggedMeansAbsent(table.buffers[..], r, t);
      StaysRecent(r, t, held, before, full, true, b);
      table.Install(r, t, b, true);
      blocks := blocks[t := b];
    }

    lemma SameTagsLive(a: seq<CacheBuffer>, b: seq<CacheBuffer>)
      requires |a| == |b| && forall k :: 0 <= k < |a| ==> b[k].tag == a[k].tag
      ensures AllLive(a) <==> AllLive(b)
    {
      assert forall k :: 0 <= k < |a| ==> (Live(a[k]) <==> Live(b[k]));
    }

    /** The buffer found for a tag holds the visible block. */
    lemma FoundHolds(i: nat)
      requires Valid() && cacheEnabled && i < table.buffers.Length && Live(table.buffers[i])
      ensures var b := table.buffers[i];
              && b.tag < disk.Length && b.data == blocks[b.tag]
              && !Tagged(table.Contents(i), b.tag)
              && table.Contents(-1) == table.Contents(i) + {(b.tag, b.changed, b.data)}
    {
      TagIsUnique(table.buffers[..], table.clock, table.history, i);
      assert Content(table.buffers[i]) in table.Contents(-1);
    }

    /** A buffer with the tag has been found and used. */
    lemma FoundAgain(i: nat, held: set<(nat, bool, seq<byte>)>, full: bool, history: seq<nat>)
      requires i < table.buffers.Length && Live(table.buffers[i]) && table.Contents(-1) == held
      requires Recent(held, full, history) && table.history == history + [table.buffers[i].tag]
      ensures Tagged(held, table.buffers[i].tag) && Recent(held, full, table.history)
    {
      assert Content(table.buffers[i]) in table.Contents(-1);
      RecentAfterHit(held, full, history, table.buffers[i].tag, held);
    }

    /** A cached read returns the visible block and changes nothing that is visible. */
    method ReadWithCache(t: nat) returns (b: Block)
      requires Valid() && cacheEnabled && t < disk.Length
      modifies disk, table, table.buffers
      ensures Valid() && b == blocks[t]
      ensures table.history == old(table.history) + [t]
      ensures ReadStep(old(table.Contents(-1)), old(disk[..]), AllLive(old(table.buffers[..])), old(table.history),
                       t, b, table.Contents(-1), disk[..])
    {
      hide Ordered, Held, Recent, Represents, MadeRoom, Missed;
      ghost var held, before, full, history :=
        table.Contents(-1), disk[..], AllLive(table.buffers[..]), table.history;
      UsesTellApart();
      var i := table.FindCacheBuffer(t);
      if i != -1 {
        FoundAgain(i, held, full, history);
        FoundHolds(i);
        return table.buffers[i].data;
      }
      UntaggedMeansAbsent(table.buffers[..], -1, t);
      b := ReadWithoutCache(t);
      assert b == blocks[t] by { ReadMiss(table.Contents(-1), disk[..], blocks, t); }
      var r := AllocateCacheBufferWithFlush(t);
      InstallRead(r, t, b, held, before, full);
    }

    /** A cached write changes the visible block `t` and no other, and leaves it in the cache. */
    method WriteWithCache(t: nat, b: Block)
      requires Valid() && cacheEnabled && t < disk.Length && |b| == blockSize
      modifies Footprint()
      ensures Valid() && blocks == old(blocks)[t := b]
      ensures table.history == old(table.history) + [t]
      ensures WriteStep(old(table.Contents(-1)), old(disk[..]), AllLive(old(table.buffers[..])), old(table.history),
                        t, b, table.Contents(-1), disk[..])
    {
      hide Ordered, Held, Recent, Represents, MadeRoom, Missed;
      ghost var held, before, full, history :=
        table.Contents(-1), disk[..], AllLive(table.buffers[..]), table.history;
      UsesTellApart();
      var i := table.FindCacheBuffer(t);
      if i != -1 {
        FoundAgain(i, held, full, history);
        StoreFound(i, t, b);
        return;
      }
      UntaggedMeansAbsent(table.buffers[..], -1, t);
      var r := AllocateCacheBufferWithFlush(t);
      InstallWritten(r, t, b, held, before, full);
    }

    method StoreFound(i: nat, t: nat, b: Block)
      requires Valid() && cacheEnabled && t < disk.Length && |b| == blockSize
      requires i < table.buffers.Length && table.buffers[i].tag == t
      modifies this, table.buffers
      ensures Valid() && blocks == old(blocks)[t := b]
      ensures table.Contents(-1) == (set p | p in old(table.Contents(-1)) && p.0 != t) + {(t, true, b)}
    {
      hide Ordered, Held, Recent;
      FoundHolds(i);
      ghost var held, rest, was, all := table.Contents(-1), table.Contents(i), table.buffers[i], table.buffers[..];
      RewriteCached(rest, t, was.changed, was.data, disk[..], blocks, b);
      OthersOf(rest, t, was.changed, was.data);
      TaggedMore(rest, (t, was.changed, was.data));
      TaggedMore(rest, (t, true, b));
      RecentSameTags(held, AllLive(all), table.history, rest + {(t, true, b)});
      table.Store(i, b, true);
      blocks := blocks[t := b];
      SameTagsLive(all, table.buffers[..]);
    }

    method Read(t: nat) returns (b: Block)
      requires Valid() && t < disk.Length
      modifies disk, table, table.buffers
      ensures Valid() && b == blocks[t]
      ensures cacheEnabled ==>
                && table.history == old(table.history) + [t]
                && ReadStep(old(table.Contents(-1)), old(disk[..]), AllLive(old(table.buffers[..])), old(table.history),
                            t, b, table.Contents(-1), disk[..])
      ensures !cacheEnabled ==> disk[..] == old(disk[..])
    {
      hide ReadStep, Recent, Held, Ordered;
      if !cacheEnabled {
        b := ReadWithoutCache(t);
      } else {
        b := ReadWithCache(t);
      }
    }

    method Write(t: nat, b: Block)
      requires Valid() && t < disk.Length && |b| == blockSize
      modifies Footprint()
      ensures Valid() && blocks == old(blocks)[t := b]
      ensures cacheEnabled ==>
                && table.history == old(table.history) + [t]
                && WriteStep(old(table.Contents(-1)), old(disk[..]), AllLive(old(table.buffers[..])),
                             old(table.history), t, b, table.Contents(-1), disk[..])
      ensures !cacheEnabled ==> disk[..] == blocks
    {
      hide WriteStep, Recent, Held, Ordered;
      if !cacheEnabled {
        WriteWithoutCache(t, b);
        blocks := blocks[t := b];
      } else {
        WriteWithCache(t, b);
      }
    }

    /** Writes every changed buffer back: afterwards the disk is exactly what is visible. */
    method Flush()
      requires Valid()
      modifies disk, table.buffers
      ensures Valid() && disk[..] == blocks
      ensures cacheEnabled ==> forall i :: 0 <= i < table.buffers.Length ==>
                table.buffers[i] == old(table.buffers[..])[i].(changed := false)
    {
      hide Recent;
      if !cacheEnabled {
        return;
      }
      var i := 0;
      while i < table.buffers.Length
        invariant 0 <= i <= table.buffers.Length
        invariant Valid()
        invariant forall k :: 0 <= k < i ==> table.buffers[k] == old(table.buffers[..])[k].(changed := false)
        invariant forall k :: i <= k < table.buffers.Length ==> table.buffers[k] == old(table.buffers[..])[k]
      {
        if table.buffers[i].changed {
          FlushBuffer(i);
        }
        i := i + 1;
      }
      NothingToFlush(table.Contents(-1), disk[..], blocks);
    }

    method FlushBuffer(i: nat)
      requires Valid() && cacheEnabled && i < table.buffers.Length && table.buffers[i].changed
      modifies disk, table.buffers
      ensures Valid()
      ensures table.buffers[..] == old(table.buffers[..])[i := old(table.buffers[i]).(changed := false)]
    {
      hide Ordered, Held, Recent;
      FoundHolds(i);
      var b := table.buffers[i];
      ghost var rest, all := table.Contents(i), table.buffers[..];
      WriteBack(rest, b.tag, b.changed, b.data, disk[..], blocks);
      TaggedMore(rest, (b.tag, b.changed, b.data));
      TaggedMore(rest, (b.tag, false, b.data));
      RecentSameTags(table.Contents(-1), AllLive(all), table.history, rest + {(b.tag, false, b.data)});
      WriteWithoutCache(b.tag, b.data);
      table.Store(i, b.data, false);
      SameTagsLive(all, table.buffers[..]);
    }
  }
}
