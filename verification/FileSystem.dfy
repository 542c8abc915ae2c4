/** The cluster-chain file system: one root directory, a link table, and file handles with a cursor. */
module FileSystem {
  import opened CacheTable
  import opened CachedArea
  import opened LinkTable
  import opened FileContent
  import opened DiskFormat
  import opened FileSteps
  import opened FileHandles
  import opened DirectorySteps
  import opened FileStreams
  import opened Sequences

  const LINK_BUFFERS: nat := 16
  const DATA_BUFFERS: nat := 32
  const HANDLE_COUNT: nat := 3072
  const SECTORS_PER_CLUSTER: nat := 8

  /** The link sectors needed for so many clusters. */
  function LinkSectors(clusters: nat): nat {
    (clusters + 127) / 128
  }

  /** The number of clusters a disk of `sectorCount` sectors is formatted with. */
  function FormattedClusters(sectorCount: nat): nat
    requires 10 <= sectorCount
  {
    var most := sectorCount / SECTORS_PER_CLUSTER;
    (sectorCount - LinkSectors(most) - 1) / SECTORS_PER_CLUSTER
  }

  /** The first sector of link sector `s` or of cluster `c` on a disk with so many link sectors. */
  function LinkAddress(s: nat): nat {
    1 + s
  }

  function ClusterAddress(linkSectors: nat, c: nat): nat {
    1 + linkSectors + c * SECTORS_PER_CLUSTER
  }

  /** The boot sector, the link sectors and the clusters lie one after the other on the disk. */
  lemma FormatFits(sectorCount: nat)
    requires 10 <= sectorCount < DWORD_LIMIT
    ensures var clusters := FormattedClusters(sectorCount);
            var sectors := LinkSectors(clusters);
            && 0 < clusters && 0 < sectors
            && LINKS_PER_SECTOR * (sectors - 1) < clusters <= LINKS_PER_SECTOR * sectors < LAST_CLUSTER
            && 1 + sectors + clusters * SECTORS_PER_CLUSTER <= sectorCount
            && sectors == (clusters + 127) / 128 && clusters == (sectorCount - (sectorCount / 8 + 127) / 128 - 1) / 8
  {
    var clusters, most := FormattedClusters(sectorCount), sectorCount / SECTORS_PER_CLUSTER;
    assert LinkSectors(most) + 9 <= sectorCount;
    assert clusters <= most && LinkSectors(clusters) <= LinkSectors(most);
  }

  lemma AreasDoNotOverlap(sectorCount: nat, s: nat, c: nat, d: nat)
    requires 10 <= sectorCount < DWORD_LIMIT
    requires s < LinkSectors(FormattedClusters(sectorCount)) && c < d < FormattedClusters(sectorCount)
    ensures var sectors := LinkSectors(FormattedClusters(sectorCount));
            && 0 < LinkAddress(s) < ClusterAddress(sectors, c)
            && ClusterAddress(sectors, c) + SECTORS_PER_CLUSTER <= ClusterAddress(sectors, d)
            && ClusterAddress(sectors, d) + SECTORS_PER_CLUSTER <= sectorCount
            && LinkAddress(s) == 1 + s && ClusterAddress(sectors, c) == 1 + sectors + 8 * c
  {
    FormatFits(sectorCount);
  }

  /** `size * count` in 32 bits. */
  function ByteCount(size: nat, count: nat): nat {
    size * count % DWORD_LIMIT
  }

  /** The number of whole items in so many bytes. */
  function ItemCount(bytes: nat, size: nat): nat
    requires 0 < size
  {
    bytes / size
  }

  /** A freshly formatted link area: every link free but that of the root cluster. */
  function FormattedLinks(sectors: nat): (r: seq<Block>)
    ensures |r| == sectors && Sized(r, SECTOR_SIZE)
  {
    seq(sectors, s requires 0 <= s => FormattedSector(s))
  }

  function FormattedSector(s: nat): (b: Block)
    ensures |b| == SECTOR_SIZE
  {
    if s == 0 then SetDword(ZeroBlock(SECTOR_SIZE), 0, LAST_CLUSTER) else ZeroBlock(SECTOR_SIZE)
  }

  /** On a formatted disk only the root cluster is in use and the directory is empty. */
  lemma FormattedIsSound(sectors: nat, total: nat, clusters: seq<Block>, hs: seq<Handle>)
    requires 0 < total <= LINKS_PER_SECTOR * sectors && total < LAST_CLUSTER
    requires total <= |clusters| && Sized(clusters, CLUSTER_SIZE) && clusters[0] == ZeroBlock(CLUSTER_SIZE)
    requires forall h :: 0 <= h < |hs| ==> hs[h].Unused?
    ensures Fits(View(LinksOf(FormattedLinks(sectors)), clusters, seq(ENTRY_COUNT, _ => [])), total,
                 EntriesOf(clusters[0]), hs)
    ensures forall e :: 0 <= e < ENTRY_COUNT ==> EntriesOf(clusters[0])[e].start == 0
  {
    hide SetDword, DwordAt, ZeroBlock;
    var links := LinksOf(FormattedLinks(sectors));
    forall c | 0 <= c < |links|
      ensures links[c] == if c == 0 then LAST_CLUSTER else FREE_CLUSTER
    {
      FormattedLink(sectors, c);
    }
    forall e | 0 <= e < ENTRY_COUNT
      ensures EntriesOf(clusters[0])[e] == ZeroEntry()
    {
      ZeroBlockEntry(e);
    }
    var chains: seq<seq<nat>> := seq(ENTRY_COUNT, _ => []);
    assert forall c :: 1 <= c < total ==> !OnSomeChain(chains, c);
  }

  lemma RootCleared(was: seq<Block>)
    requires 0 < |was| && Sized(was, CLUSTER_SIZE)
    ensures Sized(was[0 := ZeroBlock(CLUSTER_SIZE)], CLUSTER_SIZE)
  {
  }

  lemma FormattedLink(sectors: nat, c: nat)
    requires c < LINKS_PER_SECTOR * sectors
    ensures LinkIn(FormattedLinks(sectors), c) == if c == 0 then LAST_CLUSTER else FREE_CLUSTER
  {
    hide SetDword;
    var s, k := c / LINKS_PER_SECTOR, c % LINKS_PER_SECTOR;
    assert FormattedLinks(sectors)[s] == FormattedSector(s);
    assert DwordAt(ZeroBlock(SECTOR_SIZE), k) == 0;
    SetThenGet(ZeroBlock(SECTOR_SIZE), 0, LAST_CLUSTER, k);
  }

  lemma ZeroBlockEntry(e: nat)
    requires e < ENTRY_COUNT
    ensures EntryAt(ZeroBlock(CLUSTER_SIZE), e) == ZeroEntry()
  {
    var b := ZeroBlock(CLUSTER_SIZE);
    assert b[ENTRY_SIZE * e..ENTRY_SIZE * e + NAME_SIZE] == ZeroEntry().name;
  }

  /** The clusters that the search for a free cluster looks at: of the last link sector it looks at
      `total % 128` links, none of them when the total is a multiple of 128. */
  function SearchEnd(sectors: nat, total: nat): nat
    requires sectors > 0
  {
    LINKS_PER_SECTOR * (sectors - 1) + total % LINKS_PER_SECTOR
  }

  ghost predicate NoneFree(links: seq<nat>, from: nat, end: nat) {
    forall c :: from <= c < end && c < |links| ==> links[c] != FREE_CLUSTER
  }

  /** Sector `s` is among the first `i` sectors after the hint, going round. */
  predicate Visited(hint: nat, sectors: nat, s: nat, i: nat) {
    if hint <= s then s - hint < i else s + sectors < hint + i
  }

  /** How many links of sector `s` the search looks at. */
  function LinkCount(sectors: nat, total: nat, s: nat): nat {
    if s + 1 == sectors then total % LINKS_PER_SECTOR else LINKS_PER_SECTOR
  }

  /** No free link has been seen in the sectors visited so far. */
  ghost predicate Searched(links: seq<nat>, hint: nat, sectors: nat, total: nat, i: nat) {
    forall s :: 0 <= s < sectors && Visited(hint, sectors, s, i) ==> SectorFull(links, sectors, total, s)
  }

  ghost predicate SectorFull(links: seq<nat>, sectors: nat, total: nat, s: nat) {
    NoneFree(links, LINKS_PER_SECTOR * s, LINKS_PER_SECTOR * s + LinkCount(sectors, total, s))
  }

  /** Sector number `i` after the hint, going round. */
  function SectorAt(hint: nat, sectors: nat, i: nat): nat
    requires hint < sectors && i < sectors
  {
    if hint + i < sectors then hint + i else hint + i - sectors
  }

  /** How many sectors lie between the hint and a sector, going round. */
  function StepsTo(hint: nat, sectors: nat, s: nat): nat
    requires hint < sectors
  {
    if hint <= s then s - hint else s + sectors - hint
  }

  lemma StepsToSector(hint: nat, sectors: nat, i: nat)
    requires hint < sectors && i < sectors
    ensures StepsTo(hint, sectors, SectorAt(hint, sectors, i)) == i
  {
  }

  /** Going round sector by sector from the hint, cluster `c` comes before cluster `r`. */
  predicate Sooner(hint: nat, sectors: nat, c: nat, r: nat)
    requires hint < sectors
  {
    var i, j := (c / 128 + sectors - hint) % sectors, (r / 128 + sectors - hint) % sectors;
    i < j || (c / 128 == r / 128 && c < r)
  }

  lemma NothingSooner(links: seq<nat>, hint: nat, sectors: nat, total: nat, r: nat, c: nat)
    requires hint < sectors && r / LINKS_PER_SECTOR < sectors && c < |links| && c < SearchEnd(sectors, total)
    requires Searched(links, hint, sectors, total, StepsTo(hint, sectors, r / LINKS_PER_SECTOR))
    requires NoneFree(links, LINKS_PER_SECTOR * (r / LINKS_PER_SECTOR), r) && Sooner(hint, sectors, c, r)
    ensures links[c] != FREE_CLUSTER
  {
    var s := c / LINKS_PER_SECTOR;
    StepsAreDistance(hint, sectors, s);
    StepsAreDistance(hint, sectors, r / LINKS_PER_SECTOR);
    if s != r / LINKS_PER_SECTOR {
      assert SectorFull(links, sectors, total, s);
    }
  }

  lemma NothingSoonerFor(links: seq<nat>, hint: nat, sectors: nat, total: nat, s: nat, j: nat)
    requires hint < sectors && s < sectors && j < LINKS_PER_SECTOR
    requires Searched(links, hint, sectors, total, StepsTo(hint, sectors, s))
    requires NoneFree(links, LINKS_PER_SECTOR * s, LINKS_PER_SECTOR * s + j)
    ensures forall c :: 0 <= c < |links| && c < SearchEnd(sectors, total) ==>
              (Sooner(hint, sectors, c, LINKS_PER_SECTOR * s + j) ==> links[c] != FREE_CLUSTER)
  {
    hide Searched, NoneFree, Sooner, StepsTo;
    var r := LINKS_PER_SECTOR * s + j;
    assert r / LINKS_PER_SECTOR == s;
    forall c | 0 <= c < |links| && c < SearchEnd(sectors, total) && Sooner(hint, sectors, c, r)
      ensures links[c] != FREE_CLUSTER
    {
      NothingSooner(links, hint, sectors, total, r, c);
    }
  }

  lemma StepsAreDistance(hint: nat, sectors: nat, s: nat)
    requires hint < sectors && s < sectors
    ensures (s + sectors - hint) % sectors == StepsTo(hint, sectors, s)
  {
    if hint <= s {
      assert s + sectors - hint == (s - hint) + sectors;
    }
  }

  /** The sector index and link count the loop computes. */
  lemma RoundTheTable(hint: nat, sectors: nat, i: nat, total: nat)
    requires hint < sectors && i < sectors
    ensures (hint + i) % sectors == SectorAt(hint, sectors, i) < sectors
    ensures LinkCount(sectors, total, SectorAt(hint, sectors, i)) ==
            if hint + i == sectors - 1 then total % LINKS_PER_SECTOR else LINKS_PER_SECTOR
  {
    if hint + i < sectors {
      SmallRemainder(hint + i, sectors, 0);
    } else {
      SmallRemainder(hint + i - sectors, sectors, 1);
    }
  }

  lemma SmallRemainder(r: nat, m: nat, k: nat)
    requires r < m && k <= 1
    ensures (r + k * m) % m == r
  {
  }

  lemma SearchOne(links: seq<nat>, hint: nat, sectors: nat, total: nat, i: nat)
    requires hint < sectors && i < sectors && Searched(links, hint, sectors, total, i)
    requires SectorFull(links, sectors, total, SectorAt(hint, sectors, i))
    ensures Searched(links, hint, sectors, total, i + 1)
  {
    forall s | 0 <= s < sectors && Visited(hint, sectors, s, i + 1)
      ensures SectorFull(links, sectors, total, s)
    {
      assert Visited(hint, sectors, s, i) || s == SectorAt(hint, sectors, i);
    }
  }

  /** After as many steps as there are sectors every sector has been visited. */
  lemma AllVisited(links: seq<nat>, hint: nat, sectors: nat, total: nat)
    requires hint < sectors && Searched(links, hint, sectors, total, sectors)
    ensures NoneFree(links, 0, SearchEnd(sectors, total))
  {
    forall c | 0 <= c < SearchEnd(sectors, total) && c < |links|
      ensures links[c] != FREE_CLUSTER
    {
      var s := c / LINKS_PER_SECTOR;
      assert s < sectors && Visited(hint, sectors, s, sectors);
      assert SectorFull(links, sectors, total, s);
    }
  }

  /** The search finds a free cluster whenever there is one if and only if the total is not a multiple
      of 128. */
  lemma SearchIsComplete(sectors: nat, total: nat)
    requires sectors > 0 && LINKS_PER_SECTOR * (sectors - 1) < total <= LINKS_PER_SECTOR * sectors
    ensures (forall links: seq<nat> ::
               |links| == LINKS_PER_SECTOR * sectors && NoneFree(links, 0, SearchEnd(sectors, total)) ==>
                 NoneFree(links, 0, total)) <==>
            total % LINKS_PER_SECTOR != 0
  {
    if total % LINKS_PER_SECTOR != 0 {
      assert SearchEnd(sectors, total) == total;
    } else {
      var links := seq(LINKS_PER_SECTOR * sectors, c => if c == total - 1 then FREE_CLUSTER else LAST_CLUSTER);
      assert NoneFree(links, 0, SearchEnd(sectors, total));
      assert links[total - 1] == FREE_CLUSTER;
    }
  }

  /** A disk of 1032 sectors is formatted with 128 clusters, none of which the search looks at: it finds no free
      cluster in any link table. */
  lemma SmallDiskLooksFull(links: seq<nat>)
    ensures FormattedClusters(1032) == 128 && LinkSectors(128) == 1 && SearchEnd(1, 128) == 0
    ensures NoneFree(links, 0, SearchEnd(1, 128))
  {
  }

  /** `part` is what `whole` holds from `at` on. */
  ghost predicate IsPart(part: seq<byte>, whole: seq<byte>, at: nat) {
    at + |part| <= |whole| && part == whole[at..at + |part|]
  }

  lemma PartsJoin(a: seq<byte>, b: seq<byte>, whole: seq<byte>, at: nat)
    requires IsPart(a, whole, at) && IsPart(b, whole, at + |a|)
    ensures IsPart(a + b, whole, at)
  {
  }

  /** With items of one byte counts and bytes are the same below 2^32. */
  /** The product of item size and count is taken in 32 bits; only whole items are counted. */
  lemma WholeItems(size: nat, count: nat)
    requires 0 < size
    ensures ByteCount(size, count) == size * count % 0x1_0000_0000
    ensures forall w: nat :: ItemCount(w, size) == w / size
  {
  }

  lemma OneByteItems(n: nat)
    requires n < DWORD_LIMIT
    ensures ByteCount(1, n) == n
    ensures forall w: nat :: ItemCount(w, 1) == w
  {
  }

  lemma ZeroBlocks(w: nat, n: nat, z: nat)
    requires z <= n
    ensures ZeroBlock(w) + ZeroBlock(n)[..z] == ZeroBlock(w + z)
  {
  }

  /** The handle after a write. */
  lemma WroteMoves(v: View, es: seq<DirectoryEntry>, hs: seq<Handle>, h: nat, d: seq<byte>,
                   w: View, fs: seq<DirectoryEntry>, ks: seq<Handle>)
    requires Wrote(v, es, hs, h, d, w, fs, ks)
    ensures h < |hs| == |ks| && hs[h].File? && ks[h].File? && ks[h].offset == hs[h].offset + |d| <= ks[h].size
    ensures ks[h].entry == hs[h].entry && ks[h].start == hs[h].start
  {
  }

  lemma TargetFits(h: Handle, offset: int, origin: Origin)
    requires h.File? && h.offset < DWORD_LIMIT && h.size < DWORD_LIMIT && offset < 0x8000_0000
    ensures SeekTarget(h, offset, origin) < DWORD_LIMIT
  {
  }

  /** A seek counts from the start, the cursor or the end of the file; before the start it leads to the start. */
  lemma SeekLeadsTo(h: Handle, offset: int, origin: Origin)
    requires h.File? && h.offset < DWORD_LIMIT && h.size < DWORD_LIMIT
    ensures var t := offset + if origin == SeekSet then 0 else if origin == SeekCurrent then h.offset else h.size;
            && (t <= 0 ==> SeekTarget(h, offset, origin) == 0)
            && (0 <= t < DWORD_LIMIT ==> SeekTarget(h, offset, origin) == t)
  {
  }

  /** Only the offset of the written handle matters to what a write does. */
  lemma WroteFromMoved(v: View, es: seq<DirectoryEntry>, hs: seq<Handle>, ks: seq<Handle>, h: nat, d: seq<byte>,
                       w: View, fs: seq<DirectoryEntry>, ls: seq<Handle>)
    requires h < |hs| && hs[h].File? && MovedCursor(hs, h, hs[h].size, ks) && Wrote(v, es, ks, h, d, w, fs, ls)
    ensures Wrote(v, es, hs[h := hs[h].(offset := hs[h].size)], h, d, w, fs, ls)
  {
    assert ks[h := ls[h]] == hs[h := hs[h].(offset := hs[h].size)][h := ls[h]];
  }

  class FileSystem {
    const link: Area
    const data: Area
    const temp: array<byte>
    const total: nat
    const handles: array<Handle>
    var hint: nat
    ghost var chains: seq<seq<nat>>

    /** Formats and mounts a disk of `sectorCount` sectors: one link sector per 128 clusters, all links
        free but the root's, and an empty root directory.  `was` is what the clusters held before. */
    constructor Format(sectorCount: nat, was: seq<Block>, cacheEnabled: bool)
      requires 10 <= sectorCount < DWORD_LIMIT
      requires |was| == FormattedClusters(sectorCount) && Sized(was, CLUSTER_SIZE)
      ensures Valid() && forall e :: 0 <= e < ENTRY_COUNT ==> Entries()[e].start == 0
      ensures total == FormattedClusters(sectorCount) && link.disk.Length == LinkSectors(total)
      ensures link.blocks == FormattedLinks(LinkSectors(total)) && data.blocks == was[0 := ZeroBlock(CLUSTER_SIZE)]
      ensures hint == 0 && forall h :: 0 <= h < handles.Length ==> handles[h] == Unused
      ensures fresh(link.Footprint()) && fresh(data.Footprint()) && fresh(temp) && fresh(handles)
    {
      hide Area.Valid, FileSystem.Valid, FileSystem.Entries, ZeroBlock, FormattedLinks, FormattedClusters,
          LinkSectors, Sized;
      FormatFits(sectorCount);
      RootCleared(was);
      var clusters := FormattedClusters(sectorCount);
      link := new Area(FormattedLinks(LinkSectors(clusters)), SECTOR_SIZE, cacheEnabled, LINK_BUFFERS);
      data := new Area(was[0 := ZeroBlock(CLUSTER_SIZE)], CLUSTER_SIZE, cacheEnabled, DATA_BUFFERS);
      temp := new byte[CLUSTER_SIZE];
      total := clusters;
      handles := new Handle[HANDLE_COUNT](_ => Unused);
      hint := 0;
      chains := seq(ENTRY_COUNT, _ => []);
      new;
      FormattedIsValid();
    }

    lemma FormattedIsValid()
      requires LinkReady() && DataReady() && hint == 0 && 0 < total <= |data.blocks|
      requires link.blocks == FormattedLinks(link.disk.Length) && data.blocks[0] == ZeroBlock(CLUSTER_SIZE)
      requires chains == seq(ENTRY_COUNT, _ => []) && forall h :: 0 <= h < handles.Length ==> handles[h] == Unused
      ensures Valid() && forall e :: 0 <= e < ENTRY_COUNT ==> Entries()[e].start == 0
    {
      hide Area.Valid, Fits, ZeroBlock, FormattedLinks, LinksOf, EntriesOf;
      link.VisibleBlocks();
      data.VisibleBlocks();
      LinkTableSize();
      RootCluster();
      FormattedIsSound(link.disk.Length, total, data.blocks, handles[..]);
      assert Look() == View(LinksOf(FormattedLinks(link.disk.Length)), data.blocks, seq(ENTRY_COUNT, _ => []));
    }

    /** The parts are separate objects, and the sizes on the mounted disk fit together. */
    ghost predicate Layout() {
      && link.Footprint() !! data.Footprint()
      && temp !in link.Footprint() && temp !in data.Footprint()
      && handles !in link.Footprint() && handles !in data.Footprint() && handles as object != temp as object
      && this !in link.Footprint() && this !in data.Footprint()
      && temp.Length == CLUSTER_SIZE
      && link.blockSize == SECTOR_SIZE && data.blockSize == CLUSTER_SIZE
      && 0 < link.disk.Length
      && LINKS_PER_SECTOR * (link.disk.Length - 1) < total <= LINKS_PER_SECTOR * link.disk.Length
      && LINKS_PER_SECTOR * link.disk.Length < LAST_CLUSTER && total <= data.disk.Length
    }

    ghost predicate LinkReady()
      reads link.Footprint()
    {
      Layout() && link.Valid()
    }

    ghost predicate DataReady()
      reads data.Footprint()
    {
      Layout() && data.Valid()
    }

    ghost function Links(): seq<nat>
      reads link
    {
      if Sized(link.blocks, SECTOR_SIZE) then LinksOf(link.blocks) else []
    }

    /** The search for a free cluster finds none. */
    ghost predicate Exhausted()
      reads link
    {
      0 < link.disk.Length && NoneFree(Links(), 0, SearchEnd(link.disk.Length, total))
    }

    /** Where the search for a free cluster ends. */
    ghost function End(): nat {
      if 0 < link.disk.Length then SearchEnd(link.disk.Length, total) else 0
    }

    /** The bytes the file of entry `e` can come to have. */
    ghost function Capacity(e: nat): nat
      reads this, link, data
    {
      CLUSTER_SIZE * Reach(Look(), e, End())
    }

    lemma ExhaustedMeansNone()
      ensures Exhausted() ==> FreeCount(Links(), End()) == 0
      ensures 0 < link.disk.Length && FreeCount(Links(), End()) == 0 ==> Exhausted()
    {
      hide FileSystem.Links;
      NoneCounted(Links(), End());
    }

    // ----- link table and clusters through the shared buffer -----

    method FillTemp(b: Block)
      requires |b| <= temp.Length
      modifies temp
      ensures temp[..] == b + old(temp[|b|..])
    {
      forall i | 0 <= i < |b| {
        temp[i] := b[i];
      }
    }

    /** Reads link sector `s` into the front of the shared buffer. */
    method ReadClusterLinkTable(s: nat)
      requires LinkReady() && s < link.disk.Length
      modifies temp, link.disk, link.table, link.table.buffers
      ensures LinkReady() && temp[..SECTOR_SIZE] == link.blocks[s]
    {
      hide Area.Valid;
      link.VisibleBlocks();
      var b := link.Read(s);
      FillTemp(b);
    }

    method WriteClusterLinkTable(s: nat)
      requires LinkReady() && s < link.disk.Length
      modifies link.Footprint()
      ensures LinkReady() && link.blocks == old(link.blocks)[s := temp[..SECTOR_SIZE]]
    {
      hide Area.Valid;
      link.VisibleBlocks();
      link.Write(s, temp[..SECTOR_SIZE]);
    }

    method ReadCluster(c: nat)
      requires DataReady() && c < data.disk.Length
      modifies temp, data.disk, data.table, data.table.buffers
      ensures DataReady() && temp[..] == data.blocks[c]
    {
      hide Area.Valid;
      data.VisibleBlocks();
      var b := data.Read(c);
      FillTemp(b);
    }

    method WriteCluster(c: nat)
      requires DataReady() && c < data.disk.Length
      modifies data.Footprint()
      ensures DataReady() && data.blocks == old(data.blocks)[c := temp[..]]
    {
      hide Area.Valid;
      data.VisibleBlocks();
      data.Write(c, temp[..]);
    }

    /** The link of a cluster.  The bounds check lets one sector too many through: for a cluster that would
        have its link there the result is whatever the disk holds behind the link area. */
    method GetClusterLinkData(c: nat) returns (ok: bool, v: nat)
      requires LinkReady()
      modifies temp, link.disk, link.table, link.table.buffers
      ensures LinkReady()
      ensures ok <==> c < |Links()| + LINKS_PER_SECTOR
      ensures c < |Links()| ==> v == Links()[c]
    {
      hide Area.Valid, FileSystem.Links, DwordAt;
      LinkTableSize();
      var s := c / LINKS_PER_SECTOR;
      if s > link.disk.Length {
        return false, 0;
      }
      if s == link.disk.Length {
        v :| v < DWORD_LIMIT;
        return true, v;
      }
      ReadClusterLinkTable(s);
      LinkInTemp(s, c % LINKS_PER_SECTOR);
      return true, DwordAt(temp[..], c % LINKS_PER_SECTOR);
    }

    /** Changes the link of one cluster. */
    method SetClusterLinkData(c: nat, v: nat)
      requires LinkReady() && c < |Links()| && v < DWORD_LIMIT
      modifies temp, link.Footprint()
      ensures LinkReady() && Links() == old(Links())[c := v]
    {
      hide Area.Valid, SetDword, LinksOf;
      LinkTableSize();
      SetLink(link.blocks, c, v);
      RewriteLink(c / LINKS_PER_SECTOR, c % LINKS_PER_SECTOR, v);
      link.VisibleBlocks();
    }

    method RewriteLink(s: nat, k: nat, v: nat)
      requires LinkReady() && s < link.disk.Length && k < LINKS_PER_SECTOR && v < DWORD_LIMIT
      requires |link.blocks| == link.disk.Length && Sized(link.blocks, SECTOR_SIZE)
      modifies temp, link.Footprint()
      ensures LinkReady() && link.blocks == old(link.blocks)[s := SetDword(old(link.blocks[s]), k, v)]
    {
      hide Area.Valid, SetDword;
      ReadClusterLinkTable(s);
      PutDword(k, v);
      WriteClusterLinkTable(s);
    }

    lemma LinkTableSize()
      requires LinkReady()
      ensures |Links()| == LINKS_PER_SECTOR * link.disk.Length == LINKS_PER_SECTOR * |link.blocks|
      ensures Sized(link.blocks, SECTOR_SIZE) && Links() == LinksOf(link.blocks)
    {
    }

    /** A word of the sector in the shared buffer is the link of its cluster. */
    lemma LinkInTemp(s: nat, j: nat)
      requires LinkReady() && s < link.disk.Length && j < LINKS_PER_SECTOR
      requires temp[..SECTOR_SIZE] == link.blocks[s]
      ensures LINKS_PER_SECTOR * s + j < |Links()|
      ensures DwordAt(temp[..], j) == Links()[LINKS_PER_SECTOR * s + j]
    {
      hide Area.Valid, DwordAt;
      LinkTableSize();
      SameDword(temp[..], temp[..SECTOR_SIZE], j);
      var c := LINKS_PER_SECTOR * s + j;
      assert LinksOf(link.blocks)[c] == LinkIn(link.blocks, c);
    }

    /** Stores a word into the sector at the front of the shared buffer. */
    method PutDword(k: nat, v: nat)
      requires temp.Length == CLUSTER_SIZE && k < LINKS_PER_SECTOR && v < DWORD_LIMIT
      modifies temp
      ensures temp[..SECTOR_SIZE] == SetDword(old(temp[..SECTOR_SIZE]), k, v)
    {
      var d := DwordBytes(v);
      temp[4 * k], temp[4 * k + 1], temp[4 * k + 2], temp[4 * k + 3] := d[0], d[1], d[2], d[3];
    }

    /** Searches the link table for a free cluster, sector by sector from the hint on and round to the
        sectors before it; of each sector the first free link is taken.  LAST_CLUSTER means none found. */
    method FindFreeCluster() returns (r: nat)
      requires LinkReady() && hint < link.disk.Length
      modifies this`hint, temp, link.disk, link.table, link.table.buffers
      ensures LinkReady() && hint < link.disk.Length
      ensures r == LAST_CLUSTER <==> Exhausted()
      ensures r == LAST_CLUSTER <==>
              forall c :: 0 <= c < 128 * (link.disk.Length - 1) + total % 128 && c < |Links()| ==> Links()[c] != 0
      ensures r != LAST_CLUSTER ==>
                forall c :: 0 <= c < |Links()| && c < 128 * (link.disk.Length - 1) + total % 128 ==>
                  (Sooner(old(hint), link.disk.Length, c, r) ==> Links()[c] != 0)
      ensures r != LAST_CLUSTER ==>
                && r < SearchEnd(link.disk.Length, total) && r < |Links()| && Links()[r] == FREE_CLUSTER
                && hint == r / LINKS_PER_SECTOR
                && Searched(Links(), old(hint), link.disk.Length, total, StepsTo(old(hint), link.disk.Length, hint))
                && NoneFree(Links(), LINKS_PER_SECTOR * hint, r)
    {
      hide Area.Valid, FileSystem.Links;
      var sectors := link.disk.Length;
      var last := hint;
      ghost var links := Links();
      var i := 0;
      while i < sectors
        invariant 0 <= i <= sectors && hint == last
        invariant LinkReady() && Links() == links
        invariant Searched(links, last, sectors, total, i)
      {
        var linkCount := if last + i == sectors - 1 then total % LINKS_PER_SECTOR else LINKS_PER_SECTOR;
        var current := (last + i) % sectors;
        RoundTheTable(last, sectors, i, total);
        StepsToSector(last, sectors, i);
        var j := SearchSector(current, linkCount);
        if j != linkCount {
          hint := current;
          NothingSoonerFor(links, last, sectors, total, current, j);
          return current * LINKS_PER_SECTOR + j;
        }
        SearchOne(links, last, sectors, total, i);
        i := i + 1;
      }
      AllVisited(Links(), last, sectors, total);
      return LAST_CLUSTER;
    }

    method SearchSector(s: nat, linkCount: nat) returns (j: nat)
      requires LinkReady() && s < link.disk.Length && linkCount == LinkCount(link.disk.Length, total, s)
      modifies temp, link.disk, link.table, link.table.buffers
      ensures LinkReady()
      ensures j <= linkCount && NoneFree(Links(), LINKS_PER_SECTOR * s, LINKS_PER_SECTOR * s + j)
      ensures j < linkCount ==>
                && LINKS_PER_SECTOR * s + j < SearchEnd(link.disk.Length, total)
                && LINKS_PER_SECTOR * s + j < |Links()| && Links()[LINKS_PER_SECTOR * s + j] == FREE_CLUSTER
                && (LINKS_PER_SECTOR * s + j) / LINKS_PER_SECTOR == s
    {
      hide Area.Valid, FileSystem.Links;
      ReadClusterLinkTable(s);
      j := FindFreeLink(s, linkCount);
    }

    /** The first free link among the first `linkCount` of the sector in the shared buffer. */
    method FindFreeLink(s: nat, linkCount: nat) returns (j: nat)
      requires LinkReady() && s < link.disk.Length && linkCount <= LINKS_PER_SECTOR
      requires temp[..SECTOR_SIZE] == link.blocks[s]
      ensures j <= linkCount && NoneFree(Links(), LINKS_PER_SECTOR * s, LINKS_PER_SECTOR * s + j)
      ensures j < linkCount ==>
                LINKS_PER_SECTOR * s + j < |Links()| && Links()[LINKS_PER_SECTOR * s + j] == FREE_CLUSTER
    {
      hide Area.Valid, FileSystem.Links, DwordAt;
      j := 0;
      while j < linkCount
        invariant 0 <= j <= linkCount
        invariant NoneFree(Links(), LINKS_PER_SECTOR * s, LINKS_PER_SECTOR * s + j)
      {
        LinkInTemp(s, j);
        if DwordAt(temp[..], j) == FREE_CLUSTER {
          break;
        }
        j := j + 1;
      }
    }

    // ----- the whole state -----

    ghost predicate Ready()
      reads this, link.Footprint(), data.Footprint()
    {
      LinkReady() && DataReady() && hint < link.disk.Length
    }

    ghost function Look(): View
      reads this, link, data
    {
      View(Links(), data.blocks, chains)
    }

    /** The root directory. */
    ghost function Entries(): (r: seq<DirectoryEntry>)
      reads data
      ensures |r| == ENTRY_COUNT
    {
      if |data.blocks| > 0 && |data.blocks[0]| == CLUSTER_SIZE then EntriesOf(data.blocks[0])
      else seq(ENTRY_COUNT, _ => DirectoryEntry([], 0, 0))
    }

    /** The link table, the directory and the handles fit together. */
    ghost predicate Valid()
      reads this, handles, link.Footprint(), data.Footprint()
    {
      Ready() && Fits(Look(), total, Entries(), handles[..])
    }

    /** The bytes of the file of a live entry. */
    ghost function Bytes(e: nat): seq<byte>
      reads this, link, data
    {
      if e < ENTRY_COUNT then ContentOf(Look(), e, Entries()[e].size) else []
    }

    /** Where the cursor of an open handle within its file stands. */
    lemma CursorFacts(h: nat)
      requires Valid() && h < handles.Length && handles[h].File? && handles[h].offset <= handles[h].size
      ensures var hd := handles[h];
              && hd.entry < |chains| && hd.entry < ENTRY_COUNT && Entries()[hd.entry].size == hd.size
              && IsChain(Links(), total, chains[hd.entry]) && Holds(data.blocks, chains[hd.entry])
              && CursorOk(chains[hd.entry], hd)
              && hd.size <= CLUSTER_SIZE * |chains[hd.entry]|
              && |ContentOf(Look(), hd.entry, hd.size)| == hd.size
              && ContentOf(Look(), hd.entry, hd.size) == FileBytes(data.blocks, chains[hd.entry], hd.size)
              && (hd.current == LAST_CLUSTER <==> hd.offset / CLUSTER_SIZE == |chains[hd.entry]|)
              && (hd.current == LAST_CLUSTER ==> hd.offset == hd.size == CLUSTER_SIZE * |chains[hd.entry]|)
              && (hd.current != LAST_CLUSTER ==>
                    && hd.offset / CLUSTER_SIZE < |chains[hd.entry]|
                    && hd.current == chains[hd.entry][hd.offset / CLUSTER_SIZE] < total <= data.disk.Length)
    {
      hide Area.Valid, FileSystem.Links, FileSystem.Entries, WellFormed;
      CursorInFile(Look(), total, Entries(), handles[h]);
    }

    /** The file is as long as its handle says; the cursor is off the chain only at its end. */
    lemma HandleFacts(h: nat)
      requires Valid() && h < handles.Length && handles[h].File? && handles[h].offset <= handles[h].size
      ensures |ContentOf(Look(), handles[h].entry, handles[h].size)| == handles[h].size
      ensures ContentOf(Look(), handles[h].entry, handles[h].size) == Bytes(handles[h].entry)
      ensures handles[h].current == LAST_CLUSTER ==> handles[h].offset == handles[h].size
    {
      hide ContentOf, FileBytes, WellFormed, FileSystem.Links, FileSystem.Valid, HandleOk, IsChain, CursorOk;
      CursorFacts(h);
    }

    // ----- reading -----

    /** Reads `size * count` bytes at the cursor, fewer at the end of the file. */
    method ReadFile(size: nat, count: nat, h: nat) returns (r: nat, out: seq<byte>)
      requires Valid() && 0 < size && h < handles.Length
      requires handles[h].File? ==> handles[h].offset <= handles[h].size
      modifies temp, handles, link.Footprint(), data.Footprint()
      ensures Valid() && Look() == old(Look()) && Entries() == old(Entries())
      ensures !old(handles[h].File?) ==> r == 0 && out == [] && handles[..] == old(handles[..])
      ensures old(handles[h].File?) ==>
                var was := old(handles[h]);
                was.offset <= was.size &&
                var n := Least(ByteCount(size, count), was.size - was.offset);
                && r == ItemCount(n, size) && |out| == n && IsPart(out, Bytes(was.entry), was.offset)
                && MovedTo(old(handles[..]), h, was.offset + n)
      ensures old(handles[h].File?) ==>
                && |out| == Least(size * count % 0x1_0000_0000, old(handles[h]).size - old(handles[h]).offset)
                && r == |out| / size && handles[h].File? && handles[h].offset == old(handles[h]).offset + |out|
    {
      hide FileSystem.Valid, FileSystem.Layout, FileSystem.Look, FileSystem.Entries, Area.Valid, ContentOf;
      hide ByteCount, ItemCount;
      WholeItems(size, count);
      if !handles[h].File? {
        return 0, [];
      }
      HandleFacts(h);
      if handles[h].offset == handles[h].size || handles[h].current == LAST_CLUSTER {
        return ItemCount(0, size), [];
      }
      out := ReadLoop(h, Least(ByteCount(size, count), handles[h].size - handles[h].offset));
      r := ItemCount(|out|, size);
    }

    /** The read loop: a piece from one cluster after the other. */
    method ReadLoop(h: nat, n: nat) returns (out: seq<byte>)
      requires Valid() && h < handles.Length && handles[h].File?
      requires handles[h].offset + n <= handles[h].size
      modifies temp, handles, link.Footprint(), data.Footprint()
      ensures Valid() && Look() == old(Look()) && Entries() == old(Entries())
      ensures IsPart(out, ContentOf(Look(), old(handles[h]).entry, old(handles[h]).size), old(handles[h]).offset)
      ensures |out| == n
      ensures MovedTo(old(handles[..]), h, old(handles[h]).offset + n)
    {
      hide FileSystem.Valid, FileSystem.Layout, FileSystem.Look, FileSystem.Entries, Area.Valid, ContentOf;
      HandleFacts(h);
      out := [];
      ghost var v, es, hs := Look(), Entries(), handles[..];
      ghost var bytes := ContentOf(v, hs[h].entry, hs[h].size);
      while |out| < n
        invariant |out| <= n && Valid() && Look() == v && Entries() == es
        invariant MovedTo(hs, h, hs[h].offset + |out|)
        invariant IsPart(out, bytes, hs[h].offset)
      {
        var piece := ReadStep(h, n - |out|);
        PartsJoin(out, piece, bytes, hs[h].offset);
        out := out + piece;
      }
    }

    /** Only handle `h` has changed since `was`, and of it only the cursor. */
    ghost predicate MovedTo(was: seq<Handle>, h: nat, offset: nat)
      reads handles
    {
      && |was| == handles.Length && h < |was| && was[h].File? && handles[h].File?
      && handles[h].entry == was[h].entry && handles[h].size == was[h].size && handles[h].start == was[h].start
      && handles[h].offset == offset
      && handles[..] == was[h := handles[h]]
    }

    /** Reads from the cluster under the cursor and moves the cursor, to the next cluster if need be. */
    method ReadStep(h: nat, todo: nat) returns (piece: seq<byte>)
      requires Valid() && h < handles.Length && handles[h].File?
      requires 0 < todo && handles[h].offset + todo <= handles[h].size
      modifies temp, handles, link.Footprint(), data.Footprint()
      ensures Valid() && Look() == old(Look()) && Entries() == old(Entries())
      ensures 0 < |piece| <= todo
      ensures IsPart(piece, ContentOf(Look(), old(handles[h]).entry, old(handles[h]).size), old(handles[h]).offset)
      ensures MovedTo(old(handles[..]), h, old(handles[h]).offset + |piece|)
    {
      hide FileSystem.Valid, FileSystem.Layout, FileSystem.Look, FileSystem.Entries, Area.Valid, ContentOf;
      piece := ReadUnderCursor(h, todo);
      MoveFileCursor(h, |piece|);
    }

    /** The bytes of the cluster under the cursor from the cursor on, at most `todo`. */
    method ReadUnderCursor(h: nat, todo: nat) returns (piece: seq<byte>)
      requires h < handles.Length && handles[h].File? && Valid()
      requires 0 < todo && handles[h].offset + todo <= handles[h].size
      modifies temp, data.disk, data.table, data.table.buffers
      ensures Valid() && Look() == old(Look()) && Entries() == old(Entries())
      ensures 0 < |piece| <= todo && handles[h].offset % CLUSTER_SIZE + |piece| <= CLUSTER_SIZE
      ensures IsPart(piece, ContentOf(Look(), old(handles[h]).entry, old(handles[h]).size), old(handles[h]).offset)
    {
      hide Area.Valid, HandlesOk, Sound, Tidy, FileSystem.Links, FileSystem.Entries, ContentOf, FileBytes, IsChain,
          CursorOk;
      CursorFacts(h);
      ReadCluster(handles[h].current);
      var o := handles[h].offset % CLUSTER_SIZE;
      var n := Least(CLUSTER_SIZE - o, todo);
      piece := temp[o..o + n];
      ReadPiece(data.blocks, chains[handles[h].entry], handles[h].size, handles[h].offset, n);
    }

    /** Moves the cursor of a handle whose file stays as it is. */
    method MoveFileCursor(h: nat, n: nat)
      requires Valid() && h < handles.Length && handles[h].File?
      requires 0 < n && handles[h].offset + n <= handles[h].size
      requires handles[h].offset % CLUSTER_SIZE + n <= CLUSTER_SIZE
      modifies temp, handles, link.disk, link.table, link.table.buffers
      ensures Valid() && Look() == old(Look()) && Entries() == old(Entries())
      ensures MovedTo(old(handles[..]), h, old(handles[h]).offset + n)
    {
      hide Area.Valid, WellFormed, FileSystem.Links;
      ghost var was := handles[..];
      CursorInFile(Look(), total, Entries(), handles[h]);
      MoveCursor(h, n);
      OnlyHandle(was, Entries(), chains, h, handles[h]);
    }

    /** Moves the cursor by `n` bytes of the current cluster. */
    method MoveCursor(h: nat, n: nat)
      requires Ready() && h < handles.Length && handles[h].File?
      requires handles[h].entry < |chains| && IsChain(Links(), total, chains[handles[h].entry])
      requires CursorOk(chains[handles[h].entry], handles[h])
      requires handles[h].offset / CLUSTER_SIZE < |chains[handles[h].entry]|
      requires 0 < n && handles[h].offset % CLUSTER_SIZE + n <= CLUSTER_SIZE
      modifies temp, handles, link.disk, link.table, link.table.buffers
      ensures Ready() && Links() == old(Links())
      ensures MovedTo(old(handles[..]), h, old(handles[h]).offset + n)
      ensures CursorOk(chains[handles[h].entry], handles[h])
    {
      hide Area.Valid, WellFormed, FileSystem.Links;
      ghost var was, chain := handles[h], chains[handles[h].entry];
      ghost var v := Links()[was.current];
      AdvanceKeepsCursor(Links(), total, chain, was, n, v);
      handles[h] := handles[h].(offset := handles[h].offset + n);
      if handles[h].offset % CLUSTER_SIZE == 0 {
        var ok, next := GetClusterLinkData(handles[h].current);
        handles[h] := handles[h].(previous := handles[h].current, current := next);
      }
      assert handles[h] == Advance(was, n, v);
    }

    // ----- writing -----

    /** In the middle of a write through handle `h`: since the state `v`, `es`, `hs` the bytes `d` have
        been written at the cursor, the directory is still the old one, and the cursor has moved on. */
    ghost predicate Writing(v: View, es: seq<DirectoryEntry>, hs: seq<Handle>, h: nat, d: seq<byte>, room: nat)
      reads this, handles, link.Footprint(), data.Footprint()
    {
      && Ready() && Entries() == es && |es| == ENTRY_COUNT
      && h < |hs| && hs[h].File? && hs[h].entry < ENTRY_COUNT
      && es[hs[h].entry].size == hs[h].size
      && Written(v, Look(), total, Starts(es), Sizes(es), hs[h].entry, hs[h].offset, d, room)
      && MovedTo(hs, h, hs[h].offset + |d|)
      && CursorOk(chains[hs[h].entry], handles[h])
      && Reach(Look(), hs[h].entry, End()) == Reach(v, hs[h].entry, End())
    }

    /** The length of the file in the middle of a write. */
    ghost function SizeNow(hs: seq<Handle>, h: nat, d: seq<byte>): nat {
      if h < |hs| && hs[h].File? then Larger(hs[h].size, hs[h].offset + |d|) else 0
    }

    /** Where the cursor stands in the middle of a write. */
    lemma WritingFacts(v: View, es: seq<DirectoryEntry>, hs: seq<Handle>, h: nat, d: seq<byte>, room: nat)
      requires Writing(v, es, hs, h, d, room)
      ensures var e, at := hs[h].entry, hs[h].offset + |d|;
              && e < |chains| == ENTRY_COUNT && IsChain(Links(), total, chains[e]) && Holds(data.blocks, chains[e])
              && 0 !in chains[e] && |chains[e]| == ClusterCount(room) && total <= |data.blocks|
              && handles[h].File? && handles[h].entry == e && handles[h].offset == at <= SizeNow(hs, h, d) <= room
    {
      hide Area.Valid, FileSystem.Links, FileSystem.Entries, WellFormed;
      SoundHolds(Look(), total, Starts(es), Sizes(es)[hs[h].entry := room], hs[h].entry);
    }

    /** The file never outgrows what it can come to have. */
    lemma WithinReach(v: View, es: seq<DirectoryEntry>, hs: seq<Handle>, h: nat, d: seq<byte>)
      requires Writing(v, es, hs, h, d, SizeNow(hs, h, d))
      ensures hs[h].offset + |d| <= SizeNow(hs, h, d) <= CLUSTER_SIZE * Reach(v, hs[h].entry, End())
    {
      hide Area.Valid, FileSystem.Links, FileSystem.Entries, WellFormed, Written, IsChain;
      WritingFacts(v, es, hs, h, d, SizeNow(hs, h, d));
      OffsetOnChain(chains[hs[h].entry], SizeNow(hs, h, d), 0);
    }

    /** Links a free cluster behind the last one of the file.  It fails only if the search finds none,
        and then nothing has changed. */
    method ExtendFile(ghost v: View, ghost es: seq<DirectoryEntry>, ghost hs: seq<Handle>, h: nat, ghost d: seq<byte>)
      returns (found: bool)
      requires Writing(v, es, hs, h, d, SizeNow(hs, h, d)) && handles[h].current == LAST_CLUSTER
      modifies this`hint, this`chains, temp, handles, link.Footprint()
      ensures !found ==> Writing(v, es, hs, h, d, SizeNow(hs, h, d))
      ensures !found ==> handles[h].offset == SizeNow(hs, h, d) && Exhausted()
      ensures !found ==> hs[h].offset + |d| == CLUSTER_SIZE * Reach(v, hs[h].entry, End())
      ensures found ==> Writing(v, es, hs, h, d, SizeNow(hs, h, d) + 1)
      ensures found ==> handles[h].offset == SizeNow(hs, h, d) && handles[h].offset % CLUSTER_SIZE == 0
      ensures found ==> handles[h].current != LAST_CLUSTER
    {
      hide Area.Valid, FileSystem.Links, FileSystem.Entries, WellFormed, Written, IsChain;
      ghost var w, e, size := Look(), hs[h].entry, SizeNow(hs, h, d);
      WritingFacts(v, es, hs, h, d, size);
      AtEndOfChain(v, es, hs, h, d);
      var c := FindFreeCluster();
      if c == LAST_CLUSTER {
        ExhaustedMeansNone();
        return false;
      }
      assert Look() == w;
      FoundIsUsable(v, es, hs, h, d, size, c);
      ExtendStep(v, w, total, Starts(es), Sizes(es), e, hs[h].offset, d, size, c);
      ExtendReach(w, total, e, c, End());
      LinkBehind(h, c);
      chains := chains[e := chains[e] + [c]];
      assert Look() == Extended(w, e, c);
      found := true;
    }

    /** The cluster under the cursor exists. */
    lemma CurrentExists(v: View, es: seq<DirectoryEntry>, hs: seq<Handle>, h: nat, d: seq<byte>, room: nat)
      requires Writing(v, es, hs, h, d, room) && handles[h].current != LAST_CLUSTER
      ensures handles[h].current < |data.blocks| == data.disk.Length
    {
      hide FileSystem.Links, FileSystem.Entries, Written;
      WritingFacts(v, es, hs, h, d, room);
    }

    /** The cursor that has run off the chain stands at the end of a file of whole clusters. */
    lemma AtEndOfChain(v: View, es: seq<DirectoryEntry>, hs: seq<Handle>, h: nat, d: seq<byte>)
      requires Writing(v, es, hs, h, d, SizeNow(hs, h, d)) && handles[h].current == LAST_CLUSTER
      ensures var chain := chains[hs[h].entry];
              && |chain| > 0 && handles[h].offset == SizeNow(hs, h, d) == CLUSTER_SIZE * |chain|
              && handles[h].previous == chain[|chain| - 1] < total
    {
      hide Area.Valid, FileSystem.Links, FileSystem.Entries, WellFormed, Written;
      WritingFacts(v, es, hs, h, d, SizeNow(hs, h, d));
      OffsetOnChain(chains[hs[h].entry], SizeNow(hs, h, d), handles[h].offset);
    }

    /** The cluster found is not the root's. */
    lemma FoundIsUsable(v: View, es: seq<DirectoryEntry>, hs: seq<Handle>, h: nat, d: seq<byte>, room: nat, c: nat)
      requires Writing(v, es, hs, h, d, room)
      requires c < SearchEnd(link.disk.Length, total) && c < |Links()| && Links()[c] == FREE_CLUSTER
      ensures 1 <= c < total
    {
      hide Area.Valid, FileSystem.Links, FileSystem.Entries, IsChain;
    }

    /** Marks `c` as the last cluster and links it behind the cluster before the cursor. */
    method LinkBehind(h: nat, c: nat)
      requires LinkReady() && h < handles.Length && handles[h].File?
      requires c < |Links()| && handles[h].previous < |Links()| && c < LAST_CLUSTER
      modifies temp, handles, link.Footprint()
      ensures LinkReady() && Links() == old(Links())[c := LAST_CLUSTER][old(handles[h]).previous := c]
      ensures handles[..] == old(handles[..])[h := old(handles[h]).(current := c)]
    {
      hide Area.Valid, FileSystem.Links;
      SetClusterLinkData(c, LAST_CLUSTER);
      SetClusterLinkData(handles[h].previous, c);
      handles[h] := handles[h].(current := c);
    }

    /** Copies `piece` into the shared buffer. */
    method PatchTemp(o: nat, piece: seq<byte>)
      requires o + |piece| <= temp.Length
      modifies temp
      ensures temp[..] == old(temp[..])[..o] + piece + old(temp[..])[o + |piece|..]
    {
      forall i | 0 <= i < |piece| {
        temp[o + i] := piece[i];
      }
    }

    /** Stores the shared buffer with `piece` copied into it as the cluster under the cursor and moves the
        cursor on. */
    method StorePiece(ghost v: View, ghost es: seq<DirectoryEntry>, ghost hs: seq<Handle>, h: nat, ghost d: seq<byte>,
                      ghost room: nat, piece: seq<byte>)
      requires Writing(v, es, hs, h, d, room) && handles[h].current != LAST_CLUSTER
      requires room == SizeNow(hs, h, d) || (room == SizeNow(hs, h, d) + 1 && handles[h].offset == SizeNow(hs, h, d))
      requires 0 < |piece| && handles[h].offset % CLUSTER_SIZE + |piece| <= CLUSTER_SIZE
      requires handles[h].current < |data.blocks|
      requires temp[..] == data.blocks[handles[h].current] || |piece| == CLUSTER_SIZE ||
               (handles[h].offset == SizeNow(hs, h, d) && handles[h].offset % CLUSTER_SIZE == 0)
      modifies temp, handles, link.Footprint(), data.Footprint()
      ensures Writing(v, es, hs, h, d + piece, SizeNow(hs, h, d + piece))
    {
      hide Area.Valid, FileSystem.Links, FileSystem.Entries, WellFormed, Written, IsChain, Patches;
      WritingFacts(v, es, hs, h, d, room);
      StoreUnderCursor(v, es, hs, h, d, room, piece);
      MoveCursor(h, |piece|);
    }

    /** The first half of that: the file has grown, the cursor has yet to move. */
    method StoreUnderCursor(ghost v: View, ghost es: seq<DirectoryEntry>, ghost hs: seq<Handle>, h: nat,
                            ghost d: seq<byte>, ghost room: nat, piece: seq<byte>)
      requires Writing(v, es, hs, h, d, room) && handles[h].current != LAST_CLUSTER
      requires room == SizeNow(hs, h, d) || (room == SizeNow(hs, h, d) + 1 && handles[h].offset == SizeNow(hs, h, d))
      requires 0 < |piece| && handles[h].offset % CLUSTER_SIZE + |piece| <= CLUSTER_SIZE
      requires handles[h].current < |data.blocks|
      requires temp[..] == data.blocks[handles[h].current] || |piece| == CLUSTER_SIZE ||
               (handles[h].offset == SizeNow(hs, h, d) && handles[h].offset % CLUSTER_SIZE == 0)
      modifies temp, data.Footprint()
      ensures Ready() && Entries() == es && Links() == old(Links())
      ensures Reach(Look(), hs[h].entry, End()) == Reach(v, hs[h].entry, End())
      ensures Written(v, Look(), total, Starts(es), Sizes(es), hs[h].entry, hs[h].offset, d + piece,
                      SizeNow(hs, h, d + piece))
    {
      hide Area.Valid, FileSystem.Links, WellFormed, Written, IsChain, Patches, EntriesOf;
      ghost var w, e := Look(), hs[h].entry;
      ghost var at, was, before := handles[h].offset, data.blocks[handles[h].current], temp[..];
      WritingFacts(v, es, hs, h, d, room);
      data.VisibleBlocks();
      PatchTemp(handles[h].offset % CLUSTER_SIZE, piece);
      WriteCluster(handles[h].current);
      PatchedBuffer(was, before, temp[..], at, piece, SizeNow(hs, h, d));
      assert Look() == Stored(w, e, at, temp[..]);
      StoreStep(v, w, total, Starts(es), Sizes(es), e, hs[h].offset, d, room, piece, temp[..]);
    }

    /** The write loop: one cluster after the other, linking new clusters at the end of the chain. */
    method WriteLoop(ghost v: View, ghost es: seq<DirectoryEntry>, ghost hs: seq<Handle>, h: nat, d: seq<byte>)
      returns (w: nat)
      requires Writing(v, es, hs, h, [], SizeNow(hs, h, []))
      modifies this`hint, this`chains, temp, handles, link.Footprint(), data.Footprint()
      ensures w <= |d| && Writing(v, es, hs, h, d[..w], SizeNow(hs, h, d[..w]))
      ensures w < |d| ==> handles[h].offset == SizeNow(hs, h, d[..w]) && Exhausted()
      ensures w < |d| ==> h < |hs| && hs[h].File? && hs[h].offset + w == CLUSTER_SIZE * Reach(v, hs[h].entry, End())
    {
      hide FileSystem.Writing, Area.Valid, FileSystem.Layout, FileSystem.Links;
      w := 0;
      assert d[..0] == [];
      while w < |d|
        invariant w <= |d| && Writing(v, es, hs, h, d[..w], SizeNow(hs, h, d[..w]))
      {
        var n := WriteStep(v, es, hs, h, d[..w], d[w..]);
        assert d[..w] + d[w..][..n] == d[..w + n];
        if n == 0 {
          break;
        }
        w := w + n;
      }
    }

    /** One turn of the write loop; nothing is written only if the disk is full. */
    method WriteStep(ghost v: View, ghost es: seq<DirectoryEntry>, ghost hs: seq<Handle>, h: nat,
                     ghost done: seq<byte>, rest: seq<byte>) returns (n: nat)
      requires Writing(v, es, hs, h, done, SizeNow(hs, h, done)) && 0 < |rest|
      modifies this`hint, this`chains, temp, handles, link.Footprint(), data.Footprint()
      ensures n <= |rest| && Writing(v, es, hs, h, done + rest[..n], SizeNow(hs, h, done + rest[..n]))
      ensures n == 0 ==> handles[h].offset == SizeNow(hs, h, done) && Exhausted()
      ensures n == 0 ==> h < |hs| && hs[h].File? && hs[h].offset + |done| == CLUSTER_SIZE * Reach(v, hs[h].entry, End())
    {
      hide Area.Valid, FileSystem.Links, FileSystem.Entries, Written, IsChain;
      assert done + rest[..0] == done;
      WritingFacts(v, es, hs, h, done, SizeNow(hs, h, done));
      ghost var room := SizeNow(hs, h, done);
      if handles[h].current == LAST_CLUSTER {
        var found := ExtendFile(v, es, hs, h, done);
        if !found {
          return 0;
        }
        room := room + 1;
      } else if handles[h].offset % CLUSTER_SIZE != 0 || |rest| < CLUSTER_SIZE {
        CurrentExists(v, es, hs, h, done, room);
        ReadCluster(handles[h].current);
      }
      CurrentExists(v, es, hs, h, done, room);
      n := Least(CLUSTER_SIZE - handles[h].offset % CLUSTER_SIZE, |rest|);
      StorePiece(v, es, hs, h, done, room, rest[..n]);
    }

    // ----- the root directory -----

    lemma RootCluster()
      requires DataReady()
      ensures |data.blocks| == data.disk.Length > 0 && Sized(data.blocks, CLUSTER_SIZE)
      ensures Entries() == EntriesOf(data.blocks[0])
    {
    }

    /** The first unused entry, or -1. */
    method FindFreeDirectoryEntry() returns (r: int)
      requires DataReady()
      modifies temp, data.disk, data.table, data.table.buffers
      ensures DataReady() && -1 <= r < ENTRY_COUNT
      ensures r >= 0 ==> Entries()[r].start == 0 && forall i :: 0 <= i < r ==> Entries()[i].start != 0
      ensures r == -1 ==> forall i :: 0 <= i < ENTRY_COUNT ==> Entries()[i].start != 0
    {
      hide Area.Valid, DwordAt, FileSystem.Entries;
      RootCluster();
      ReadCluster(0);
      var i := 0;
      while i < ENTRY_COUNT
        invariant 0 <= i <= ENTRY_COUNT
        invariant forall k :: 0 <= k < i ==> Entries()[k].start != 0
      {
        assert Entries()[i] == EntryAt(temp[..], i);
        if DwordAt(temp[..], 8 * i + 7) == 0 {
          return i;
        }
        i := i + 1;
      }
      return -1;
    }

    /** Of the clusters only the root's has changed, to `b`. */
    ghost predicate RootIs(was: seq<Block>, b: Block)
      reads data
    {
      |was| > 0 && data.blocks == was[0 := b]
    }

    /** Stores one entry of the root directory. */
    method SetDirectoryEntryData(i: int, e: DirectoryEntry) returns (ok: bool)
      requires DataReady() && ValidEntry(e)
      modifies temp, data.Footprint()
      ensures DataReady() && (ok <==> 0 <= i < ENTRY_COUNT)
      ensures ok ==> exists b: Block :: |b| == CLUSTER_SIZE && RootIs(old(data.blocks), b)
      ensures Entries() == if ok then old(Entries())[i := e] else old(Entries())
      ensures !ok ==> data.blocks == old(data.blocks)
    {
      hide Area.Valid, SetEntry, EntriesOf;
      if i < 0 || i >= ENTRY_COUNT {
        return false;
      }
      RootCluster();
      SetEntryUpdates(data.blocks[0], i, e);
      ReadCluster(0);
      PutEntry(i, e);
      ghost var was := data.blocks;
      WriteCluster(0);
      RootCluster();
      assert RootIs(was, temp[..]);
      ok := true;
    }

    /** Copies an entry into the directory in the shared buffer. */
    method PutEntry(i: nat, e: DirectoryEntry)
      requires temp.Length == CLUSTER_SIZE && i < ENTRY_COUNT && ValidEntry(e)
      modifies temp
      ensures temp[..] == SetEntry(old(temp[..]), i, e)
    {
      var bytes := e.name + DwordBytes(e.size) + DwordBytes(e.start);
      PatchTemp(ENTRY_SIZE * i, bytes);
    }

    method GetDirectoryEntryData(i: int) returns (ok: bool, e: DirectoryEntry)
      requires DataReady()
      modifies temp, data.disk, data.table, data.table.buffers
      ensures DataReady() && (ok <==> 0 <= i < ENTRY_COUNT)
      ensures ok ==> e == Entries()[i] && ValidEntry(e)
    {
      hide Area.Valid, EntryAt, FileSystem.Entries;
      if i < 0 || i >= ENTRY_COUNT {
        return false, DirectoryEntry([], 0, 0);
      }
      RootCluster();
      ReadCluster(0);
      ok, e := true, EntryAt(temp[..], i);
    }

    /** The first entry whose name field begins with `name`, or -1. */
    method FindDirectoryEntry(name: seq<byte>) returns (r: int, e: DirectoryEntry)
      requires DataReady() && |name| < NAME_SIZE
      modifies temp, data.disk, data.table, data.table.buffers
      ensures DataReady() && -1 <= r < ENTRY_COUNT
      ensures r == FirstMatch(Entries(), name, 0)
      ensures r >= 0 ==> e == Entries()[r] && ValidEntry(e)
    {
      hide Area.Valid, EntryAt, FileSystem.Entries;
      RootCluster();
      ReadCluster(0);
      e := DirectoryEntry([], 0, 0);
      var i := 0;
      while i < ENTRY_COUNT
        invariant 0 <= i <= ENTRY_COUNT
        invariant FirstMatch(Entries(), name, i) == FirstMatch(Entries(), name, 0)
      {
        var entry := EntryAt(temp[..], i);
        assert entry == Entries()[i];
        if name <= entry.name {
          return i, entry;
        }
        i := i + 1;
      }
      r := -1;
    }

    /** Writes a handle's size and first cluster into its directory entry. */
    method UpdateDirectoryEntry(h: nat) returns (ok: bool)
      requires DataReady() && h < handles.Length && handles[h].File?
      requires handles[h].size < DWORD_LIMIT && handles[h].start < DWORD_LIMIT && handles[h].entry < ENTRY_COUNT
      modifies temp, data.Footprint()
      ensures DataReady() && ok
      ensures var e := handles[h].entry;
              Entries() == old(Entries())[e := old(Entries())[e].(size := handles[h].size, start := handles[h].start)]
      ensures exists b: Block :: |b| == CLUSTER_SIZE && RootIs(old(data.blocks), b)
    {
      hide Area.Valid, FileSystem.Entries;
      var found, e := GetDirectoryEntryData(handles[h].entry);
      if !found {
        return false;
      }
      e := e.(size := handles[h].size, start := handles[h].start);
      ok := SetDirectoryEntryData(handles[h].entry, e);
    }

    /** The end of a write: if the file has grown, its size goes into the handle and the directory. */
    method FinishWrite(ghost v: View, ghost es: seq<DirectoryEntry>, ghost hs: seq<Handle>, h: nat, ghost d: seq<byte>)
      requires h < |hs| && h < handles.Length && hs[h].File? && handles[h].File? && hs[h].entry < |es|
      requires Writing(v, es, hs, h, d, SizeNow(hs, h, d)) && HandlesOk(hs, es, v.chains)
      requires Tidy(es) && NamesDiffer(es)
      requires SizeNow(hs, h, d) < DWORD_LIMIT && hs[h].start < DWORD_LIMIT
      modifies temp, handles, data.Footprint()
      ensures Valid() && Links() == old(Links()) && Reach(Look(), hs[h].entry, End()) == Reach(v, hs[h].entry, End())
      ensures Entries() == Resized(es, hs[h].entry, SizeNow(hs, h, d))
      ensures handles[..] == old(handles[..])[h := old(handles[h]).(size := SizeNow(hs, h, d))]
      ensures hs[h].offset <= |ContentOf(v, hs[h].entry, hs[h].size)|
      ensures ContentOf(Look(), hs[h].entry, SizeNow(hs, h, d)) ==
              Overwrite(ContentOf(v, hs[h].entry, hs[h].size), hs[h].offset, d)
      ensures OthersKept(v, Look(), Starts(es), Sizes(es), hs[h].entry)
    {
      hide Area.Valid, FileSystem.Links, FileSystem.Entries, WellFormed, Sound, OthersKept, Overwrite, ContentOf;
      hide WrittenBytes, IsChain, HandlesOk, Starts, Sizes;
      ghost var w, e, size := Look(), hs[h].entry, SizeNow(hs, h, d);
      WritingFacts(v, es, hs, h, d, size);
      WriteEnds(v, w, total, Starts(es), Sizes(es), e, hs[h].offset, d);
      ResizedColumns(es, e, size);
      ResizedTidy(es, e, size);
      StoredEntry(hs, es, v.chains, h, size);
      if handles[h].size < handles[h].offset {
        handles[h] := handles[h].(size := handles[h].offset);
        var ok := UpdateDirectoryEntry(h);
        RootCluster();
        WriteEndsWithRoot(v, w, total, Starts(es), Sizes(es), e, hs[h].offset, d, data.blocks[0]);
      }
      HandlesAfterWrite(hs, handles[..], es, v.chains, chains, h, size);
    }

    /** Writes `size * count` bytes at the cursor, or as many as the free clusters can take. */
    method WriteFile(buffer: seq<byte>, size: nat, count: nat, h: nat) returns (r: nat, ghost w: nat)
      requires Valid() && 0 < size && h < handles.Length && ByteCount(size, count) <= |buffer|
      requires handles[h].File? ==>
                 && handles[h].offset <= handles[h].size
                 && handles[h].offset + ByteCount(size, count) < DWORD_LIMIT
      modifies this`hint, this`chains, temp, handles, link.Footprint(), data.Footprint()
      ensures Valid()
      ensures !old(handles[h].File?) ==> r == 0 && w == 0 && handles[..] == old(handles[..])
      ensures !old(handles[h].File?) ==> Look() == old(Look()) && Entries() == old(Entries())
      ensures old(handles[h].File?) ==> w <= ByteCount(size, count) && r == ItemCount(w, size)
      ensures old(handles[h].File?) ==>
                Wrote(old(Look()), old(Entries()), old(handles[..]), h, buffer[..w], Look(), Entries(), handles[..])
      ensures old(handles[h].File?) ==>
                && old(handles[h]).offset <= old(Capacity(handles[h].entry)) == Capacity(old(handles[h]).entry)
                && w == Least(ByteCount(size, count), Capacity(old(handles[h]).entry) - old(handles[h]).offset)
      ensures old(handles[h].File?) && w < ByteCount(size, count) ==>
                handles[h].File? && handles[h].offset == handles[h].size && Exhausted()
      ensures old(handles[h].File?) ==>
                && (w < size * count % 0x1_0000_0000 ==> Exhausted()) && w <= size * count % 0x1_0000_0000
                && r == w / size
    {
      hide FileSystem.Valid, FileSystem.Layout, FileSystem.Look, FileSystem.Entries, Area.Valid, FileSystem.Links;
      hide ByteCount, ItemCount, Wrote, Overwrite, FileSystem.Capacity;
      w := 0;
      WholeItems(size, count);
      if !handles[h].File? {
        return 0, w;
      }
      var written := WriteBytes(h, buffer[..ByteCount(size, count)]);
      w := written;
      assert buffer[..ByteCount(size, count)][..w] == buffer[..w];
      r := ItemCount(written, size);
    }

    /** Writes `d` at the cursor. */
    method WriteBytes(h: nat, d: seq<byte>) returns (w: nat)
      requires Valid() && h < handles.Length && handles[h].File?
      requires handles[h].offset <= handles[h].size && handles[h].offset + |d| < DWORD_LIMIT
      modifies this`hint, this`chains, temp, handles, link.Footprint(), data.Footprint()
      ensures Valid() && w <= |d|
      ensures Wrote(old(Look()), old(Entries()), old(handles[..]), h, d[..w], Look(), Entries(), handles[..])
      ensures old(handles[h]).offset <= old(Capacity(handles[h].entry)) == Capacity(old(handles[h]).entry)
      ensures w == Least(|d|, Capacity(old(handles[h]).entry) - old(handles[h]).offset)
      ensures w < |d| ==>
                handles[h].File? && handles[h].offset == handles[h].size && Exhausted()
    {
      hide Area.Valid, FileSystem.Layout, FileSystem.Links, FileSystem.Entries, WellFormed, ContentOf, Overwrite,
          OthersKept;
      ghost var v, es, hs := Look(), Entries(), handles[..];
      StartWrite(h);
      w := WriteLoop(v, es, hs, h, d);
      WithinReach(v, es, hs, h, d[..w]);
      FinishWrite(v, es, hs, h, d[..w]);
    }

    /** Before the first byte is written. */
    lemma StartWrite(h: nat)
      requires Valid() && h < handles.Length && handles[h].File? && handles[h].offset <= handles[h].size
      ensures Writing(Look(), Entries(), handles[..], h, [], SizeNow(handles[..], h, []))
      ensures handles[h].offset <= |ContentOf(Look(), handles[h].entry, handles[h].size)| == handles[h].size
      ensures handles[h].size < DWORD_LIMIT && handles[h].start < DWORD_LIMIT
    {
      hide Area.Valid, FileSystem.Links, WellFormed, Written, IsChain;
      CursorFacts(h);
      WriteStarts(Look(), total, Starts(Entries()), Sizes(Entries()), handles[h].entry, handles[h].offset);
    }

    // ----- seeking -----

    /** Appends `count` zero bytes, cluster by cluster, through a buffer from the heap if there is room
        for one. */
    method WriteZero(h: nat, count: nat, heapHasRoom: bool) returns (ok: bool, ghost w: nat)
      requires Valid() && h < handles.Length && handles[h].File?
      requires handles[h].offset <= handles[h].size && handles[h].offset + count < DWORD_LIMIT
      modifies this`hint, this`chains, temp, handles, link.Footprint(), data.Footprint()
      ensures Valid() && w <= count && (ok ==> w == count)
      ensures Wrote(old(Look()), old(Entries()), old(handles[..]), h, ZeroBlock(w), Look(), Entries(), handles[..])
      ensures !ok && heapHasRoom ==> Exhausted()
      ensures old(handles[h]).offset <= old(Capacity(handles[h].entry)) == Capacity(old(handles[h]).entry)
      ensures w == if heapHasRoom then Least(count, Capacity(old(handles[h]).entry) - old(handles[h]).offset) else 0
    {
      hide FileSystem.Valid, FileSystem.Layout, FileSystem.Look, FileSystem.Entries, Area.Valid, FileSystem.Links;
      hide Wrote, ByteCount, ItemCount, ZeroBlock, FileSystem.Capacity;
      ghost var v, es, hs := Look(), Entries(), handles[..];
      CursorWithinCapacity(h);
      WroteNothing(h);
      w := 0;
      if !heapHasRoom {
        return false, w;
      }
      var remain := count;
      while remain != 0
        invariant 0 <= remain <= count && w == count - remain
        invariant Valid() && Wrote(v, es, hs, h, ZeroBlock(w), Look(), Entries(), handles[..])
        invariant hs[h].offset + w <= Capacity(hs[h].entry) == old(Capacity(handles[h].entry))
        decreases remain
      {
        var n := Least(remain, CLUSTER_SIZE);
        WroteMoves(v, es, hs, h, ZeroBlock(w), Look(), Entries(), handles[..]);
        OneByteItems(n);
        ghost var x, fs, ks := Look(), Entries(), handles[..];
        var written;
        ghost var z;
        written, z := WriteFile(ZeroBlock(n), 1, n, h);
        WroteTwice(v, es, hs, h, ZeroBlock(w), x, fs, ks, ZeroBlock(n)[..z], Look(), Entries(), handles[..]);
        ZeroBlocks(w, n, z);
        w := w + z;
        if written != n {
          return false, w;
        }
        remain := remain - n;
      }
      ok := true;
    }

    lemma CursorWithinCapacity(h: nat)
      requires Valid() && h < handles.Length && handles[h].File? && handles[h].offset <= handles[h].size
      ensures handles[h].size <= Capacity(handles[h].entry)
    {
      hide Area.Valid, FileSystem.Links, FileSystem.Entries, Sound, HandlesOk, FileSystem.Valid, IsChain;
      CursorFacts(h);
    }

    lemma WroteNothing(h: nat)
      requires Valid() && h < handles.Length && handles[h].File? && handles[h].offset <= handles[h].size
      ensures Wrote(Look(), Entries(), handles[..], h, ZeroBlock(0), Look(), Entries(), handles[..])
    {
      hide Area.Valid, FileSystem.Links, FileSystem.Entries, Sound, HandlesOk, WellFormed, IsChain, FileBytes,
          ContentOf,
        Wrote;
      CursorFacts(h);
      assert HandlesOk(handles[..], Entries(), chains);
      EmptyWrite(Look(), Entries(), handles[..], chains, h);
      assert ZeroBlock(0) == [];
    }

    /** Follows the links of `move` clusters from `start`. */
    method WalkChain(start: nat, move: nat, ghost chain: seq<nat>, ghost i: nat) returns (previous: nat, current: nat)
      requires LinkReady() && IsChain(Links(), total, chain) && total <= LINKS_PER_SECTOR * link.disk.Length
      requires i < |chain| && start == chain[i] && i + move <= |chain|
      modifies temp, link.disk, link.table, link.table.buffers
      ensures LinkReady() && Links() == old(Links())
      ensures current == if i + move < |chain| then chain[i + move] else LAST_CLUSTER
      ensures move > 0 ==> previous == chain[i + move - 1]
    {
      hide Area.Valid, FileSystem.Links, IsChain;
      ghost var links := Links();
      LinkTableSize();
      previous, current := start, start;
      var k := 0;
      while k < move
        invariant 0 <= k <= move && LinkReady() && Links() == links
        invariant current == if i + k < |chain| then chain[i + k] else LAST_CLUSTER
        invariant k > 0 ==> previous == chain[i + k - 1]
      {
        ChainLink(links, total, chain, i + k);
        previous := current;
        var ok, next := GetClusterLinkData(previous);
        current := next;
        k := k + 1;
      }
    }

    /** Puts the cached clusters of a handle where the cluster index `goal` calls for: from the cluster
        under the cursor on if the goal is not before it, else from the first cluster on. */
    method MoveToCluster(h: nat, goal: nat)
      requires Ready() && h < handles.Length && handles[h].File?
      requires handles[h].entry < |chains| && IsChain(Links(), total, chains[handles[h].entry])
      requires PointsAt(chains[handles[h].entry], handles[h], handles[h].offset / CLUSTER_SIZE)
      requires goal <= |chains[handles[h].entry]|
      modifies temp, handles, link.disk, link.table, link.table.buffers
      ensures Ready() && Links() == old(Links())
      ensures handles[h].File? && handles[..] == old(handles[..])[h := handles[h]]
      ensures handles[h] == old(handles[h]).(current := handles[h].current, previous := handles[h].previous)
      ensures PointsAt(chains[handles[h].entry], handles[h], goal)
    {
      hide Area.Valid, FileSystem.Links, IsChain;
      ghost var was, chain := handles[h], chains[handles[h].entry];
      ghost var hs := handles[..];
      FirstOnChain(Links(), total, chain);
      var here := handles[h].offset / CLUSTER_SIZE;
      var start := if here <= goal then handles[h].current else handles[h].start;
      var move := if here <= goal then goal - here else goal;
      if move > 0 {
        var previous, current := WalkChain(start, move, chain, if here <= goal then here else 0);
        handles[h] := handles[h].(previous := previous, current := current);
      } else if start == handles[h].start {
        handles[h] := handles[h].(previous := handles[h].start, current := handles[h].start);
      }
    }

    lemma FirstOnChain(links: seq<nat>, total: nat, chain: seq<nat>)
      requires IsChain(links, total, chain) && total < LAST_CLUSTER
      ensures chain[0] != LAST_CLUSTER && forall i :: 0 < i < |chain| ==> chain[i] != chain[0]
    {
    }

    lemma SeekFacts(h: nat)
      requires Valid() && h < handles.Length && handles[h].File?
      ensures var hd := handles[h];
              && hd.entry < |chains| && IsChain(Links(), total, chains[hd.entry])
              && CursorOk(chains[hd.entry], hd)
              && hd.offset / CLUSTER_SIZE <= hd.size / CLUSTER_SIZE <= |chains[hd.entry]|
              && total < LAST_CLUSTER
    {
      hide Area.Valid, FileSystem.Links, FileSystem.Entries, WellFormed;
      assert HandleOk(handles[..][h], Entries(), chains);
      SoundHolds(Look(), total, Starts(Entries()), Sizes(Entries()), handles[h].entry);
      OffsetOnChain(chains[handles[h].entry], handles[h].size, handles[h].size);
    }

    /** Moves the cursor.  A target in a later cluster than the end of the file first has the missing
        bytes appended as zeros, `w` of them if the disk becomes full or the heap has no room; any other
        target only moves the cursor, which then is within the file unless the target leaves a gap. */
    method SeekFile(offset: int, origin: Origin, h: nat, heapHasRoom: bool) returns (r: int, ghost w: nat)
      requires Valid() && h < handles.Length && -0x8000_0000 <= offset < 0x8000_0000
      modifies this`hint, this`chains, temp, handles, link.Footprint(), data.Footprint()
      ensures Valid() && r == 0
      ensures !old(handles[h].File?) ==>
                Look() == old(Look()) && Entries() == old(Entries()) && handles[..] == old(handles[..])
      ensures old(handles[h].File?) ==> handles[h].File?
      ensures old(handles[h].File?) ==>
                var was := old(handles[h]);
                var target := SeekTarget(was, offset, origin);
                if was.size / CLUSTER_SIZE < target / CLUSTER_SIZE then
                  && w <= target - was.size
                  && Wrote(old(Look()), old(Entries()), old(handles[..])[h := was.(offset := was.size)], h,
                           ZeroBlock(w), Look(), Entries(), handles[..])
                  && (w < target - was.size && heapHasRoom ==> Exhausted())
                  && was.size <= Capacity(was.entry)
                  && w == (if heapHasRoom then Least(target - was.size, Capacity(was.entry) - was.size) else 0)
                else
                  && Look() == old(Look()) && Entries() == old(Entries())
                  && MovedCursor(old(handles[..]), h, target, handles[..])
      ensures old(handles[h].File?) ==> Capacity(old(handles[h]).entry) == old(Capacity(handles[h].entry))
      ensures old(handles[h].File?) ==>
                (handles[h].offset <= handles[h].size <==>
                 !LeavesGap(old(handles[h]).size, SeekTarget(old(handles[h]), offset, origin)))
      ensures old(handles[h].File?) ==>
                var was := old(handles[h]);
                var t := offset + (if origin == SeekSet then 0 else if origin == SeekCurrent then was.offset
                                   else was.size);
                && (t <= 0 ==> handles[h].offset == 0)
                && (0 <= t <= was.size ==> handles[h].offset == t)
                && (was.size < t < 0x1_0000_0000 ==>
                      handles[h].offset == if t / 4096 == was.size / 4096 then t else was.size + w)
    {
      hide FileSystem.Valid, FileSystem.Layout, FileSystem.Entries, Area.Valid, FileSystem.Links, Reach;
      hide Wrote, ZeroBlock;
      r, w := 0, 0;
      if !handles[h].File? {
        return;
      }
      HandleFits(h);
      TargetFits(handles[h], offset, origin);
      SeekLeadsTo(handles[h], offset, origin);
      var target := SeekTarget(handles[h], offset, origin);
      if handles[h].size / CLUSTER_SIZE < target / CLUSTER_SIZE {
        ghost var hs := handles[..];
        MoveWithin(h, handles[h].size);
        ghost var v, es, ks := Look(), Entries(), handles[..];
        var ok;
        ok, w := WriteZero(h, target - handles[h].size, heapHasRoom);
        WroteMoves(v, es, ks, h, ZeroBlock(w), Look(), Entries(), handles[..]);
        WroteFromMoved(v, es, hs, ks, h, ZeroBlock(w), Look(), Entries(), handles[..]);
      } else {
        MoveWithin(h, target);
      }
    }

    lemma HandleFits(h: nat)
      requires Valid() && h < handles.Length && handles[h].File?
      ensures handles[h].offset < DWORD_LIMIT && handles[h].size < DWORD_LIMIT
    {
      assert HandleOk(handles[..][h], Entries(), chains);
    }

    /** Moves the cursor to a target not behind the last cluster. */
    method MoveWithin(h: nat, target: nat)
      requires Valid() && h < handles.Length && handles[h].File?
      requires target / CLUSTER_SIZE <= handles[h].size / CLUSTER_SIZE && target < DWORD_LIMIT
      modifies temp, handles, link.disk, link.table, link.table.buffers
      ensures Valid() && Look() == old(Look()) && Entries() == old(Entries())
      ensures MovedCursor(old(handles[..]), h, target, handles[..])
    {
      hide Area.Valid, FileSystem.Links, FileSystem.Entries, Sound, Tidy, IsChain;
      SeekFacts(h);
      ghost var hs, chain := handles[..], chains[handles[h].entry];
      PointsAtOffset(chain, handles[h]);
      MoveToCluster(h, target / CLUSTER_SIZE);
      handles[h] := handles[h].(offset := target);
      PointsAtOffset(chain, handles[h]);
      OnlyHandle(hs, Entries(), chains, h, handles[h]);
    }

    // ----- creating, opening, closing, removing -----

    /** Frees the clusters of a chain, or of the rest of one, from its first cluster on. */
    method FreeClusterUntilEnd(first: nat, ghost rest: seq<nat>)
      requires LinkReady() && total <= LINKS_PER_SECTOR * link.disk.Length
      requires ChainRest(Links(), total, rest) && first == if rest == [] then LAST_CLUSTER else rest[0]
      modifies temp, link.Footprint()
      ensures LinkReady() && Links() == Freed(old(Links()), rest)
    {
      hide Area.Valid, FileSystem.Links, Freed;
      ghost var links := Links();
      ghost var i := 0;
      FreedNothing(links, rest);
      var current := first;
      while current != LAST_CLUSTER
        invariant LinkReady() && |Links()| == |links| && i <= |rest|
        invariant Links() == Freed(links, rest[..i])
        invariant current == if i < |rest| then rest[i] else LAST_CLUSTER
        decreases |rest| - i
      {
        LinkTableSize();
        RestLink(links, total, rest, i);
        var ok, next := GetClusterLinkData(current);
        SetClusterLinkData(current, FREE_CLUSTER);
        current := next;
        i := i + 1;
      }
    }

    /** Which state a chain of whole-state steps starts from. */
    lemma StateFits()
      requires Valid()
      ensures Ready() && Fits(Look(), total, Entries(), handles[..])
      ensures |chains| == ENTRY_COUNT && total <= |Links()| && total < LAST_CLUSTER
      ensures |data.blocks| == data.disk.Length && 0 < |data.blocks|
    {
      hide Area.Valid, FileSystem.Links, FileSystem.Entries, Sound, HandlesOk;
      FitsSizes(Look(), total, Entries(), handles[..]);
      data.VisibleBlocks();
    }

    /** A cluster found free is not the root's. */
    lemma FoundInTable(c: nat)
      requires Ready() && Fits(Look(), total, Entries(), handles[..])
      requires c < SearchEnd(link.disk.Length, total) && c < |Links()| && Links()[c] == FREE_CLUSTER
      ensures 1 <= c < total
    {
      hide Area.Valid, FileSystem.Links, FileSystem.Entries, HandlesOk;
      assert Look().links[0] == LAST_CLUSTER;
    }

    lemma NoBytes(e: nat)
      requires e < ENTRY_COUNT && Entries()[e].size == 0
      ensures Bytes(e) == []
    {
      hide FileSystem.Links, FileSystem.Entries;
    }

    /** Stores a directory entry whose file has got the links `links` and the chain `chain`. */
    method StoreEntry(ghost v: View, ghost links: seq<nat>, e: nat, entry: DirectoryEntry, ghost chain: seq<nat>)
      requires Ready() && e < ENTRY_COUNT && ValidEntry(entry) && e < |v.chains|
      requires Look() == v.(links := links)
      modifies this`chains, temp, data.Footprint()
      ensures Ready() && 0 < |v.clusters| && 0 < |data.blocks| && |data.blocks[0]| == CLUSTER_SIZE
      ensures Look() == Replaced(v, links, e, chain, data.blocks[0])
      ensures Entries() == old(Entries())[e := entry]
    {
      hide Area.Valid, FileSystem.Links, FileSystem.Entries;
      var ok := SetDirectoryEntryData(e, entry);
      chains := chains[e := chain];
      data.VisibleBlocks();
    }

    /** Creates an empty file on a free cluster in the first unused entry; on failure nothing has changed.
        `rest` is what the entry buffer holds behind the copied name. */
    method CreateFile(name: seq<byte>, rest: seq<byte>) returns (ok: bool, e: int, entry: DirectoryEntry)
      requires Valid() && |name| + 1 + |rest| == NAME_SIZE && IsName(name) && FirstMatch(Entries(), name, 0) == -1
      modifies this`hint, this`chains, temp, link.Footprint(), data.Footprint()
      ensures Valid()
      ensures !ok ==> Look() == old(Look()) && Entries() == old(Entries())
      ensures ok <==> !old(Exhausted()) && exists i :: 0 <= i < ENTRY_COUNT && old(Entries())[i].start == 0
      ensures ok ==>
                && Created(old(Look()), old(Entries()), name, rest, e, Look(), Entries())
                && entry == Entries()[e] && entry.start != 0 && NotOpen(handles[..], e)
    {
      hide Area.Valid, FileSystem.Links, FileSystem.Entries, Fits, OthersKept, FileSystem.Bytes;
      StateFits();
      ghost var v, es, hs := Look(), Entries(), handles[..];
      entry := DirectoryEntry(name + [0] + rest, 0, 0);
      NewNameField(name, rest);
      FailedLookupMeansNew(es, name);
      var c := FindFreeCluster();
      if c == LAST_CLUSTER {
        return false, -1, entry;
      }
      FoundInTable(c);
      SetClusterLinkData(c, LAST_CLUSTER);
      e := FindFreeDirectoryEntry();
      if e == -1 {
        SetClusterLinkData(c, FREE_CLUSTER);
        assert Links() == v.links;
        return false, e, entry;
      }
      entry := entry.(start := c);
      StoreEntry(v, v.links[c := LAST_CLUSTER], e, entry, [c]);
      CreateStep(v, total, es, hs, e, entry.name, c, data.blocks[0]);
      NewIsNotOpen(v, total, es, hs, e);
      NoBytes(e);
      ok := true;
    }

    /** On a freshly formatted disk of 1032 sectors no file can be created, although 127 clusters are free. */
    static method CannotCreateOnSmallDisk(was: seq<Block>, cacheEnabled: bool, name: seq<byte>, rest: seq<byte>)
      returns (ok: bool)
      requires |was| == FormattedClusters(1032) && Sized(was, CLUSTER_SIZE)
      requires IsName(name) && |name| + 1 + |rest| == NAME_SIZE
      ensures !ok
    {
      hide FileSystem.Valid, FileSystem.Layout, FileSystem.Links, FileSystem.Entries, Sized, Area.Valid;
      var disk := new FileSystem.Format(1032, was, cacheEnabled);
      SmallDiskLooksFull(disk.Links());
      disk.NothingStored(name);
      var e, entry;
      ok, e, entry := disk.CreateFile(name, rest);
    }

    lemma NothingStored(name: seq<byte>)
      requires Valid() && IsName(name) && forall e :: 0 <= e < ENTRY_COUNT ==> Entries()[e].start == 0
      ensures FirstMatch(Entries(), name, 0) == -1
    {
      hide FileSystem.Links, FileSystem.Entries, Sound, HandlesOk, Area.Valid, NamesDiffer;
      forall e | 0 <= e < ENTRY_COUNT
        ensures !(name <= Entries()[e].name)
      {
        UnusedMatchesNothing(Entries(), name, e);
      }
    }

    /** The chain of a live entry. */
    lemma EntryFacts(e: nat)
      requires Valid() && e < ENTRY_COUNT && Entries()[e].start != 0
      ensures e < |chains| && IsChain(Links(), total, chains[e]) && |chains[e]| > 0
      ensures chains[e][0] == Entries()[e].start < total <= |Links()| && total < LAST_CLUSTER
    {
      hide Area.Valid, FileSystem.Links, FileSystem.Entries, HandlesOk, WellFormed;
      StateFits();
      SoundHolds(Look(), total, Starts(Entries()), Sizes(Entries()), e);
    }

    /** Empties a file that is not open: its first cluster becomes its only one, the others are freed. */
    method EmptyFile(e: nat, entry: DirectoryEntry) returns (next: DirectoryEntry)
      requires Valid() && e < ENTRY_COUNT && entry == Entries()[e] && ValidEntry(entry) && entry.start != 0
      requires NotOpen(handles[..], e)
      modifies this`chains, temp, link.Footprint(), data.Footprint()
      ensures Valid() && next == entry.(size := 0) && Entries() == Resized(old(Entries()), e, 0)
      ensures Bytes(e) == [] && OthersKept(old(Look()), Look(), Starts(old(Entries())), Sizes(old(Entries())), e)
      ensures Links() == EmptiedLinks(old(Look()), e, entry.start)
    {
      hide Area.Valid, FileSystem.Links, FileSystem.Entries, Fits, OthersKept, FileSystem.Bytes, Freed, IsChain,
          ChainRest;
      StateFits();
      EntryFacts(e);
      ghost var v, es, hs := Look(), Entries(), handles[..];
      LinkTableSize();
      var found, second := GetClusterLinkData(entry.start);
      SetClusterLinkData(entry.start, LAST_CLUSTER);
      TailIsRest(v.links, Links(), total, v.chains[e]);
      FreeClusterUntilEnd(second, v.chains[e][1..]);
      next := entry.(size := 0);
      StoreEntry(v, EmptiedLinks(v, e, entry.start), e, next, [entry.start]);
      TruncateStep(v, total, es, hs, e, data.blocks[0]);
      NoBytes(e);
    }

    /** Something in the directory to open: an entry already there, emptied for mode 'w', or a new one. */
    method FindOrCreate(name: seq<byte>, rest: seq<byte>, mode: char) returns (e: int, entry: DirectoryEntry)
      requires Valid() && IsName(name) && |name| + 1 + |rest| == NAME_SIZE
      requires NotOpen(handles[..], FirstMatch(Entries(), name, 0))
      modifies this`hint, this`chains, temp, link.Footprint(), data.Footprint()
      ensures Valid() && -1 <= e < ENTRY_COUNT
      ensures e >= 0 ==> entry == Entries()[e] && ValidEntry(entry) && entry.start != 0 && NotOpen(handles[..], e)
      ensures Prepared(old(Look()), old(Entries()), name, rest, mode, e, Look(), Entries(), old(Exhausted()))
    {
      hide Area.Valid, FileSystem.Links, FileSystem.Entries, OthersKept, FileSystem.Bytes, Sound, HandlesOk, WellFormed;
      e, entry := FindDirectoryEntry(name);
      if e == -1 {
        if mode == 'r' {
          return;
        }
        var ok;
        ok, e, entry := CreateFile(name, rest);
        if !ok {
          return -1, entry;
        }
        EntryIsValid(e);
      } else {
        MatchIsLive(Entries(), name, e);
        if mode == 'w' {
          entry := EmptyFile(e, entry);
        }
      }
    }

    lemma EntryIsValid(e: nat)
      requires DataReady() && e < ENTRY_COUNT
      ensures ValidEntry(Entries()[e])
    {
      hide Area.Valid, EntryAt;
      RootCluster();
    }

    method AllocateFileHandle() returns (r: int)
      ensures r == FirstUnused(handles[..], 0)
    {
      var i := 0;
      while i < handles.Length
        invariant 0 <= i <= handles.Length
        invariant FirstUnused(handles[..], i) == FirstUnused(handles[..], 0)
      {
        if handles[i].Unused? {
          return i;
        }
        i := i + 1;
      }
      r := -1;
    }

    /** Opens the file whose entry the lookup finds; unless the mode is 'r' a missing file is created, and
        mode 'w' empties one that is there.  The cursor stands at the start, or for mode 'a' at the end. */
    method OpenFile(name: seq<byte>, rest: seq<byte>, mode: char, heapHasRoom: bool) returns (r: int, ghost e: int)
      requires Valid() && forall i :: 0 <= i < |name| ==> name[i] != 0
      requires IsName(name) ==> |name| + 1 + |rest| == NAME_SIZE
      requires IsName(name) ==> NotOpen(handles[..], FirstMatch(Entries(), name, 0))
      modifies this`hint, this`chains, temp, handles, link.Footprint(), data.Footprint()
      ensures Valid() && -1 <= e < ENTRY_COUNT
      ensures !IsName(name) ==> e == -1 && Look() == old(Look()) && Entries() == old(Entries())
      ensures IsName(name) ==>
                Prepared(old(Look()), old(Entries()), name, rest, mode, e, Look(), Entries(), old(Exhausted()))
      ensures r == if e == -1 then -1 else FirstUnused(old(handles[..]), 0)
      ensures r == -1 ==> handles[..] == old(handles[..])
      ensures r != -1 ==>
                var hs := old(handles[..])[r := Opened(Entries()[e], e)];
                if mode == 'a' then MovedCursor(hs, r, Entries()[e].size, handles[..]) else handles[..] == hs
      ensures r != -1 ==>
                && handles[r].File? && handles[..] == old(handles[..])[r := handles[r]] && handles[r].entry == e
                && handles[r].size == Entries()[e].size
                && handles[r].offset == (if mode == 'a' then handles[r].size else 0)
                && |Bytes(e)| == handles[r].size && StreamOf(r) == Stream(Bytes(e), handles[r].offset, Capacity(e))
    {
      hide Area.Valid, FileSystem.Links, FileSystem.Entries, FileSystem.Look, Prepared, Fits, FileSystem.Valid,
          FileSystem.Layout;
      r, e := -1, -1;
      if |name| > NAME_SIZE - 1 || |name| == 0 {
        return;
      }
      ghost var v, es, hs := Look(), Entries(), handles[..];
      var found, entry := FindOrCreate(name, rest, mode);
      e := found;
      if found == -1 {
        return;
      }
      r := AllocateFileHandle();
      if r == -1 {
        return;
      }
      OpenAndSeek(r, found, entry, mode, heapHasRoom);
      StreamFacts(r);
    }

    method OpenAndSeek(h: nat, e: nat, entry: DirectoryEntry, mode: char, heapHasRoom: bool)
      requires Valid() && h < handles.Length && handles[h].Unused?
      requires e < ENTRY_COUNT && entry == Entries()[e] && ValidEntry(entry) && entry.start != 0 &&
          NotOpen(handles[..], e)
      modifies this`hint, this`chains, temp, handles, link.Footprint(), data.Footprint()
      ensures Valid() && Look() == old(Look()) && Entries() == old(Entries())
      ensures var hs := old(handles[..])[h := Opened(entry, e)];
              if mode == 'a' then MovedCursor(hs, h, entry.size, handles[..]) else handles[..] == hs
    {
      hide Area.Valid, FileSystem.Links, FileSystem.Entries, Fits, FileSystem.Valid;
      OpenHandle(h, e, entry);
      if mode == 'a' {
        AtEndIsPlain(h, entry.size);
        var moved, _ := SeekFile(0, SeekEnd, h, heapHasRoom);
      }
    }

    method OpenHandle(h: nat, e: nat, entry: DirectoryEntry)
      requires Valid() && h < handles.Length && handles[h].Unused?
      requires e < ENTRY_COUNT && entry == Entries()[e] && ValidEntry(entry) && entry.start != 0 &&
          NotOpen(handles[..], e)
      modifies handles
      ensures Valid() && handles[..] == old(handles[..])[h := Opened(entry, e)]
      ensures Look() == old(Look()) && Entries() == old(Entries())
    {
      hide Area.Valid, FileSystem.Links, FileSystem.Entries, Fits;
      OpenStep(Look(), total, Entries(), handles[..], e, h);
      handles[h] := Opened(entry, e);
    }

    lemma AtEndIsPlain(h: nat, size: nat)
      requires Valid() && h < handles.Length && handles[h].File? && handles[h].size == size
      ensures SeekTarget(handles[h], 0, SeekEnd) == size
    {
      hide FileSystem.Valid;
      HandleFits(h);
    }

    /** Closes a handle. */
    method CloseFile(h: nat) returns (r: int)
      requires Valid() && h < handles.Length
      modifies handles
      ensures Valid() && Look() == old(Look()) && Entries() == old(Entries())
      ensures r == if old(handles[h]).File? then 0 else -1
      ensures handles[..] == old(handles[..])[h := Unused]
    {
      hide Area.Valid, FileSystem.Links, FileSystem.Entries, Fits;
      if !handles[h].File? {
        return -1;
      }
      CloseStep(Look(), total, Entries(), handles[..], h);
      handles[h] := Unused;
      r := 0;
    }

    /** Is some handle open on a file with this first cluster? */
    method IsFileOpened(start: nat) returns (b: bool)
      ensures b <==> exists h :: 0 <= h < handles.Length && handles[h].File? && handles[h].start == start
    {
      var i := 0;
      while i < handles.Length
        invariant 0 <= i <= handles.Length
        invariant forall h :: 0 <= h < i && handles[h].File? ==> handles[h].start != start
      {
        if handles[i].File? && handles[i].start == start {
          return true;
        }
        i := i + 1;
      }
      b := false;
    }

    /** Frees the clusters of a file that is not open and clears its entry. */
    method RemoveEntry(e: nat, entry: DirectoryEntry)
      requires Valid() && e < ENTRY_COUNT && entry == Entries()[e] && entry.start != 0 && NotOpen(handles[..], e)
      modifies this`chains, temp, link.Footprint(), data.Footprint()
      ensures Valid() && Entries() == old(Entries())[e := ZeroEntry()]
      ensures e < |old(chains)| && Links() == Freed(old(Links()), old(chains)[e])
      ensures OthersKept(old(Look()), Look(), Starts(old(Entries())), Sizes(old(Entries())), e)
    {
      hide Area.Valid, FileSystem.Links, FileSystem.Entries, Fits, OthersKept, Freed, IsChain;
      StateFits();
      EntryFacts(e);
      ghost var v, es, hs := Look(), Entries(), handles[..];
      LinkTableSize();
      FreeClusterUntilEnd(entry.start, v.chains[e]);
      StoreEntry(v, Freed(v.links, v.chains[e]), e, ZeroEntry(), []);
      RemoveStep(v, total, es, hs, e, data.blocks[0]);
    }

    /** Removes the file the lookup finds, unless it is open.  For a name of no or too many characters the
        result is 0 although nothing is removed. */
    method RemoveFile(name: seq<byte>) returns (r: int)
      requires Valid() && forall i :: 0 <= i < |name| ==> name[i] != 0
      modifies this`chains, temp, link.Footprint(), data.Footprint()
      ensures Valid()
      ensures var e := if IsName(name) then FirstMatch(old(Entries()), name, 0) else -1;
              if e == -1 || !NotOpen(handles[..], e) then
                && r == (if IsName(name) then -1 else 0)
                && Look() == old(Look()) && Entries() == old(Entries())
              else
                && r == 0 && Entries() == old(Entries())[e := ZeroEntry()]
                && e < |old(chains)| && Links() == Freed(old(Links()), old(chains)[e])
                && OthersKept(old(Look()), Look(), Starts(old(Entries())), Sizes(old(Entries())), e)
    {
      hide Area.Valid, FileSystem.Links, FileSystem.Entries, OthersKept, Freed, Sound, HandlesOk, Tidy;
      if |name| > NAME_SIZE - 1 || |name| == 0 {
        return 0;
      }
      var e, entry := FindDirectoryEntry(name);
      if e == -1 {
        return -1;
      }
      FoundIsLive(e, name);
      var inUse := IsFileOpened(entry.start);
      OpenedMeansEntry(e);
      if inUse {
        return -1;
      }
      RemoveEntry(e, entry);
      r := 0;
    }

    lemma FoundIsLive(e: nat, name: seq<byte>)
      requires Valid() && e < ENTRY_COUNT && IsName(name) && name <= Entries()[e].name
      ensures Entries()[e].start != 0
    {
      hide Area.Valid, FileSystem.Links, FileSystem.Entries, Sound, HandlesOk;
      MatchIsLive(Entries(), name, e);
    }

    /** Some handle has the first cluster of an entry exactly when some handle is open on it. */
    lemma OpenedMeansEntry(e: nat)
      requires Valid() && e < ENTRY_COUNT && Entries()[e].start != 0
      ensures NotOpen(handles[..], e) <==>
              !exists h :: 0 <= h < handles.Length && handles[h].File? && handles[h].start == Entries()[e].start
    {
      hide Area.Valid, FileSystem.Links, FileSystem.Entries, Fits;
      forall h | 0 <= h < handles.Length && handles[h].File?
        ensures handles[..][h].start == Entries()[e].start <==> handles[..][h].entry == e
      {
        SameStartSameEntry(Look(), total, Entries(), handles[..], e, h);
      }
    }

    /** Writes everything cached back: afterwards the disk holds what the file system shows. */
    method FlushFileSystemCache()
      requires Valid()
      modifies link.disk, link.table.buffers, data.disk, data.table.buffers
      ensures Valid() && Look() == old(Look()) && Entries() == old(Entries())
      ensures link.disk[..] == link.blocks && data.disk[..] == data.blocks
    {
      hide Area.Valid, FileSystem.Links, FileSystem.Entries, Fits;
      link.Flush();
      data.Flush();
    }

    // ----- an open file as a stream -----

    ghost function StreamOf(h: nat): Stream
      reads this, handles, link, data
    {
      if h < handles.Length && handles[h].File? then
        Stream(Bytes(handles[h].entry), handles[h].offset, Capacity(handles[h].entry))
      else Stream([], 0, 0)
    }

    lemma StreamFacts(h: nat)
      requires Valid() && h < handles.Length && handles[h].File? && handles[h].offset <= handles[h].size
      ensures handles[h].entry < ENTRY_COUNT && StreamOf(h).cursor == handles[h].offset
      ensures |StreamOf(h).bytes| == handles[h].size == Entries()[handles[h].entry].size
      ensures StreamOf(h).bytes == ContentOf(Look(), handles[h].entry, handles[h].size)
      ensures StreamOk(StreamOf(h)) && StreamOf(h).capacity == Capacity(handles[h].entry)
    {
      hide Area.Valid, FileSystem.Links, FileSystem.Entries, ContentOf, Sound;
      CursorFacts(h);
      HandleFacts(h);
      CursorWithinCapacity(h);
    }

    /** One operation through a handle is one operation on its stream. */
    method Operate(h: nat, op: Operation) returns (r: Outcome)
      requires Valid() && h < handles.Length && handles[h].File? && handles[h].offset <= handles[h].size
      requires LegalOn(op, StreamOf(h))
      modifies this`hint, this`chains, temp, handles, link.Footprint(), data.Footprint()
      ensures Valid() && handles[h].File? && handles[h].offset <= handles[h].size
      ensures StreamOk(old(StreamOf(h))) && (r, StreamOf(h)) == Perform(op, old(StreamOf(h)))
      ensures OnlyThisFile(old(Look()), old(Entries()), old(handles[..]), h, Look(), Entries(), handles[..])
    {
      hide FileSystem.Valid, FileSystem.Layout, FileSystem.Look, FileSystem.Entries, FileSystem.StreamOf,
          FileSystem.Capacity;
      hide OthersKept, Perform, LegalOn, Area.Valid, OnlyThisFile;
      match op
      case ReadBytes(n) => r := OperateRead(h, n);
      case WriteBytes(d) => r := OperateWrite(h, d);
      case Seek(offset, origin, heapHasRoom) => r := OperateSeek(h, offset, origin, heapHasRoom);
    }

    method OperateRead(h: nat, n: nat) returns (r: Outcome)
      requires Valid() && h < handles.Length && handles[h].File? && handles[h].offset <= handles[h].size
      requires LegalOn(ReadBytes(n), StreamOf(h))
      modifies this`hint, this`chains, temp, handles, link.Footprint(), data.Footprint()
      ensures Valid() && handles[h].File? && handles[h].offset <= handles[h].size
      ensures StreamOk(old(StreamOf(h))) && (r, StreamOf(h)) == Perform(ReadBytes(n), old(StreamOf(h)))
      ensures OnlyThisFile(old(Look()), old(Entries()), old(handles[..]), h, Look(), Entries(), handles[..])
    {
      hide FileSystem.Valid, FileSystem.Layout, FileSystem.Entries, FileSystem.Links, Reach;
      hide Area.Valid, ByteCount, ItemCount, OnlyThisFile, ContentOf;
      StreamFacts(h);
      OneByteItems(n);
      ghost var v, es, hs := Look(), Entries(), handles[..];
      var count, out := ReadFile(1, n, h);
      NothingWritten(v, es, hs, h, handles[..]);
      r := Outcome(out, count);
    }

    method OperateWrite(h: nat, d: seq<byte>) returns (r: Outcome)
      requires Valid() && h < handles.Length && handles[h].File? && handles[h].offset <= handles[h].size
      requires LegalOn(Operation.WriteBytes(d), StreamOf(h))
      modifies this`hint, this`chains, temp, handles, link.Footprint(), data.Footprint()
      ensures Valid() && handles[h].File? && handles[h].offset <= handles[h].size
      ensures StreamOk(old(StreamOf(h))) && (r, StreamOf(h)) == Perform(Operation.WriteBytes(d), old(StreamOf(h)))
      ensures OnlyThisFile(old(Look()), old(Entries()), old(handles[..]), h, Look(), Entries(), handles[..])
    {
      hide FileSystem.Valid, FileSystem.Layout, FileSystem.Entries, FileSystem.Links, FileSystem.Capacity;
      hide Area.Valid, ByteCount, ItemCount, OnlyThisFile, ContentOf, Overwrite, OthersKept;
      StreamFacts(h);
      OneByteItems(|d|);
      ghost var v, es, hs := Look(), Entries(), handles[..];
      var count, w := WriteFile(d, 1, |d|, h);
      WroteOnlyThisFile(v, es, hs, h, d[..w], Look(), Entries(), handles[..]);
      StreamFacts(h);
      r := Outcome([], count);
    }

    method OperateSeek(h: nat, offset: int, origin: Origin, heapHasRoom: bool) returns (r: Outcome)
      requires Valid() && h < handles.Length && handles[h].File? && handles[h].offset <= handles[h].size
      requires LegalOn(Seek(offset, origin, heapHasRoom), StreamOf(h))
      modifies this`hint, this`chains, temp, handles, link.Footprint(), data.Footprint()
      ensures Valid() && handles[h].File? && handles[h].offset <= handles[h].size
      ensures StreamOk(old(StreamOf(h))) && (r, StreamOf(h)) == Perform(Seek(offset, origin, heapHasRoom),
          old(StreamOf(h)))
      ensures OnlyThisFile(old(Look()), old(Entries()), old(handles[..]), h, Look(), Entries(), handles[..])
    {
      hide FileSystem.Valid, FileSystem.Layout, FileSystem.Entries, FileSystem.Links, FileSystem.Capacity;
      hide Area.Valid, OnlyThisFile, ContentOf, Overwrite, OthersKept;
      StreamFacts(h);
      GoalIsTarget(handles[h], offset, origin);
      ghost var v, es, hs := Look(), Entries(), handles[..];
      var zero, w := SeekFile(offset, origin, h, heapHasRoom);
      StreamFacts(h);
      ghost var target := SeekTarget(hs[h], offset, origin);
      if hs[h].size / CLUSTER_SIZE < target / CLUSTER_SIZE {
        ghost var at := hs[h := hs[h].(offset := hs[h].size)];
        WroteOnlyThisFile(v, es, at, h, ZeroBlock(w), Look(), Entries(), handles[..]);
        SeekOnly(v, es, hs, at, h, Look(), Entries(), handles[..]);
        ZerosAppended(ContentOf(v, hs[h].entry, hs[h].size), ZeroBlock(w));
      } else {
        NothingWritten(v, es, hs, h, handles[..]);
      }
      r := Outcome([], 0);
    }

    lemma SeekOnly(v: View, es: seq<DirectoryEntry>, hs: seq<Handle>, at: seq<Handle>, h: nat,
                   w: View, fs: seq<DirectoryEntry>, ks: seq<Handle>)
      requires OnlyThisFile(v, es, at, h, w, fs, ks) && h < |hs| && hs[h].File? && at == hs[h := at[h]]
      requires at[h].entry == hs[h].entry
      ensures OnlyThisFile(v, es, hs, h, w, fs, ks)
    {
      hide OthersKept, ContentOf;
      assert hs[h := at[h]][h := ks[h]] == hs[h := ks[h]];
    }

    /** Any sequence of reads, writes and seeks through one handle, up to the first operation that is not
        legal, acts exactly as on one byte sequence with a cursor that can grow as far as the free clusters
        reach.  Every other file, entry and handle is as before. */
    method RunOperations(h: nat, ops: seq<Operation>) returns (results: seq<Outcome>)
      requires Valid() && h < handles.Length && handles[h].File? && handles[h].offset <= handles[h].size
      modifies this`hint, this`chains, temp, handles, link.Footprint(), data.Footprint()
      ensures Valid() && StreamOk(old(StreamOf(h)))
      ensures (results, StreamOf(h)) == RunOn(ops, old(StreamOf(h)))
      ensures |results| < |ops| && handles[h].File? ==>
                match ops[|results|]
                case ReadBytes(n) => n >= 0x1_0000_0000
                case WriteBytes(d) => handles[h].offset + |d| >= 0x1_0000_0000
                case Seek(offset, origin, _) =>
                  var hd := handles[h];
                  var t := offset + (if origin == SeekSet then 0 else if origin == SeekCurrent then hd.offset
                                     else hd.size);
                  || offset < -0x8000_0000 || offset >= 0x8000_0000
                  || (hd.size < t % 0x1_0000_0000 && t % 0x1_0000_0000 / 4096 == hd.size / 4096)
      ensures OnlyThisFile(old(Look()), old(Entries()), old(handles[..]), h, Look(), Entries(), handles[..])
    {
      hide FileSystem.Valid, FileSystem.Layout, FileSystem.Look, FileSystem.Entries, FileSystem.StreamOf,
          FileSystem.Capacity;
      hide OthersKept, Perform, RunOn, Area.Valid, OnlyThisFile;
      ghost var v, es, hs, s := Look(), Entries(), handles[..], StreamOf(h);
      StreamFacts(h);
      NothingWritten(v, es, hs, h, hs);
      results := [];
      assert ops[0..] == ops;
      while |results| < |ops|
        invariant Valid() && handles[h].File? && handles[h].offset <= handles[h].size
        invariant |results| <= |ops| && StreamOk(s) && StreamOk(StreamOf(h))
        invariant results + RunOn(ops[|results|..], StreamOf(h)).0 == RunOn(ops, s).0
        invariant RunOn(ops[|results|..], StreamOf(h)).1 == RunOn(ops, s).1
        invariant OnlyThisFile(v, es, hs, h, Look(), Entries(), handles[..])
        decreases |ops| - |results|
      {
        var op := ops[|results|];
        StreamFacts(h);
        if !LegalHere(op, h) {
          RunStops(ops, |results|, StreamOf(h), results);
          RefusedOnlyThen(op, handles[h].size, handles[h].offset);
          return;
        }
        ghost var x, fs, ks := Look(), Entries(), handles[..];
        RunGoesOn(ops, |results|, StreamOf(h), results);
        var r := Operate(h, op);
        StreamFacts(h);
        OnlyThisFileTwice(v, es, hs, h, x, fs, ks, Look(), Entries(), handles[..]);
        results := results + [r];
      }
      RunStops(ops, |results|, StreamOf(h), results);
    }

    predicate LegalHere(op: Operation, h: nat)
      requires h < handles.Length && handles[h].File?
      reads handles
    {
      Legal(op, handles[h].size, handles[h].offset)
    }

    // ----- what a caller gets back -----

    /** Seeks to byte `k` of the file from wherever the cursor stands and reads `n` bytes: these are the bytes from
        `k` on, as many as there are. */
    method ReadFrom(h: nat, k: nat, n: nat, heapHasRoom: bool) returns (out: seq<byte>)
      requires Valid() && h < handles.Length && handles[h].File?
      requires k <= handles[h].size && k < 0x8000_0000 && n < DWORD_LIMIT
      modifies this`hint, this`chains, temp, handles, link.Footprint(), data.Footprint()
      ensures Valid() && Look() == old(Look()) && Entries() == old(Entries())
      ensures |out| == Least(n, old(handles[h]).size - k) && k + |out| <= |Bytes(old(handles[h]).entry)|
      ensures out == Bytes(old(handles[h]).entry)[k..k + |out|]
      ensures handles[h].File? && handles[h].offset == k + |out|
    {
      hide FileSystem.Valid, FileSystem.Layout, FileSystem.Look, FileSystem.Entries, Area.Valid;
      hide ByteCount, ItemCount, FileSystem.Bytes, SeekTarget;
      HandleFits(h);
      SeekLeadsTo(handles[h], k, SeekSet);
      var zero, _ := SeekFile(k, SeekSet, h, heapHasRoom);
      OneByteItems(n);
      var count;
      count, out := ReadFile(1, n, h);
    }

    /** Writes `d` to a file of that name, closes it, opens it again and reads it: what comes back is what was
        written, all of it unless the disk became full. */
    method StoreThenLoad(name: seq<byte>, rest: seq<byte>, d: seq<byte>, heapHasRoom: bool)
      returns (ok: bool, out: seq<byte>)
      requires Valid() && IsName(name) && |name| + 1 + |rest| == NAME_SIZE && |d| < DWORD_LIMIT
      requires NotOpen(handles[..], FirstMatch(Entries(), name, 0))
      modifies this`hint, this`chains, temp, handles, link.Footprint(), data.Footprint()
      ensures Valid()
      ensures ok <==>
              && (exists h :: 0 <= h < handles.Length && old(handles[..])[h].Unused?)
              && (FirstMatch(old(Entries()), name, 0) != -1 ||
                  (!old(Exhausted()) && exists i :: 0 <= i < ENTRY_COUNT && old(Entries())[i].start == 0))
      ensures ok ==> |out| <= |d| && out == d[..|out|] && (|out| < |d| ==> Exhausted())
      ensures handles[..] == old(handles[..])
    {
      hide FileSystem.Valid, FileSystem.Layout, FileSystem.Look, FileSystem.Entries, FileSystem.Links, Area.Valid,
        FileSystem.Capacity, FileSystem.Exhausted;
      hide ByteCount, ItemCount, OthersKept, Fits, ContentOf, Prepared, FirstMatch;
      ghost var v, es, hs, full := Look(), Entries(), handles[..], Exhausted();
      var h, e := OpenFile(name, rest, 'w', heapHasRoom);
      PreparedToWrite(v, es, name, rest, e, Look(), Entries(), full);
      if h == -1 {
        return false, [];
      }
      OneByteItems(|d|);
      ghost var w, fs, ks := Look(), Entries(), handles[..];
      var count, n := WriteFile(d, 1, |d|, h);
      WrittenFromNothing(w, fs, ks, h, d[..n], Look(), Entries(), handles[..]);
      ResizedIsFound(fs, name, e, n);
      out := Reload(name, rest, h, e, d[..n], |d|, heapHasRoom);
      ok := true;
      assert handles[..] == hs;
    }

    /** Closes the file, opens it again by its name and reads it. */
    method Reload(name: seq<byte>, rest: seq<byte>, h: nat, ghost e: nat, ghost d: seq<byte>, n: nat,
                  heapHasRoom: bool) returns (out: seq<byte>)
      requires Valid() && IsName(name) && |name| + 1 + |rest| == NAME_SIZE && h < handles.Length && handles[h].File?
      requires FirstMatch(Entries(), name, 0) == e == handles[h].entry && Bytes(e) == d && |d| <= n < DWORD_LIMIT
      requires |d| == handles[h].size
      modifies this`hint, this`chains, temp, handles, link.Footprint(), data.Footprint()
      ensures Valid() && out == d && Exhausted() == old(Exhausted())
      ensures handles[..] == old(handles[..])[h := Unused]
    {
      hide FileSystem.Valid, FileSystem.Layout, FileSystem.Entries, FileSystem.Links, Area.Valid, FileSystem.Capacity;
      hide ByteCount, ItemCount, OthersKept, Fits, ContentOf, FirstMatch, NoneFree, Created;
      OnlyOneHandle(h);
      var closed := CloseFile(h);
      ghost var hs := handles[..];
      SomeUnused(hs, h);
      var r, f := OpenFile(name, rest, 'r', heapHasRoom);
      assert f == e;
      OneByteItems(n);
      var count;
      count, out := ReadFile(1, n, r);
      assert Bytes(e) == d && d[..|d|] == d;
      closed := CloseFile(r);
      assert handles[..] == hs;
    }

    lemma OnlyOneHandle(h: nat)
      requires Valid() && h < handles.Length && handles[h].File?
      ensures NotOpen(handles[..][h := Unused], handles[h].entry)
    {
      hide Area.Valid, FileSystem.Links, FileSystem.Entries, Sound, Tidy, NamesDiffer, HandleOk;
      StateFits();
    }

    lemma SomeUnused(hs: seq<Handle>, h: nat)
      requires h < |hs| && hs[h].Unused?
      ensures FirstUnused(hs, 0) != -1
    {
    }

    lemma WrittenFromNothing(v: View, es: seq<DirectoryEntry>, hs: seq<Handle>, h: nat, d: seq<byte>,
                             w: View, fs: seq<DirectoryEntry>, ks: seq<Handle>)
      requires Wrote(v, es, hs, h, d, w, fs, ks) && hs[h].offset == hs[h].size == 0
      ensures hs[h].entry < |es| && fs == Resized(es, hs[h].entry, |d|) && ContentOf(w, hs[h].entry, |d|) == d
      ensures ks[h].File? && ks[h].entry == hs[h].entry && ks[h].size == |d| && ks == hs[h := ks[h]]
    {
      hide ContentOf, OthersKept;
    }
  }
}
