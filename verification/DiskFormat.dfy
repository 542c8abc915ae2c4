/** How links and directory entries are stored in bytes: 32-bit little-endian words, 128 links to a
    link-table sector, and 128 directory entries of 32 bytes in the root cluster. */
module DiskFormat {
  import opened CacheTable
  import opened CachedArea
  import opened LinkTable

  const SECTOR_SIZE: nat := 512
  const LINKS_PER_SECTOR: nat := 128
  const ENTRY_SIZE: nat := 32
  const NAME_SIZE: nat := 24
  const DWORD_LIMIT: nat := 0x1_0000_0000

  function DwordBytes(v: nat): (r: seq<byte>)
    requires v < DWORD_LIMIT
    ensures |r| == 4
  {
    [(v % 0x100) as byte, (v / 0x100 % 0x100) as byte, (v / 0x1_0000 % 0x100) as byte, (v / 0x100_0000) as byte]
  }

  /** Word `k` of a buffer. */
  function DwordAt(b: seq<byte>, k: nat): (v: nat)
    requires 4 * k + 4 <= |b|
    ensures v < DWORD_LIMIT
  {
    b[4 * k] as nat + b[4 * k + 1] as nat * 0x100 + b[4 * k + 2] as nat * 0x1_0000 + b[4 * k + 3] as nat * 0x100_0000
  }

  /** The buffer with word `k` replaced. */
  function SetDword(b: seq<byte>, k: nat, v: nat): (r: seq<byte>)
    requires 4 * k + 4 <= |b| && v < DWORD_LIMIT
    ensures |r| == |b|
  {
    b[..4 * k] + DwordBytes(v) + b[4 * k + 4..]
  }

  lemma DwordRoundTrip(b: seq<byte>, k: nat, v: nat)
    requires 4 * k + 4 <= |b| && v < DWORD_LIMIT && b[4 * k..4 * k + 4] == DwordBytes(v)
    ensures DwordAt(b, k) == v
  {
    var d := DwordBytes(v);
    assert b[4 * k..4 * k + 4][0] == b[4 * k] && b[4 * k..4 * k + 4][1] == b[4 * k + 1];
    assert b[4 * k..4 * k + 4][2] == b[4 * k + 2] && b[4 * k..4 * k + 4][3] == b[4 * k + 3];
    SplitDword(v);
  }

  lemma SplitDword(v: nat)
    ensures v == v % 0x100 + v / 0x100 % 0x100 * 0x100 + v / 0x1_0000 % 0x100 * 0x1_0000 + v / 0x100_0000 * 0x100_0000
  {
    assert v / 0x100 == v / 0x100 % 0x100 + v / 0x1_0000 * 0x100;
    assert v / 0x1_0000 == v / 0x1_0000 % 0x100 + v / 0x100_0000 * 0x100;
  }

  /** The low byte of a word comes first. */
  lemma LowByteFirst(b: seq<byte>, k: nat, v: nat)
    requires 4 * k + 4 <= |b| && v < DWORD_LIMIT
    ensures DwordAt(b, k) % 256 == b[4 * k] as nat && DwordAt(b, k) / 256 % 256 == b[4 * k + 1] as nat
    ensures DwordAt(b, k) / 0x1_0000 % 256 == b[4 * k + 2] as nat && DwordAt(b, k) / 0x100_0000 == b[4 * k + 3] as nat
    ensures DwordBytes(v)[0] as nat == v % 256 && DwordBytes(v)[3] as nat == v / 0x100_0000
  {
  }

  lemma SetThenGet(b: seq<byte>, k: nat, v: nat, j: nat)
    requires 4 * k + 4 <= |b| && v < DWORD_LIMIT && 4 * j + 4 <= |b|
    ensures DwordAt(SetDword(b, k, v), j) == if j == k then v else DwordAt(b, j)
  {
    var r := SetDword(b, k, v);
    if j == k {
      assert r[4 * k..4 * k + 4] == DwordBytes(v);
      DwordRoundTrip(r, k, v);
    } else {
      assert r[4 * j..4 * j + 4] == b[4 * j..4 * j + 4];
      SameDword(r, b, j);
    }
  }

  lemma SameDword(a: seq<byte>, b: seq<byte>, j: nat)
    requires 4 * j + 4 <= |a| && 4 * j + 4 <= |b| && a[4 * j..4 * j + 4] == b[4 * j..4 * j + 4]
    ensures DwordAt(a, j) == DwordAt(b, j)
  {
    var x, y := a[4 * j..4 * j + 4], b[4 * j..4 * j + 4];
    assert x[0] == y[0] && x[1] == y[1] && x[2] == y[2] && x[3] == y[3];
  }

  // ----- the link table -----

  /** The links stored in the sectors of the link area. */
  ghost function LinksOf(sectors: seq<Block>): (r: seq<nat>)
    requires Sized(sectors, SECTOR_SIZE)
    ensures |r| == LINKS_PER_SECTOR * |sectors|
    ensures forall c :: 0 <= c < |r| ==> r[c] == LinkIn(sectors, c)
  {
    seq(LINKS_PER_SECTOR * |sectors|, c requires 0 <= c < LINKS_PER_SECTOR * |sectors| => LinkIn(sectors, c))
  }

  ghost function LinkIn(sectors: seq<Block>, c: nat): nat
    requires Sized(sectors, SECTOR_SIZE) && c < LINKS_PER_SECTOR * |sectors|
  {
    DwordAt(sectors[c / LINKS_PER_SECTOR], c % LINKS_PER_SECTOR)
  }

  /** Rewriting one word of one sector changes that link and no other. */
  lemma SetLink(sectors: seq<Block>, c: nat, v: nat)
    requires Sized(sectors, SECTOR_SIZE) && c < LINKS_PER_SECTOR * |sectors| && v < DWORD_LIMIT
    ensures var s := c / LINKS_PER_SECTOR;
            var next := sectors[s := SetDword(sectors[s], c % LINKS_PER_SECTOR, v)];
            Sized(next, SECTOR_SIZE) && LinksOf(next) == LinksOf(sectors)[c := v]
  {
    var s := c / LINKS_PER_SECTOR;
    var next := sectors[s := SetDword(sectors[s], c % LINKS_PER_SECTOR, v)];
    forall k | 0 <= k < LINKS_PER_SECTOR * |sectors|
      ensures LinkIn(next, k) == if k == c then v else LinkIn(sectors, k)
    {
      if k / LINKS_PER_SECTOR == s {
        SetThenGet(sectors[s], c % LINKS_PER_SECTOR, v, k % LINKS_PER_SECTOR);
      }
    }
  }

  // ----- the root directory -----

  datatype DirectoryEntry = DirectoryEntry(name: seq<byte>, size: nat, start: nat)

  predicate ValidEntry(e: DirectoryEntry) {
    |e.name| == NAME_SIZE && e.size < DWORD_LIMIT && e.start < DWORD_LIMIT
  }

  function EntryAt(cluster: Block, i: nat): (e: DirectoryEntry)
    requires |cluster| == CLUSTER_SIZE && i < ENTRY_COUNT
    ensures ValidEntry(e)
  {
    var at := ENTRY_SIZE * i;
    DirectoryEntry(cluster[at..at + NAME_SIZE], DwordAt(cluster, 8 * i + 6), DwordAt(cluster, 8 * i + 7))
  }

  /** Entry `i` lies at byte 32 i of the root cluster: 24 bytes of name, then its size, then its first cluster. */
  lemma EntryLayout(cluster: Block, i: nat)
    requires |cluster| == CLUSTER_SIZE && i < ENTRY_COUNT
    ensures var e, b := EntryAt(cluster, i), cluster[32 * i..32 * i + 32];
            e.name == b[..24] && e.size == DwordAt(b, 6) && e.start == DwordAt(b, 7)
  {
  }

  function SetEntry(cluster: Block, i: nat, e: DirectoryEntry): (r: Block)
    requires |cluster| == CLUSTER_SIZE && i < ENTRY_COUNT && ValidEntry(e)
    ensures |r| == CLUSTER_SIZE
  {
    var at := ENTRY_SIZE * i;
    cluster[..at] + e.name + DwordBytes(e.size) + DwordBytes(e.start) + cluster[at + ENTRY_SIZE..]
  }

  ghost function EntriesOf(cluster: Block): (r: seq<DirectoryEntry>)
    requires |cluster| == CLUSTER_SIZE
    ensures |r| == ENTRY_COUNT && forall i :: 0 <= i < ENTRY_COUNT ==> r[i] == EntryAt(cluster, i)
  {
    seq(ENTRY_COUNT, i requires 0 <= i < ENTRY_COUNT => EntryAt(cluster, i))
  }

  lemma SetEntryGetEntry(cluster: Block, i: nat, e: DirectoryEntry, j: nat)
    requires |cluster| == CLUSTER_SIZE && i < ENTRY_COUNT && j < ENTRY_COUNT && ValidEntry(e)
    ensures EntryAt(SetEntry(cluster, i, e), j) == if j == i then e else EntryAt(cluster, j)
  {
    var r := SetEntry(cluster, i, e);
    if j == i {
      assert r[4 * (8 * i + 6)..4 * (8 * i + 6) + 4] == DwordBytes(e.size);
      assert r[4 * (8 * i + 7)..4 * (8 * i + 7) + 4] == DwordBytes(e.start);
      DwordRoundTrip(r, 8 * i + 6, e.size);
      DwordRoundTrip(r, 8 * i + 7, e.start);
    } else {
      assert r[32 * j..32 * j + 32] == cluster[32 * j..32 * j + 32];
      SameEntry(r, cluster, j);
    }
  }

  lemma SubSlice(a: Block, at: nat, lo: nat, hi: nat)
    requires at + 32 <= |a| && lo <= hi <= 32
    ensures a[at + lo..at + hi] == a[at..at + 32][lo..hi]
  {
    var whole, part := a[at..at + 32], a[at + lo..at + hi];
    forall k | 0 <= k < hi - lo
      ensures whole[lo..hi][k] == part[k]
    {
      assert whole[lo + k] == a[at + (lo + k)];
    }
  }

  lemma SameEntry(a: Block, b: Block, j: nat)
    requires |a| == |b| == CLUSTER_SIZE && j < ENTRY_COUNT && a[32 * j..32 * j + 32] == b[32 * j..32 * j + 32]
    ensures EntryAt(a, j) == EntryAt(b, j)
  {
    SubSlice(a, 32 * j, 0, 24);
    SubSlice(b, 32 * j, 0, 24);
    SubSlice(a, 32 * j, 24, 28);
    SubSlice(b, 32 * j, 24, 28);
    SubSlice(a, 32 * j, 28, 32);
    SubSlice(b, 32 * j, 28, 32);
    SameDword(a, b, 8 * j + 6);
    SameDword(a, b, 8 * j + 7);
  }

  /** Storing an entry changes that entry and no other. */
  lemma SetEntryUpdates(cluster: Block, i: nat, e: DirectoryEntry)
    requires |cluster| == CLUSTER_SIZE && i < ENTRY_COUNT && ValidEntry(e)
    ensures EntriesOf(SetEntry(cluster, i, e)) == EntriesOf(cluster)[i := e]
  {
    forall j | 0 <= j < ENTRY_COUNT
      ensures EntriesOf(SetEntry(cluster, i, e))[j] == EntriesOf(cluster)[i := e][j]
    {
      SetEntryGetEntry(cluster, i, e, j);
    }
  }

  ghost function Starts(entries: seq<DirectoryEntry>): (r: seq<nat>)
    ensures |r| == |entries| && forall i :: 0 <= i < |r| ==> r[i] == entries[i].start
  {
    seq(|entries|, i requires 0 <= i < |entries| => entries[i].start)
  }

  ghost function Sizes(entries: seq<DirectoryEntry>): (r: seq<nat>)
    ensures |r| == |entries| && forall i :: 0 <= i < |r| ==> r[i] == entries[i].size
  {
    seq(|entries|, i requires 0 <= i < |entries| => entries[i].size)
  }
}
