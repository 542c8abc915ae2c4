/** What creating, emptying and removing a file do to the whole state: the links, the directory and the
    open handles stay together, and every other file keeps its bytes. */
module DirectorySteps {
  import opened CacheTable
  import opened CachedArea
  import opened LinkTable
  import opened FileContent
  import opened DiskFormat
  import opened FileSteps
  import opened FileHandles
  import opened Sequences

  /** An entry not in use carries no name. */
  ghost predicate Tidy(es: seq<DirectoryEntry>) {
    forall i :: 0 <= i < |es| && es[i].start == 0 ==> |es[i].name| > 0 && es[i].name[0] == 0
  }

  lemma ResizedTidy(es: seq<DirectoryEntry>, e: nat, size: nat)
    requires Tidy(es) && NamesDiffer(es) && e < |es|
    ensures Tidy(Resized(es, e, size)) && NamesDiffer(Resized(es, e, size))
  {
    hide StoredName;
  }

  /** The links, the directory and the handles fit together. */
  ghost predicate Fits(v: View, total: nat, es: seq<DirectoryEntry>, hs: seq<Handle>) {
    && |es| == ENTRY_COUNT && Sound(v, total, Starts(es), Sizes(es)) && HandlesOk(hs, es, v.chains)
    && Tidy(es) && NamesDiffer(es)
  }

  /** No two live entries have the same name. */
  ghost predicate NamesDiffer(es: seq<DirectoryEntry>) {
    forall i, j :: 0 <= i < j < |es| && es[i].start != 0 && es[j].start != 0 ==>
      StoredName(es[i].name) != StoredName(es[j].name)
  }

  /** No live entry has this name. */
  ghost predicate NameIsNew(es: seq<DirectoryEntry>, name: seq<byte>) {
    forall i :: 0 <= i < |es| && es[i].start != 0 ==> StoredName(es[i].name) != name
  }

  /** An entry that is removed, keeps its name or gets a new one leaves the names different. */
  lemma NamesStayDifferent(es: seq<DirectoryEntry>, e: nat, entry: DirectoryEntry)
    requires NamesDiffer(es) && e < |es|
    requires entry.start == 0 || (entry.name == es[e].name && es[e].start != 0) || NameIsNew(es, StoredName(entry.name))
    ensures NamesDiffer(es[e := entry])
  {
    hide StoredName;
  }

  lemma FitsSizes(v: View, total: nat, es: seq<DirectoryEntry>, hs: seq<Handle>)
    requires Fits(v, total, es, hs)
    ensures |v.chains| == ENTRY_COUNT && 0 < total <= |v.links| && total <= |v.clusters| && total < LAST_CLUSTER
  {
  }

  ghost predicate NotOpen(hs: seq<Handle>, e: int) {
    forall h :: 0 <= h < |hs| && hs[h].File? ==> hs[h].entry != e
  }

  /** A file whose handle is not open may get another entry and another chain. */
  lemma HandlesKept(hs: seq<Handle>, es: seq<DirectoryEntry>, chains: seq<seq<nat>>, e: nat, entry: DirectoryEntry,
                    chain: seq<nat>)
    requires HandlesOk(hs, es, chains) && e < |es| && e < |chains| && NotOpen(hs, e)
    ensures HandlesOk(hs, es[e := entry], chains[e := chain])
  {
    forall i | 0 <= i < |hs|
      ensures HandleOk(hs[i], es[e := entry], chains[e := chain])
    {
      assert HandleOk(hs[i], es, chains);
    }
  }

  lemma UnusedIsNotOpen(hs: seq<Handle>, es: seq<DirectoryEntry>, chains: seq<seq<nat>>, e: nat)
    requires HandlesOk(hs, es, chains) && e < |es| && es[e].start == 0
    ensures NotOpen(hs, e)
  {
    forall h | 0 <= h < |hs| && hs[h].File?
      ensures hs[h].entry != e
    {
      assert HandleOk(hs[h], es, chains);
    }
  }

  lemma NewIsNotOpen(v: View, total: nat, es: seq<DirectoryEntry>, hs: seq<Handle>, e: nat)
    requires Fits(v, total, es, hs) && e < ENTRY_COUNT && es[e].start == 0
    ensures NotOpen(hs, e)
  {
    UnusedIsNotOpen(hs, es, v.chains, e);
  }

  lemma EntryColumns(es: seq<DirectoryEntry>, e: nat, entry: DirectoryEntry)
    requires e < |es|
    ensures Starts(es[e := entry]) == Starts(es)[e := entry.start]
    ensures Sizes(es[e := entry]) == Sizes(es)[e := entry.size]
  {
  }

  /** The state after entry `e` got new links, a new chain and a new directory entry, the root cluster
      having become `b`. */
  function Replaced(v: View, links: seq<nat>, e: nat, chain: seq<nat>, b: Block): View
    requires e < |v.chains| && 0 < |v.clusters|
  {
    View(links, v.clusters[0 := b], v.chains[e := chain])
  }

  lemma ReplaceStep(v: View, total: nat, es: seq<DirectoryEntry>, hs: seq<Handle>, links: seq<nat>,
                    e: nat, entry: DirectoryEntry, chain: seq<nat>, b: Block)
    requires Fits(v, total, es, hs) && e < ENTRY_COUNT && NotOpen(hs, e) && |b| == CLUSTER_SIZE
    requires WellFormed(links, total, Starts(es)[e := entry.start], Sizes(es)[e := entry.size], v.chains[e := chain])
    requires entry.start == 0 ==> |entry.name| > 0 && entry.name[0] == 0
    requires NamesDiffer(es[e := entry])
    ensures |v.clusters| > 0 && Fits(Replaced(v, links, e, chain, b), total, es[e := entry], hs)
    ensures OthersKept(v, Replaced(v, links, e, chain, b), Starts(es), Sizes(es), e)
  {
    hide WellFormed, ContentOf, HandlesOk, NamesDiffer;
    FitsSizes(v, total, es, hs);
    EntryColumns(es, e, entry);
    HandlesKept(hs, es, v.chains, e, entry, chain);
    RewiredSound(v, total, Starts(es), Sizes(es), links, e, entry.start, entry.size, chain);
    var x := View(links, v.clusters, v.chains[e := chain]);
    RootRewritten(x, total, Starts(es)[e := entry.start], Sizes(es)[e := entry.size], b);
    OthersAfterReplace(v, x, Replaced(v, links, e, chain, b), Starts(es), Sizes(es), e, entry.start, entry.size);
  }

  lemma RewiredSound(v: View, total: nat, starts: seq<nat>, sizes: seq<nat>, links: seq<nat>, e: nat, start: nat,
                     size: nat, chain: seq<nat>)
    requires Sound(v, total, starts, sizes) && e < ENTRY_COUNT
    requires WellFormed(links, total, starts[e := start], sizes[e := size], v.chains[e := chain])
    ensures Sound(View(links, v.clusters, v.chains[e := chain]), total, starts[e := start], sizes[e := size])
    ensures forall f :: 0 <= f < ENTRY_COUNT && f != e ==>
              ContentOf(View(links, v.clusters, v.chains[e := chain]), f, sizes[f]) == ContentOf(v, f, sizes[f])
  {
    forall f | 0 <= f < ENTRY_COUNT && f != e
      ensures ContentOf(View(links, v.clusters, v.chains[e := chain]), f, sizes[f]) == ContentOf(v, f, sizes[f])
    {
      assert v.chains[e := chain][f] == v.chains[f];
    }
  }

  lemma OthersAfterReplace(v: View, x: View, w: View, starts: seq<nat>, sizes: seq<nat>, e: nat, start: nat, size: nat)
    requires |starts| == |sizes| == ENTRY_COUNT && e < ENTRY_COUNT
    requires forall f :: 0 <= f < ENTRY_COUNT && f != e ==> ContentOf(x, f, sizes[f]) == ContentOf(v, f, sizes[f])
    requires OthersKept(x, w, starts[e := start], sizes[e := size], -1)
    ensures OthersKept(v, w, starts, sizes, e)
  {
    hide ContentOf;
    forall f | 0 <= f < ENTRY_COUNT && f != e && starts[f] != 0
      ensures ContentOf(w, f, sizes[f]) == ContentOf(v, f, sizes[f])
    {
      assert starts[e := start][f] == starts[f] && sizes[e := size][f] == sizes[f];
    }
  }

  lemma CreateStep(v: View, total: nat, es: seq<DirectoryEntry>, hs: seq<Handle>, e: nat, name: seq<byte>, c: nat,
      b: Block)
    requires Fits(v, total, es, hs) && e < ENTRY_COUNT && es[e].start == 0 && |b| == CLUSTER_SIZE
    requires 1 <= c < total && c < |v.links| && v.links[c] == FREE_CLUSTER && NameIsNew(es, StoredName(name))
    ensures |v.clusters| > 0 && e < |v.chains|
    ensures Fits(Replaced(v, v.links[c := LAST_CLUSTER], e, [c], b), total, es[e := DirectoryEntry(name, 0, c)], hs)
    ensures OthersKept(v, Replaced(v, v.links[c := LAST_CLUSTER], e, [c], b), Starts(es), Sizes(es), e)
  {
    hide WellFormed, HandlesOk, OthersKept;
    FitsSizes(v, total, es, hs);
    CreateKeeps(v.links, total, Starts(es), Sizes(es), v.chains, e, c);
    UnusedIsNotOpen(hs, es, v.chains, e);
    NamesStayDifferent(es, e, DirectoryEntry(name, 0, c));
    ReplaceStep(v, total, es, hs, v.links[c := LAST_CLUSTER], e, DirectoryEntry(name, 0, c), [c], b);
  }

  /** The links after the file of entry `e` has been emptied: its first cluster is its last one. */
  ghost function EmptiedLinks(v: View, e: nat, s: nat): (r: seq<nat>) {
    if s < |v.links| && e < |v.chains| && |v.chains[e]| > 0 then Freed(v.links[s := LAST_CLUSTER], v.chains[e][1..])
    else v.links
  }

  lemma TruncateStep(v: View, total: nat, es: seq<DirectoryEntry>, hs: seq<Handle>, e: nat, b: Block)
    requires Fits(v, total, es, hs) && e < ENTRY_COUNT && es[e].start != 0 && NotOpen(hs, e) && |b| == CLUSTER_SIZE
    ensures |v.clusters| > 0 && e < |v.chains|
    ensures Fits(Replaced(v, EmptiedLinks(v, e, es[e].start), e, [es[e].start], b), total, Resized(es, e, 0), hs)
    ensures OthersKept(v, Replaced(v, EmptiedLinks(v, e, es[e].start), e, [es[e].start], b), Starts(es), Sizes(es), e)
  {
    hide WellFormed, HandlesOk, OthersKept, Freed;
    FitsSizes(v, total, es, hs);
    TruncateKeeps(v.links, total, Starts(es), Sizes(es), v.chains, e);
    assert Starts(es)[e := es[e].start] == Starts(es);
    NamesStayDifferent(es, e, es[e].(size := 0));
    ReplaceStep(v, total, es, hs, EmptiedLinks(v, e, es[e].start), e, es[e].(size := 0), [es[e].start], b);
  }

  /** A removed entry: all bytes zero. */
  function ZeroEntry(): (r: DirectoryEntry)
    ensures ValidEntry(r) && r.start == 0 && r.size == 0 && forall i :: 0 <= i < NAME_SIZE ==> r.name[i] == 0
  {
    DirectoryEntry(seq(NAME_SIZE, _ => 0), 0, 0)
  }

  lemma RemoveStep(v: View, total: nat, es: seq<DirectoryEntry>, hs: seq<Handle>, e: nat, b: Block)
    requires Fits(v, total, es, hs) && e < ENTRY_COUNT && es[e].start != 0 && NotOpen(hs, e) && |b| == CLUSTER_SIZE
    ensures |v.clusters| > 0 && e < |v.chains|
    ensures Fits(Replaced(v, Freed(v.links, v.chains[e]), e, [], b), total, es[e := ZeroEntry()], hs)
    ensures OthersKept(v, Replaced(v, Freed(v.links, v.chains[e]), e, [], b), Starts(es), Sizes(es), e)
  {
    hide WellFormed, HandlesOk, OthersKept, Freed;
    FitsSizes(v, total, es, hs);
    RemoveKeeps(v.links, total, Starts(es), Sizes(es), v.chains, e);
    NamesStayDifferent(es, e, ZeroEntry());
    ReplaceStep(v, total, es, hs, Freed(v.links, v.chains[e]), e, ZeroEntry(), [], b);
  }

  /** A name matches only live entries, for unused ones carry no name. */
  lemma MatchIsLive(es: seq<DirectoryEntry>, name: seq<byte>, e: nat)
    requires Tidy(es) && e < |es| && 0 < |name| && name[0] != 0 && name <= es[e].name
    ensures es[e].start != 0
  {
  }

  lemma UnusedMatchesNothing(es: seq<DirectoryEntry>, name: seq<byte>, e: nat)
    requires Tidy(es) && e < |es| && 0 < |name| && name[0] != 0 && es[e].start == 0
    ensures !(name <= es[e].name)
  {
  }

  /** Two live entries never have the same first cluster, so an open handle with the first cluster of an
      entry is a handle on that entry. */
  lemma SameStartSameEntry(v: View, total: nat, es: seq<DirectoryEntry>, hs: seq<Handle>, e: nat, h: nat)
    requires Fits(v, total, es, hs) && e < ENTRY_COUNT && es[e].start != 0 && h < |hs| && hs[h].File?
    ensures hs[h].start == es[e].start <==> hs[h].entry == e
  {
    hide WellFormed, HandlesOk;
    HandleIsOk(hs, es, v.chains, h);
    var f := hs[h].entry;
    SoundHolds(v, total, Starts(es), Sizes(es), e);
    SoundHolds(v, total, Starts(es), Sizes(es), f);
    if f != e {
      SoundApart(v, total, Starts(es), Sizes(es), e, f) by { assert Sound(v, total, Starts(es), Sizes(es)); }
      assert v.chains[e][0] in v.chains[e] && v.chains[f][0] in v.chains[f];
    }
  }

  lemma HandleIsOk(hs: seq<Handle>, es: seq<DirectoryEntry>, chains: seq<seq<nat>>, h: nat)
    requires HandlesOk(hs, es, chains) && h < |hs|
    ensures HandleOk(hs[h], es, chains)
  {
  }

  /** A new handle on a file that is not open yet, with the cursor at its start. */
  function Opened(entry: DirectoryEntry, e: nat): Handle {
    File(e, entry.size, entry.start, entry.start, entry.start, 0)
  }

  lemma OpenStep(v: View, total: nat, es: seq<DirectoryEntry>, hs: seq<Handle>, e: nat, h: nat)
    requires Fits(v, total, es, hs) && e < ENTRY_COUNT && es[e].start != 0 && es[e].size < DWORD_LIMIT
    requires NotOpen(hs, e) && h < |hs| && hs[h].Unused?
    ensures Fits(v, total, es, hs[h := Opened(es[e], e)])
  {
    hide WellFormed;
    SoundHolds(v, total, Starts(es), Sizes(es), e);
    var ks := hs[h := Opened(es[e], e)];
    forall i | 0 <= i < |ks|
      ensures HandleOk(ks[i], es, v.chains)
    {
      assert i != h ==> HandleOk(hs[i], es, v.chains);
    }
  }

  /** The first unused handle, or -1. */
  function FirstUnused(hs: seq<Handle>, i: nat): (r: int)
    requires i <= |hs|
    ensures r == -1 || (i <= r < |hs| && hs[r].Unused?)
    ensures forall k :: i <= k < (if r == -1 then |hs| else r) ==> hs[k].File?
    decreases |hs| - i
  {
    if i == |hs| then -1 else if hs[i].Unused? then i else FirstUnused(hs, i + 1)
  }

  lemma CloseStep(v: View, total: nat, es: seq<DirectoryEntry>, hs: seq<Handle>, h: nat)
    requires Fits(v, total, es, hs) && h < |hs|
    ensures Fits(v, total, es, hs[h := Unused])
  {
    hide Sound;
    var ks := hs[h := Unused];
    forall i | 0 <= i < |ks|
      ensures HandleOk(ks[i], es, v.chains)
    {
      assert HandleOk(hs[i], es, v.chains);
    }
  }

  // ----- the lookup by name -----

  /** The string stored in a name field: the bytes before the first zero byte. */
  function StoredName(field: seq<byte>): (r: seq<byte>) {
    if field == [] || field[0] == 0 then [] else [field[0]] + StoredName(field[1..])
  }

  ghost predicate IsName(name: seq<byte>) {
    0 < |name| < NAME_SIZE && forall i :: 0 <= i < |name| ==> name[i] != 0
  }

  /** A name has 1 to 23 characters, none of them zero. */
  lemma NameLengths(name: seq<byte>)
    ensures IsName(name) <==> 1 <= |name| <= 23 && 0 !in name
  {
  }

  /** The index of the first entry from `i` on whose name field begins with `name`, or -1. */
  function FirstMatch(entries: seq<DirectoryEntry>, name: seq<byte>, i: nat): (r: int)
    requires i <= |entries|
    ensures r == -1 || (i <= r < |entries| && name <= entries[r].name)
    ensures forall k :: i <= k < (if r == -1 then |entries| else r) ==> !(name <= entries[k].name)
    decreases |entries| - i
  {
    if i == |entries| then -1 else if name <= entries[i].name then i else FirstMatch(entries, name, i + 1)
  }

  /** The stored name begins with `name` exactly when the field does. */
  lemma {:induction false} FieldPrefix(field: seq<byte>, name: seq<byte>)
    requires forall i :: 0 <= i < |name| ==> name[i] != 0
    ensures name <= field <==> name <= StoredName(field)
  {
    if name != [] && field != [] && field[0] != 0 {
      FieldPrefix(field[1..], name[1..]);
      assert field == [field[0]] + field[1..];
      if name <= field {
        assert name[1..] <= field[1..];
      }
      if name <= StoredName(field) {
        assert StoredName(field)[1..] == StoredName(field[1..]);
        assert name[1..] <= StoredName(field[1..]);
      }
    } else if name != [] {
      assert StoredName(field) == [];
    }
  }

  /** The lookup finds the entry `e` that has the name looked for if and only if no entry before it has a
      name that only begins with it. */
  lemma LookupIsExact(es: seq<DirectoryEntry>, name: seq<byte>, e: nat)
    requires IsName(name) && e < |es| && StoredName(es[e].name) == name
    ensures FirstMatch(es, name, 0) == e <==> (forall k :: 0 <= k < e ==> !(name <= StoredName(es[k].name)))
  {
    forall k | 0 <= k <= e
      ensures name <= es[k].name <==> name <= StoredName(es[k].name)
    {
      FieldPrefix(es[k].name, name);
    }
  }

  /** Without an entry of that name the lookup fails if and only if no stored name begins with it. */
  lemma LookupFails(es: seq<DirectoryEntry>, name: seq<byte>)
    requires IsName(name)
    ensures FirstMatch(es, name, 0) == -1 <==> (forall k :: 0 <= k < |es| ==> !(name <= StoredName(es[k].name)))
  {
    forall k | 0 <= k < |es|
      ensures name <= es[k].name <==> name <= StoredName(es[k].name)
    {
      FieldPrefix(es[k].name, name);
    }
  }

  /** A file is created only when the lookup fails, and then its name is new. */
  lemma FailedLookupMeansNew(es: seq<DirectoryEntry>, name: seq<byte>)
    requires IsName(name) && FirstMatch(es, name, 0) == -1
    ensures NameIsNew(es, name)
  {
    LookupFails(es, name);
  }

  /** A directory in which the lookup of a name that no file has finds another file, and so does the lookup
      of a name that a file has. */
  lemma LookupTakesPrefix()
    ensures var rest: seq<byte> := seq(NAME_SIZE - 2, _ => 0);
            var ab, a := DirectoryEntry([97, 98] + rest, 0, 1), DirectoryEntry([97, 0] + rest, 0, 2);
            && StoredName(ab.name) == [97, 98] && StoredName(a.name) == [97]
            && FirstMatch([ab], [97], 0) == 0 && FirstMatch([ab, a], [97], 0) == 0
  {
    var rest: seq<byte> := seq(NAME_SIZE - 2, _ => 0);
    var ab, a: seq<byte> := [97, 98] + rest, [97, 0] + rest;
    assert ab[1..] == [98] + rest && ab[1..][1..] == rest;
    assert StoredName(rest) == [];
    assert StoredName(ab[1..]) == [98];
    assert a[1..] == [0] + rest;
    assert StoredName(a[1..]) == [];
    assert [97] <= ab;
  }

  /** The name field of a new entry: the name, its zero byte, and whatever the buffer held behind it. */
  lemma {:induction false} NewNameField(name: seq<byte>, rest: seq<byte>)
    requires forall i :: 0 <= i < |name| ==> name[i] != 0
    ensures StoredName(name + [0] + rest) == name
  {
    if name == [] {
      assert (name + [0] + rest)[0] == 0;
    } else {
      NewNameField(name[1..], rest);
      assert (name + [0] + rest)[1..] == name[1..] + [0] + rest;
    }
  }

  // ----- what creating and opening do, seen from outside -----

  /** From `v`, `es` to `w`, `fs` the file of entry `e` has been created: the entry was the first unused
      one; the file has one cluster, which was free, and no bytes.  Every other entry and file is as it was. */
  ghost predicate Created(v: View, es: seq<DirectoryEntry>, name: seq<byte>, rest: seq<byte>, e: int,
                          w: View, fs: seq<DirectoryEntry>) {
    && 0 <= e < |es| && es[e].start == 0 && e < |w.chains| && |w.chains[e]| == 1
    && (forall i :: 0 <= i < e ==> es[i].start != 0)
    && fs == es[e := DirectoryEntry(name + [0] + rest, 0, w.chains[e][0])] && StoredName(fs[e].name) == name
    && w.chains[e][0] < |v.links| && v.links[w.chains[e][0]] == FREE_CLUSTER
    && ContentOf(w, e, 0) == [] && OthersKept(v, w, Starts(es), Sizes(es), e)
  }

  /** What opening by name does to the files, `e` being the entry to open or -1, and `full` whether the search
      for a free cluster finds none. */
  ghost predicate Prepared(v: View, es: seq<DirectoryEntry>, name: seq<byte>, rest: seq<byte>, mode: char, e: int,
                           w: View, fs: seq<DirectoryEntry>, full: bool) {
    var m := FirstMatch(es, name, 0);
    if m == -1 then
      && (e == -1 <==> mode == 'r' || full || forall i :: 0 <= i < |es| ==> es[i].start != 0)
      && (if e == -1 then w == v && fs == es else Created(v, es, name, rest, e, w, fs))
    else if mode == 'w' then
      && e == m && fs == Resized(es, e, 0) && ContentOf(w, e, 0) == []
      && w.links == EmptiedLinks(v, e, es[e].start)
      && OthersKept(v, w, Starts(es), Sizes(es), e)
    else
      e == m && w == v && fs == es
  }

  /** The first match is the entry that matches when none before it does. */
  lemma {:induction false} MatchIsFirst(es: seq<DirectoryEntry>, name: seq<byte>, i: nat, e: nat)
    requires i <= e < |es| && name <= es[e].name && forall k :: i <= k < e ==> !(name <= es[k].name)
    ensures FirstMatch(es, name, i) == e
    decreases e - i
  {
    if i == e {
    } else {
      MatchIsFirst(es, name, i + 1, e);
    }
  }

  /** After opening for writing the lookup finds the opened entry, which is empty. */
  lemma PreparedToWrite(v: View, es: seq<DirectoryEntry>, name: seq<byte>, rest: seq<byte>, e: int,
                        w: View, fs: seq<DirectoryEntry>, full: bool)
    requires Prepared(v, es, name, rest, 'w', e, w, fs, full)
    ensures e == -1 <==> FirstMatch(es, name, 0) == -1 && (full || forall i :: 0 <= i < |es| ==> es[i].start != 0)
    ensures e != -1 ==> 0 <= e < |fs| && FirstMatch(fs, name, 0) == e && fs[e].size == 0
  {
    hide ContentOf, OthersKept;
    if e != -1 {
      MatchIsFirst(fs, name, 0, e);
    }
  }

  /** Neither a new size nor a new start keeps an entry from being found. */
  lemma ResizedIsFound(es: seq<DirectoryEntry>, name: seq<byte>, e: nat, size: nat)
    requires e < |es| && FirstMatch(es, name, 0) == e
    ensures FirstMatch(Resized(es, e, size), name, 0) == e
  {
    MatchIsFirst(Resized(es, e, size), name, 0, e);
  }
}
