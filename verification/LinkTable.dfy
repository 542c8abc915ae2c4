/** Cluster chains in a link table: what it means that the table and the directory fit together, and how
    creating, extending, truncating and removing a file keep them together. */
module LinkTable {
  import opened Sequences

  const LAST_CLUSTER: nat := 0xFFFF_FFFF
  const FREE_CLUSTER: nat := 0
  const CLUSTER_SIZE: nat := 4096
  const ENTRY_COUNT: nat := 128

  /** The clusters a file of `size` bytes occupies; an empty file has one. */
  function ClusterCount(size: nat): (n: nat)
    ensures n >= 1
  {
    if size == 0 then 1 else (size + CLUSTER_SIZE - 1) / CLUSTER_SIZE
  }

  /** The links lead from each cluster of the chain to the next and end with the last-cluster mark. */
  ghost predicate IsChain(links: seq<nat>, total: nat, chain: seq<nat>) {
    && |chain| > 0 && total <= |links| && Distinct(chain)
    && (forall i :: 0 <= i < |chain| ==> 1 <= chain[i] < total)
    && (forall i :: 0 <= i < |chain| ==> links[chain[i]] == LinkAfter(chain, i))
  }

  function LinkAfter(chain: seq<nat>, i: nat): nat
    requires i < |chain|
  {
    if i + 1 < |chain| then chain[i + 1] else LAST_CLUSTER
  }

  ghost predicate Apart(a: seq<nat>, b: seq<nat>) {
    forall c :: c in a ==> c !in b
  }

  /** The chain of one directory entry: none for an unused entry, else one that starts at the entry's
      first cluster and is as long as the entry's size demands. */
  ghost predicate EntryChain(links: seq<nat>, total: nat, start: nat, size: nat, chain: seq<nat>) {
    if start == 0 then chain == []
    else IsChain(links, total, chain) && chain[0] == start && |chain| == ClusterCount(size)
  }

  ghost predicate OnSomeChain(chains: seq<seq<nat>>, c: nat) {
    exists e :: 0 <= e < |chains| && c in chains[e]
  }

  /** Every live entry has its chain, the chains do not meet, the root cluster stays marked, and a
      cluster is not free exactly when it is the root's or on some chain. */
  ghost predicate WellFormed(links: seq<nat>, total: nat, starts: seq<nat>, sizes: seq<nat>, chains: seq<seq<nat>>) {
    && 0 < total <= |links| && total < LAST_CLUSTER
    && |starts| == |sizes| == |chains| == ENTRY_COUNT
    && links[0] == LAST_CLUSTER
    && (forall e :: 0 <= e < ENTRY_COUNT ==> EntryChain(links, total, starts[e], sizes[e], chains[e]))
    && (forall e, f :: 0 <= e < ENTRY_COUNT && 0 <= f < ENTRY_COUNT && e != f ==> Apart(chains[e], chains[f]))
    && (forall c :: 1 <= c < total ==> (links[c] != FREE_CLUSTER <==> OnSomeChain(chains, c)))
  }

  /** A free cluster is on no chain. */
  lemma FreeIsOffChains(links: seq<nat>, total: nat, starts: seq<nat>, sizes: seq<nat>, chains: seq<seq<nat>>, c: nat)
    requires WellFormed(links, total, starts, sizes, chains)
    requires 1 <= c < total && links[c] == FREE_CLUSTER
    ensures forall e :: 0 <= e < ENTRY_COUNT ==> c !in chains[e]
  {
    assert !OnSomeChain(chains, c);
  }

  /** A chain is unharmed by changes off it. */
  lemma ChainFrame(links: seq<nat>, next: seq<nat>, total: nat, chain: seq<nat>)
    requires IsChain(links, total, chain) && total <= |next|
    requires forall i :: 0 <= i < |chain| ==> next[chain[i]] == links[chain[i]]
    ensures IsChain(next, total, chain)
  {
  }

  /** Linking a free cluster behind the last one extends the chain. */
  lemma ChainExtend(links: seq<nat>, total: nat, chain: seq<nat>, c: nat)
    requires IsChain(links, total, chain) && 1 <= c < total && c !in chain
    ensures IsChain(links[c := LAST_CLUSTER][chain[|chain| - 1] := c], total, chain + [c])
  {
    var last := chain[|chain| - 1];
    var next, longer := links[c := LAST_CLUSTER][last := c], chain + [c];
    forall i | 0 <= i < |longer|
      ensures next[longer[i]] == LinkAfter(longer, i)
    {
      if i + 1 < |chain| {
        assert chain[i] != last && links[chain[i]] == LinkAfter(chain, i);
      }
    }
  }

  /** From `links` to `next` the clusters of `was` that are not on `chain` are freed, those newly on
      `chain` were free, and no other cluster changes. */
  ghost predicate Rewired(links: seq<nat>, next: seq<nat>, total: nat, was: seq<nat>, chain: seq<nat>) {
    && |next| == |links| && total <= |links|
    && (forall c :: 1 <= c < total && c !in was && c !in chain ==> next[c] == links[c])
    && (forall c :: 1 <= c < total && c in was && c !in chain ==> next[c] == FREE_CLUSTER)
    && (forall c :: c in chain && c !in was ==> 1 <= c < total && links[c] == FREE_CLUSTER)
  }

  /** The table stays well formed when one entry gets another chain. */
  lemma ReplaceChain(links: seq<nat>, next: seq<nat>, total: nat, starts: seq<nat>, sizes: seq<nat>,
      chains: seq<seq<nat>>,
                     e: nat, start: nat, size: nat, chain: seq<nat>)
    requires WellFormed(links, total, starts, sizes, chains) && e < ENTRY_COUNT
    requires EntryChain(next, total, start, size, chain)
    requires |next| == |links| && next[0] == LAST_CLUSTER && Rewired(links, next, total, chains[e], chain)
    ensures WellFormed(next, total, starts[e := start], sizes[e := size], chains[e := chain])
  {
    NewChainsApart(links, next, total, starts, sizes, chains, e, chain);
    NewChainsFit(links, next, total, starts, sizes, chains, e, start, size, chain);
    forall c | 1 <= c < total
      ensures next[c] != FREE_CLUSTER <==> OnSomeChain(chains[e := chain], c)
    {
      StillCovered(links, next, total, starts, sizes, chains, e, start, size, chain, c);
    }
  }

  lemma NewChainsApart(links: seq<nat>, next: seq<nat>, total: nat, starts: seq<nat>, sizes: seq<nat>,
                       chains: seq<seq<nat>>, e: nat, chain: seq<nat>)
    requires WellFormed(links, total, starts, sizes, chains) && e < ENTRY_COUNT
    requires Rewired(links, next, total, chains[e], chain)
    ensures var news := chains[e := chain];
            forall f, g :: 0 <= f < ENTRY_COUNT && 0 <= g < ENTRY_COUNT && f != g ==> Apart(news[f], news[g])
  {
    var news := chains[e := chain];
    forall f, g | 0 <= f < ENTRY_COUNT && 0 <= g < ENTRY_COUNT && f != g
      ensures Apart(news[f], news[g])
    {
      if f == e {
        ChainsApart(links, next, total, starts, sizes, chains, e, chain, g);
      } else if g == e {
        ChainsApart(links, next, total, starts, sizes, chains, e, chain, f);
      } else {
        assert Apart(chains[f], chains[g]);
      }
    }
  }

  lemma NewChainsFit(links: seq<nat>, next: seq<nat>, total: nat, starts: seq<nat>, sizes: seq<nat>,
      chains: seq<seq<nat>>,
                     e: nat, start: nat, size: nat, chain: seq<nat>)
    requires WellFormed(links, total, starts, sizes, chains) && e < ENTRY_COUNT
    requires EntryChain(next, total, start, size, chain)
    requires Rewired(links, next, total, chains[e], chain)
    ensures forall f :: 0 <= f < ENTRY_COUNT && f != e ==> EntryChain(next, total, starts[f], sizes[f], chains[f])
  {
    forall f | 0 <= f < ENTRY_COUNT && f != e
      ensures EntryChain(next, total, starts[f], sizes[f], chains[f])
    {
      OtherChainUnharmed(links, next, total, starts, sizes, chains, e, chain, f);
    }
  }

  lemma ChainsApart(links: seq<nat>, next: seq<nat>, total: nat, starts: seq<nat>, sizes: seq<nat>,
                    chains: seq<seq<nat>>, e: nat, chain: seq<nat>, f: nat)
    requires WellFormed(links, total, starts, sizes, chains) && e < ENTRY_COUNT && f < ENTRY_COUNT && f != e
    requires Rewired(links, next, total, chains[e], chain)
    ensures Apart(chain, chains[f]) && Apart(chains[f], chain)
  {
    assert Apart(chains[e], chains[f]);
    forall c | c in chain
      ensures c !in chains[f]
    {
      if c !in chains[e] {
        FreeIsOffChains(links, total, starts, sizes, chains, c);
      }
    }
  }

  lemma OtherChainUnharmed(links: seq<nat>, next: seq<nat>, total: nat, starts: seq<nat>, sizes: seq<nat>,
                           chains: seq<seq<nat>>, e: nat, chain: seq<nat>, f: nat)
    requires WellFormed(links, total, starts, sizes, chains) && e < ENTRY_COUNT && f < ENTRY_COUNT && f != e
    requires Rewired(links, next, total, chains[e], chain)
    ensures EntryChain(next, total, starts[f], sizes[f], chains[f])
  {
    assert EntryChain(links, total, starts[f], sizes[f], chains[f]);
    if starts[f] != 0 {
      ChainsApart(links, next, total, starts, sizes, chains, e, chain, f);
      assert Apart(chains[f], chains[e]);
      ChainFrame(links, next, total, chains[f]);
    }
  }

  lemma StillCovered(links: seq<nat>, next: seq<nat>, total: nat, starts: seq<nat>, sizes: seq<nat>,
      chains: seq<seq<nat>>,
                     e: nat, start: nat, size: nat, chain: seq<nat>, c: nat)
    requires WellFormed(links, total, starts, sizes, chains) && e < ENTRY_COUNT
    requires EntryChain(next, total, start, size, chain)
    requires Rewired(links, next, total, chains[e], chain)
    requires 1 <= c < total
    ensures next[c] != FREE_CLUSTER <==> OnSomeChain(chains[e := chain], c)
  {
    var news := chains[e := chain];
    if c in chain {
      assert c in news[e];
      ChainNotFree(next, total, chain, c);
    } else if c in chains[e] {
      forall f | 0 <= f < ENTRY_COUNT
        ensures c !in news[f]
      {
        assert f != e ==> Apart(chains[e], chains[f]);
      }
    } else {
      if f :| 0 <= f < ENTRY_COUNT && c in chains[f] {
        assert c in news[f];
      } else {
        assert forall f :: 0 <= f < ENTRY_COUNT ==> c !in news[f];
      }
    }
  }

  /** The clusters of a chain are never marked free. */
  lemma ChainNotFree(links: seq<nat>, total: nat, chain: seq<nat>, c: nat)
    requires IsChain(links, total, chain) && c in chain
    ensures links[c] != FREE_CLUSTER
  {
    var i :| 0 <= i < |chain| && chain[i] == c;
  }

  /** The links after every cluster of `chain` has been marked free. */
  function Freed(links: seq<nat>, chain: seq<nat>): (r: seq<nat>)
    ensures |r| == |links|
    ensures forall c :: 0 <= c < |links| ==> r[c] == if c in chain then FREE_CLUSTER else links[c]
  {
    seq(|links|, c requires 0 <= c < |links| => if c in chain then FREE_CLUSTER else links[c])
  }

  /** `rest` is a chain or the rest of one: its links lead from each cluster to the next and then end. */
  ghost predicate ChainRest(links: seq<nat>, total: nat, rest: seq<nat>) {
    rest == [] || (total < LAST_CLUSTER && IsChain(links, total, rest))
  }

  /** Freeing one cluster after the other. */
  lemma RestLink(links: seq<nat>, total: nat, rest: seq<nat>, i: nat)
    requires ChainRest(links, total, rest) && i < |rest|
    ensures rest[i] < total <= |links| && total < LAST_CLUSTER
    ensures Freed(links, rest[..i])[rest[i]] == LinkAfter(rest, i)
    ensures Freed(links, rest[..i])[rest[i] := FREE_CLUSTER] == Freed(links, rest[..i + 1])
  {
    assert rest[i] !in rest[..i];
    assert rest[..i + 1] == rest[..i] + [rest[i]];
  }

  lemma FreedNothing(links: seq<nat>, rest: seq<nat>)
    ensures Freed(links, rest[..0]) == links && rest[..|rest|] == rest
  {
  }

  /** What is left of a chain without its first cluster. */
  lemma TailIsRest(links: seq<nat>, next: seq<nat>, total: nat, chain: seq<nat>)
    requires IsChain(links, total, chain) && |next| == |links| && total < LAST_CLUSTER
    requires forall c :: 0 <= c < |links| && c != chain[0] ==> next[c] == links[c]
    ensures ChainRest(next, total, chain[1..])
    ensures links[chain[0]] == if |chain| == 1 then LAST_CLUSTER else chain[1..][0]
  {
    var rest := chain[1..];
    assert links[chain[0]] == LinkAfter(chain, 0);
    forall i | 0 <= i < |rest|
      ensures next[rest[i]] == LinkAfter(rest, i)
    {
      assert links[chain[i + 1]] == LinkAfter(chain, i + 1);
    }
  }

  // ----- the four operations -----

  /** Creating a file on a free cluster. */
  lemma CreateKeeps(links: seq<nat>, total: nat, starts: seq<nat>, sizes: seq<nat>, chains: seq<seq<nat>>, e: nat,
      c: nat)
    requires WellFormed(links, total, starts, sizes, chains) && e < ENTRY_COUNT && starts[e] == 0
    requires 1 <= c < total && links[c] == FREE_CLUSTER
    ensures WellFormed(links[c := LAST_CLUSTER], total, starts[e := c], sizes[e := 0], chains[e := [c]])
  {
    assert EntryChain(links, total, starts[e], sizes[e], chains[e]);
    ReplaceChain(links, links[c := LAST_CLUSTER], total, starts, sizes, chains, e, c, 0, [c]);
  }

  /** Growing a file by one free cluster. */
  lemma ExtendKeeps(links: seq<nat>, total: nat, starts: seq<nat>, sizes: seq<nat>, chains: seq<seq<nat>>,
                    e: nat, c: nat, size: nat)
    requires WellFormed(links, total, starts, sizes, chains) && e < ENTRY_COUNT && starts[e] != 0
    requires 1 <= c < total && links[c] == FREE_CLUSTER
    requires ClusterCount(size) == |chains[e]| + 1
    ensures |chains[e]| > 0
    ensures WellFormed(links[c := LAST_CLUSTER][chains[e][|chains[e]| - 1] := c], total, starts, sizes[e := size],
                       chains[e := chains[e] + [c]])
  {
    var chain := chains[e];
    assert EntryChain(links, total, starts[e], sizes[e], chain);
    var last := chain[|chain| - 1];
    FreeIsOffChains(links, total, starts, sizes, chains, c);
    ChainExtend(links, total, chain, c);
    assert starts[e := starts[e]] == starts;
    ReplaceChain(links, links[c := LAST_CLUSTER][last := c], total, starts, sizes, chains, e, starts[e], size,
        chain + [c]);
  }

  /** A new size that needs as many clusters as the old one. */
  lemma ResizeKeeps(links: seq<nat>, total: nat, starts: seq<nat>, sizes: seq<nat>, chains: seq<seq<nat>>, e: nat,
      size: nat)
    requires WellFormed(links, total, starts, sizes, chains) && e < ENTRY_COUNT && starts[e] != 0
    requires ClusterCount(size) == |chains[e]|
    ensures WellFormed(links, total, starts, sizes[e := size], chains)
  {
    assert EntryChain(links, total, starts[e], sizes[e], chains[e]);
    assert forall f :: 0 <= f < ENTRY_COUNT ==> EntryChain(links, total, starts[f], sizes[f], chains[f]);
  }

  /** Emptying a file: the first cluster becomes the last, the others are freed. */
  lemma TruncateKeeps(links: seq<nat>, total: nat, starts: seq<nat>, sizes: seq<nat>, chains: seq<seq<nat>>, e: nat)
    requires WellFormed(links, total, starts, sizes, chains) && e < ENTRY_COUNT && starts[e] != 0
    ensures |chains[e]| > 0 && starts[e] < |links|
    ensures WellFormed(Freed(links[starts[e] := LAST_CLUSTER], chains[e][1..]), total, starts, sizes[e := 0],
                       chains[e := [starts[e]]])
  {
    var chain, s := chains[e], starts[e];
    assert EntryChain(links, total, s, sizes[e], chain);
    assert s !in chain[1..];
    assert starts[e := s] == starts;
    forall c | c in chain && c != s
      ensures c in chain[1..]
    {
      var i :| 0 <= i < |chain| && chain[i] == c;
      assert chain[1..][i - 1] == c;
    }
    ReplaceChain(links, Freed(links[s := LAST_CLUSTER], chain[1..]), total, starts, sizes, chains, e, s, 0, [s]);
  }

  /** Removing a file frees its whole chain. */
  lemma RemoveKeeps(links: seq<nat>, total: nat, starts: seq<nat>, sizes: seq<nat>, chains: seq<seq<nat>>, e: nat)
    requires WellFormed(links, total, starts, sizes, chains) && e < ENTRY_COUNT && starts[e] != 0
    ensures WellFormed(Freed(links, chains[e]), total, starts[e := 0], sizes[e := 0], chains[e := []])
  {
    assert EntryChain(links, total, starts[e], sizes[e], chains[e]);
    ReplaceChain(links, Freed(links, chains[e]), total, starts, sizes, chains, e, 0, 0, []);
  }

  // ----- counting free clusters -----

  /** The free clusters among the first `end`. */
  function FreeCount(links: seq<nat>, end: nat): nat {
    if end == 0 then 0
    else FreeCount(links, end - 1) + if end - 1 < |links| && links[end - 1] == FREE_CLUSTER then 1 else 0
  }

  lemma {:induction false} FreeCountUpdate(links: seq<nat>, c: nat, v: nat, end: nat)
    requires c < |links|
    ensures FreeCount(links[c := v], end) + (if c < end && links[c] == FREE_CLUSTER then 1 else 0) ==
            FreeCount(links, end) + (if c < end && v == FREE_CLUSTER then 1 else 0)
  {
    if end == 0 {
    } else {
      FreeCountUpdate(links, c, v, end - 1);
    }
  }

  lemma {:induction false} NoneCounted(links: seq<nat>, end: nat)
    ensures FreeCount(links, end) == 0 <==> forall c :: 0 <= c < end && c < |links| ==> links[c] != FREE_CLUSTER
  {
    if end == 0 {
    } else {
      NoneCounted(links, end - 1);
    }
  }

  /** Linking a free cluster behind the last one of a chain uses up that cluster and no other. */
  lemma ExtendCounts(links: seq<nat>, c: nat, last: nat, end: nat)
    requires c < end && c < |links| && links[c] == FREE_CLUSTER && last < |links| && links[last] != FREE_CLUSTER
    requires c != 0
    ensures FreeCount(links[c := LAST_CLUSTER][last := c], end) + 1 == FreeCount(links, end)
  {
    FreeCountUpdate(links, c, LAST_CLUSTER, end);
    FreeCountUpdate(links[c := LAST_CLUSTER], last, c, end);
  }

  // ----- what well-formedness says -----

  /** The links determine the chain: two chains from the same cluster are the same. */
  lemma {:induction false} ChainIsDetermined(links: seq<nat>, total: nat, a: seq<nat>, b: seq<nat>)
    requires IsChain(links, total, a) && IsChain(links, total, b) && a[0] == b[0] && total < LAST_CLUSTER
    ensures a == b
  {
    forall i | 0 <= i < |a|
      ensures i < |b| && a[i] == b[i]
    {
      SameStep(links, total, a, b, i);
    }
    SameStep(links, total, b, a, |b| - 1);
  }

  lemma {:induction false} SameStep(links: seq<nat>, total: nat, a: seq<nat>, b: seq<nat>, i: nat)
    requires IsChain(links, total, a) && IsChain(links, total, b) && a[0] == b[0] && total < LAST_CLUSTER
    requires i < |a|
    ensures i < |b| && a[i] == b[i]
  {
    if i == 0 {
    } else {
      SameStep(links, total, a, b, i - 1);
      assert links[a[i - 1]] == LinkAfter(a, i - 1) == a[i];
      assert links[b[i - 1]] == LinkAfter(b, i - 1);
    }
  }

  /** Every cluster in use lies on the chain of exactly one entry. */
  lemma UsedClusterHasOneOwner(links: seq<nat>, total: nat, starts: seq<nat>, sizes: seq<nat>, chains: seq<seq<nat>>,
                               c: nat, e: nat, f: nat)
    requires WellFormed(links, total, starts, sizes, chains)
    requires 1 <= c < total && e < ENTRY_COUNT && f < ENTRY_COUNT
    ensures c in chains[e] && c in chains[f] ==> e == f
    ensures links[c] != FREE_CLUSTER <==> OnSomeChain(chains, c)
  {
    assert e != f ==> Apart(chains[e], chains[f]);
  }
}
