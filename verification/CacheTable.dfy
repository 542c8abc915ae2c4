/** One table of the cache manager: buffers with tags and access times, a logical clock, and the
    renumbering of the times when the clock nears its end. */
module CacheTable {

  newtype byte = x: int | 0 <= x < 256

  const INVALID_TAG: nat := 0xFFFF_FFFF
  const PENDING_TAG: nat := 0xFFFF_FFFE
  const CLOCK_END: nat := 0xFFFF_FFFE

  datatype CacheBuffer = CacheBuffer(tag: nat, time: nat, changed: bool, data: seq<byte>)

  predicate Live(b: CacheBuffer) {
    b.tag != INVALID_TAG
  }

  // ----- what the table means -----

  /** The position of the last use of `tag` in the history of uses. */
  ghost function LastUse(history: seq<nat>, tag: nat): int
    ensures -1 <= LastUse(history, tag) < |history|
    ensures LastUse(history, tag) >= 0 ==> history[LastUse(history, tag)] == tag
    ensures tag in history ==> LastUse(history, tag) >= 0
  {
    if history == [] then -1
    else if history[|history| - 1] == tag then |history| - 1
    else LastUse(history[..|history| - 1], tag)
  }

  /** The live buffers other than `skip` carry distinct tags, all of them used before, with access
      times below the clock that are ordered as their last uses are. */
  ghost predicate Ordered(buffers: seq<CacheBuffer>, clock: nat, history: seq<nat>, skip: int) {
    && (forall i :: 0 <= i < |buffers| && i != skip && Live(buffers[i]) ==>
          buffers[i].time < clock && buffers[i].tag in history)
    && (forall i, j :: 0 <= i < |buffers| && 0 <= j < |buffers| && i != j && i != skip && j != skip &&
                       Live(buffers[i]) && Live(buffers[j]) ==>
          && buffers[i].tag != buffers[j].tag
          && (buffers[i].time < buffers[j].time <==>
              LastUse(history, buffers[i].tag) < LastUse(history, buffers[j].tag)))
  }

  ghost predicate AllLive(buffers: seq<CacheBuffer>) {
    forall i :: 0 <= i < |buffers| ==> Live(buffers[i])
  }

  /** Renumbering a permutation keeps whether all buffers are in use. */
  lemma AllLivePermuted(was: seq<CacheBuffer>, sorted: seq<CacheBuffer>)
    requires multiset(sorted) == multiset(was)
    ensures AllLive(Renumber(sorted)) <==> AllLive(was)
  {
    SameMembers(was, sorted);
    SameMembers(sorted, was);
    var now := Renumber(sorted);
    forall i | 0 <= i < |sorted|
      ensures Live(now[i]) <==> Live(sorted[i])
    {
    }
  }

  /** One more use makes its tag the latest and leaves the last uses of all others. */
  lemma UsedAgain(history: seq<nat>, t: nat, u: nat)
    ensures LastUse(history + [t], u) == if u == t then |history| else LastUse(history, u)
  {
    assert (history + [t])[..|history|] == history;
  }

  lemma SameMembers(a: seq<CacheBuffer>, b: seq<CacheBuffer>)
    requires multiset(a) == multiset(b)
    ensures AllLive(a) ==> AllLive(b)
  {
    forall i | 0 <= i < |b| && AllLive(a)
      ensures Live(b[i])
    {
      assert b[i] in multiset(b);
      assert b[i] in a;
    }
  }

  /** Using the buffer at `i` now: it gets the clock's time and its tag becomes the latest use. */
  lemma UseBuffer(buffers: seq<CacheBuffer>, clock: nat, history: seq<nat>, i: nat, b: CacheBuffer)
    requires Ordered(buffers, clock, history, i)
    requires i < |buffers| && Live(b) && b.time == clock
    requires forall j :: 0 <= j < |buffers| && j != i && Live(buffers[j]) ==> buffers[j].tag != b.tag
    ensures Ordered(buffers[i := b], clock + 1, history + [b.tag], -1)
  {
    var next, uses := buffers[i := b], history + [b.tag];
    assert uses[..|uses| - 1] == history;
    forall j | 0 <= j < |next| && j != i && Live(next[j])
      ensures LastUse(uses, next[j].tag) == LastUse(history, next[j].tag)
    {
    }
    assert LastUse(uses, b.tag) == |history|;
  }

  /** The order of the others survives any change of one buffer. */
  lemma OrderedOthers(buffers: seq<CacheBuffer>, clock: nat, history: seq<nat>, i: nat, b: CacheBuffer)
    requires Ordered(buffers, clock, history, -1) && i < |buffers|
    ensures Ordered(buffers[i := b], clock, history, i)
  {
  }

  /** Content and change mark play no part in the order. */
  lemma OrderedSameKeys(buffers: seq<CacheBuffer>, clock: nat, history: seq<nat>, i: nat, b: CacheBuffer)
    requires Ordered(buffers, clock, history, -1) && i < |buffers|
    requires b.tag == buffers[i].tag && b.time == buffers[i].time
    ensures Ordered(buffers[i := b], clock, history, -1)
  {
    var next := buffers[i := b];
    assert forall k :: 0 <= k < |next| ==> next[k].tag == buffers[k].tag && next[k].time == buffers[k].time;
  }

  /** Among live buffers the one with the least time is the one whose last use is oldest. */
  lemma LeastTimeIsLeastRecent(buffers: seq<CacheBuffer>, clock: nat, history: seq<nat>, v: nat)
    requires Ordered(buffers, clock, history, -1) && v < |buffers|
    requires forall i :: 0 <= i < |buffers| ==> Live(buffers[i]) && buffers[v].time <= buffers[i].time
    ensures forall i :: 0 <= i < |buffers| ==>
              LastUse(history, buffers[v].tag) <= LastUse(history, buffers[i].tag)
  {
  }

  /** What the live buffers other than `skip` hold: tag, whether it was changed, and content. */
  ghost function Held(buffers: seq<CacheBuffer>, skip: int): set<(nat, bool, seq<byte>)> {
    set i | 0 <= i < |buffers| && i != skip && Live(buffers[i]) :: Content(buffers[i])
  }

  ghost function Content(b: CacheBuffer): (nat, bool, seq<byte>) {
    (b.tag, b.changed, b.data)
  }

  lemma HeldSplit(buffers: seq<CacheBuffer>, i: nat)
    requires i < |buffers| && Live(buffers[i])
    ensures Held(buffers, -1) == Held(buffers, i) + {Content(buffers[i])}
  {
  }

  lemma HeldUpdate(buffers: seq<CacheBuffer>, i: nat, b: CacheBuffer)
    requires i < |buffers|
    ensures Held(buffers[i := b], i) == Held(buffers, i)
    ensures !Live(buffers[i]) ==> Held(buffers, i) == Held(buffers, -1)
    ensures Live(b) ==> Held(buffers[i := b], -1) == Held(buffers, i) + {Content(b)}
  {
    var next := buffers[i := b];
    forall k | 0 <= k < |buffers| && k != i
      ensures next[k] == buffers[k]
    {
    }
    assert forall p :: p in Held(next, i) <==> p in Held(buffers, i);
    if Live(b) {
      HeldSplit(next, i);
    }
  }

  lemma HeldSame(buffers: seq<CacheBuffer>, i: nat, b: CacheBuffer)
    requires i < |buffers| && Content(b) == Content(buffers[i])
    ensures Held(buffers[i := b], -1) == Held(buffers, -1)
  {
    var next := buffers[i := b];
    assert forall k :: 0 <= k < |next| ==> Content(next[k]) == Content(buffers[k]) && Live(next[k]) == Live(buffers[k]);
  }

  lemma HeldPermuted(a: seq<CacheBuffer>, b: seq<CacheBuffer>)
    requires multiset(a) == multiset(b)
    ensures Held(a, -1) == Held(b, -1)
  {
    forall p
      ensures p in Held(a, -1) <==> p in Held(b, -1)
    {
      if i :| 0 <= i < |a| && Live(a[i]) && p == Content(a[i]) {
        assert a[i] in multiset(a);
        assert a[i] in b;
      }
      if i :| 0 <= i < |b| && Live(b[i]) && p == Content(b[i]) {
        assert b[i] in multiset(b);
        assert b[i] in a;
      }
    }
  }

  lemma HeldRenumbered(s: seq<CacheBuffer>)
    ensures Held(Renumber(s), -1) == Held(s, -1)
  {
    forall i | 0 <= i < |s|
      ensures Live(Renumber(s)[i]) == Live(s[i]) && Content(Renumber(s)[i]) == Content(s[i])
    {
    }
  }

  // ----- sorting and renumbering -----

  ghost predicate SortedByTime(buffers: seq<CacheBuffer>) {
    forall i, j :: 0 <= i <= j < |buffers| ==> buffers[i].time <= buffers[j].time
  }

  function Renumber(buffers: seq<CacheBuffer>): (r: seq<CacheBuffer>)
    ensures |r| == |buffers|
    ensures forall i :: 0 <= i < |r| ==> r[i] == buffers[i].(time := i)
  {
    seq(|buffers|, i requires 0 <= i < |buffers| => buffers[i].(time := i))
  }

  function Swapped(s: seq<CacheBuffer>, i: nat): (r: seq<CacheBuffer>)
    requires i + 1 < |s|
    ensures |r| == |s|
  {
    s[i := s[i + 1]][i + 1 := s[i]]
  }

  lemma SwapKeepsOrder(s: seq<CacheBuffer>, i: nat, clock: nat, history: seq<nat>)
    requires i + 1 < |s| && Ordered(s, clock, history, -1)
    ensures Ordered(Swapped(s, i), clock, history, -1)
  {
    var r := Swapped(s, i);
    var origin := (k: int) => if k == i then i + 1 else if k == i + 1 then i as int else k;
    assert forall k :: 0 <= k < |s| ==> 0 <= origin(k) < |s| && r[k] == s[origin(k)];
    assert forall k, l :: k != l ==> origin(k) != origin(l);
  }

  lemma SwapKeepsMultiset(s: seq<CacheBuffer>, i: nat)
    requires i + 1 < |s|
    ensures multiset(Swapped(s, i)) == multiset(s)
  {
    var r := Swapped(s, i);
    assert s == s[..i] + [s[i], s[i + 1]] + s[i + 2..];
    assert r == s[..i] + [s[i + 1], s[i]] + s[i + 2..];
  }

  /** From index `m` on every buffer has its final place: nothing before it is newer. */
  ghost predicate DoneFrom(s: seq<CacheBuffer>, m: int) {
    forall k, l :: 0 <= k <= l < |s| && m <= l ==> s[k].time <= s[l].time
  }

  /** No buffer up to `i` is newer than the one at `i`. */
  ghost predicate LargestAt(s: seq<CacheBuffer>, i: nat) {
    i < |s| && forall k :: 0 <= k <= i ==> s[k].time <= s[i].time
  }

  ghost predicate StepsUp(s: seq<CacheBuffer>, i: nat) {
    i <= |s| && forall k :: 0 <= k && k + 1 < i ==> s[k].time <= s[k + 1].time
  }

  lemma SwapKeepsDone(s: seq<CacheBuffer>, i: nat, m: nat)
    requires i + 1 < m <= |s| && DoneFrom(s, m)
    ensures DoneFrom(Swapped(s, i), m)
  {
    var r := Swapped(s, i);
    forall k, l | 0 <= k <= l < |r| && m <= l
      ensures r[k].time <= r[l].time
    {
      assert r[l] == s[l];
    }
  }

  /** The largest of the first buffers at their end belongs to the sorted part. */
  lemma DoneGrows(s: seq<CacheBuffer>, m: nat)
    requires m < |s| && DoneFrom(s, m + 1) && LargestAt(s, m)
    ensures DoneFrom(s, m)
  {
  }

  lemma StepDownMeansUnsorted(s: seq<CacheBuffer>, i: nat)
    requires i + 1 < |s| && s[i].time > s[i + 1].time
    ensures !SortedByTime(s)
  {
  }

  lemma BubbleUp(s: seq<CacheBuffer>, i: nat)
    requires i + 1 < |s| && LargestAt(s, i)
    ensures s[i + 1].time < s[i].time ==> LargestAt(Swapped(s, i), i + 1)
    ensures s[i].time <= s[i + 1].time ==> LargestAt(s, i + 1)
  {
  }

  lemma {:induction false} StepsUpIsSorted(s: seq<CacheBuffer>, i: nat, k: nat, l: nat)
    requires StepsUp(s, i) && k <= l < i
    ensures s[k].time <= s[l].time
  {
    if k >= l {
    } else {
      StepsUpIsSorted(s, i, k, l - 1);
    }
  }

  /** A pass without a swap means the whole array is sorted. */
  lemma NoSwapMeansSorted(s: seq<CacheBuffer>, m: nat)
    requires m <= |s| && StepsUp(s, m) && DoneFrom(s, m)
    ensures SortedByTime(s)
  {
    forall k, l | 0 <= k <= l < |s|
      ensures s[k].time <= s[l].time
    {
      if l < m {
        StepsUpIsSorted(s, m, k, l);
      }
    }
  }

  /** Renumbering buffers that are sorted by time keeps the order of last uses. */
  lemma RenumberKeepsOrder(s: seq<CacheBuffer>, clock: nat, history: seq<nat>)
    requires Ordered(s, clock, history, -1) && SortedByTime(s)
    ensures Ordered(Renumber(s), |s|, history, -1)
  {
    var r := Renumber(s);
    forall i, j | 0 <= i < |r| && 0 <= j < |r| && i != j && Live(r[i]) && Live(r[j])
      ensures r[i].tag != r[j].tag
      ensures i < j <==> LastUse(history, r[i].tag) < LastUse(history, r[j].tag)
    {
      assert LastUse(history, s[i].tag) != LastUse(history, s[j].tag);
    }
  }

  class Table {
    const buffers: array<CacheBuffer>
    var clock: nat
    ghost var history: seq<nat>

    constructor (count: nat)
      requires count <= 32
      ensures fresh(buffers) && buffers.Length == count
      ensures clock == 0 && history == []
      ensures forall i :: 0 <= i < count ==> buffers[i] == CacheBuffer(INVALID_TAG, 0, false, [])
    {
      buffers := new CacheBuffer[count](_ => CacheBuffer(INVALID_TAG, 0, false, []));
      clock := 0;
      history := [];
    }

    /** All live buffers are in order and the clock has not passed its end. */
    ghost predicate Valid()
      reads this, buffers
    {
      && buffers.Length <= 32
      && clock <= CLOCK_END
      && Ordered(buffers[..], clock, history, -1)
    }

    /** What every step of the sort keeps. */
    ghost predicate SameBuffers(was: seq<CacheBuffer>)
      reads this, buffers
    {
      && |was| == buffers.Length
      && Ordered(buffers[..], clock, history, -1)
      && multiset(buffers[..]) == multiset(was)
    }

    /** Exchanges two neighbours that are out of order. */
    method SwapBuffers(i: nat, ghost was: seq<CacheBuffer>)
      requires i + 1 < buffers.Length && SameBuffers(was)
      modifies buffers
      ensures buffers[..] == Swapped(old(buffers[..]), i) && SameBuffers(was)
    {
      SwapKeepsOrder(buffers[..], i, clock, history);
      SwapKeepsMultiset(buffers[..], i);
      ghost var before := buffers[..];
      var temp := buffers[i];
      buffers[i] := buffers[i + 1];
      buffers[i + 1] := temp;
      assert buffers[..] == Swapped(before, i);
    }

    /** One pass of the bubble sort over the first `last + 1` buffers; it reports whether all were sorted. */
    method BubblePass(last: nat, ghost was: seq<CacheBuffer>) returns (sorted: bool)
      requires last < buffers.Length && SameBuffers(was) && DoneFrom(buffers[..], last + 1)
      modifies buffers
      ensures SameBuffers(was) && DoneFrom(buffers[..], last)
      ensures sorted <==> SortedByTime(old(buffers[..]))
      ensures sorted ==> buffers[..] == old(buffers[..])
    {
      hide Ordered, SortedByTime, DoneFrom;
      sorted := true;
      var i := 0;
      while i < last
        invariant 0 <= i <= last
        invariant SameBuffers(was) && DoneFrom(buffers[..], last + 1)
        invariant LargestAt(buffers[..], i)
        invariant sorted ==> StepsUp(buffers[..], i + 1) && buffers[..] == old(buffers[..])
        invariant !sorted ==> !SortedByTime(old(buffers[..]))
      {
        BubbleUp(buffers[..], i);
        if buffers[i].time > buffers[i + 1].time {
          StepDownMeansUnsorted(buffers[..], i);
          sorted := false;
          SwapKeepsDone(buffers[..], i, last + 1);
          SwapBuffers(i, was);
        }
        i := i + 1;
      }
      DoneGrows(buffers[..], last);
      if sorted {
        NoSwapMeansSorted(buffers[..], last + 1);
      }
    }

    /** When the clock nears its end, sorts the buffers by access time and renumbers the times from 0.
        `sorted` is the permutation of the old buffers that the new ones renumber. */
    method CutDownAccessTime() returns (ghost sorted: seq<CacheBuffer>)
      requires Valid() && 0 < buffers.Length
      modifies this`clock, buffers
      ensures Valid() && clock < CLOCK_END
      ensures old(clock) < CLOCK_END ==> buffers[..] == old(buffers[..]) && clock == old(clock)
      ensures old(clock) == CLOCK_END ==>
                && multiset(sorted) == multiset(old(buffers[..])) && SortedByTime(sorted)
                && buffers[..] == Renumber(sorted) && clock == buffers.Length
    {
      sorted := buffers[..];
      if clock < CLOCK_END {
        return;
      }
      SortBuffers();
      sorted := buffers[..];
      RenumberKeepsOrder(sorted, clock, history);
      RenumberBuffers();
      clock := buffers.Length;
    }

    method SortBuffers()
      requires 0 < buffers.Length && Ordered(buffers[..], clock, history, -1)
      modifies buffers
      ensures SameBuffers(old(buffers[..])) && SortedByTime(buffers[..])
    {
      ghost var was := buffers[..];
      var j := 0;
      while j < buffers.Length - 1
        invariant 0 <= j <= buffers.Length - 1
        invariant SameBuffers(was) && DoneFrom(buffers[..], buffers.Length - j)
      {
        var sorted := BubblePass(buffers.Length - 1 - j, was);
        if sorted {
          return;
        }
        j := j + 1;
      }
    }

    method RenumberBuffers()
      modifies buffers
      ensures buffers[..] == Renumber(old(buffers[..]))
    {
      var i := 0;
      while i < buffers.Length
        invariant 0 <= i <= buffers.Length
        invariant forall k :: 0 <= k < i ==> buffers[k] == old(buffers[k]).(time := k)
        invariant forall k :: i <= k < buffers.Length ==> buffers[k] == old(buffers[k])
      {
        buffers[i] := buffers[i].(time := i);
        i := i + 1;
      }
    }

    /** A buffer that has just been taken: it has the newest time and its content is not claimed. */
    ghost predicate Taken(r: int)
      reads this, buffers
    {
      && 0 <= r < buffers.Length <= 32
      && 1 <= clock <= CLOCK_END
      && buffers[r].time == clock - 1
      && Ordered(buffers[..], clock - 1, history, r)
    }

    ghost function Contents(skip: int): set<(nat, bool, seq<byte>)>
      reads buffers
    {
      Held(buffers[..], skip)
    }

    /** Invalid buffers are not marked changed, so that a flush has nothing to write for them. */
    ghost predicate Clean()
      reads buffers
    {
      forall i :: 0 <= i < buffers.Length && !Live(buffers[i]) ==> !buffers[i].changed
    }

    /** Renumbers the times if need be; contents and order of use stay. */
    method PrepareClock()
      requires Valid() && 0 < buffers.Length
      modifies this`clock, buffers
      ensures Valid() && clock < CLOCK_END
      ensures Contents(-1) == old(Contents(-1))
      ensures old(Clean()) ==> Clean()
      ensures old(clock) < CLOCK_END ==> buffers[..] == old(buffers[..])
      ensures AllLive(buffers[..]) <==> AllLive(old(buffers[..]))
    {
      ghost var was := buffers[..];
      ghost var sorted := CutDownAccessTime();
      if buffers[..] != was {
        HeldPermuted(was, sorted);
        HeldRenumbered(sorted);
        AllLivePermuted(was, sorted);
        forall i | 0 <= i < buffers.Length
          ensures exists k :: 0 <= k < |was| && was[k].tag == buffers[i].tag && was[k].changed == buffers[i].changed
        {
          assert sorted[i] in multiset(sorted);
          assert sorted[i] in was;
          assert buffers[i] == Renumber(sorted)[i];
        }
      }
    }

    /** Looks for the buffer of `tag` and, if there is one, uses it. */
    method FindCacheBuffer(tag: nat) returns (r: int)
      requires Valid() && 0 < buffers.Length && tag < PENDING_TAG
      modifies this, buffers
      ensures Valid() && Contents(-1) == old(Contents(-1))
      ensures old(Clean()) ==> Clean()
      ensures -1 <= r < buffers.Length
      ensures r >= 0 ==> buffers[r].tag == tag && history == old(history) + [tag]
      ensures r == -1 ==> history == old(history) && forall i :: 0 <= i < buffers.Length ==> buffers[i].tag != tag
      ensures AllLive(buffers[..]) <==> AllLive(old(buffers[..]))
    {
      PrepareClock();
      var i := 0;
      while i < buffers.Length
        invariant 0 <= i <= buffers.Length
        invariant forall k :: 0 <= k < i ==> buffers[k].tag != tag
      {
        if buffers[i].tag == tag {
          ghost var was := buffers[..];
          UseNow(i);
          assert forall k :: 0 <= k < buffers.Length ==> buffers[k].tag == was[k].tag;
          return i;
        }
        i := i + 1;
      }
      return -1;
    }

    /** Gives a live buffer the current time. */
    method UseNow(i: nat)
      requires Valid() && i < buffers.Length && Live(buffers[i]) && clock < CLOCK_END
      modifies this, buffers
      ensures Valid() && history == old(history) + [buffers[i].tag]
      ensures buffers[..] == old(buffers[..])[i := old(buffers[i]).(time := old(clock))]
      ensures Contents(-1) == old(Contents(-1))
    {
      var b := buffers[i].(time := clock);
      HeldSame(buffers[..], i, b);
      OrderedOthers(buffers[..], clock, history, i, buffers[i]);
      assert buffers[..][i := buffers[i]] == buffers[..];
      UseBuffer(buffers[..], clock, history, i, b);
      buffers[i] := b;
      clock := clock + 1;
      history := history + [b.tag];
    }

    /** Takes the first invalid buffer and marks it pending; -1 if every buffer is live. */
    method AllocateCacheBuffer() returns (r: int)
      requires Valid() && Clean() && 0 < buffers.Length
      modifies this`clock, buffers
      ensures -1 <= r < buffers.Length
      ensures r == -1 ==> Valid() && Clean() && clock < CLOCK_END && Contents(-1) == old(Contents(-1))
      ensures r == -1 ==> forall i :: 0 <= i < buffers.Length ==> Live(buffers[i])
      ensures r == -1 <==> AllLive(old(buffers[..]))
      ensures forall i :: 0 <= i < r ==> Live(buffers[i])
      ensures r >= 0 && old(clock) < CLOCK_END ==> !Live(old(buffers[..])[r])
      ensures r >= 0 ==> Taken(r) && Contents(r) == old(Contents(-1)) && buffers[r].tag == PENDING_TAG
      ensures r >= 0 ==> Clean() && !buffers[r].changed
    {
      hide Ordered, Held;
      PrepareClock();
      var i := 0;
      while i < buffers.Length
        invariant 0 <= i <= buffers.Length
        invariant forall k :: 0 <= k < i ==> Live(buffers[k])
      {
        if buffers[i].tag == INVALID_TAG {
          var b := buffers[i].(tag := PENDING_TAG, time := clock);
          HeldUpdate(buffers[..], i, b);
          OrderedOthers(buffers[..], clock, history, i, b);
          buffers[i] := b;
          clock := clock + 1;
          return i;
        }
        i := i + 1;
      }
      return -1;
    }

    /** The index of the first invalid buffer or, if all are live, of the one whose last use is oldest.
        The chosen buffer gets the newest time and keeps its content. */
    method GetVictimInCacheBuffer() returns (r: int)
      requires Valid() && 0 < buffers.Length && clock < CLOCK_END
      modifies this`clock, buffers
      ensures 0 <= r < buffers.Length && Taken(r) && Contents(-1) == old(Contents(-1))
      ensures buffers[..] == old(buffers[..])[r := old(buffers[r]).(time := old(clock))]
      ensures (forall i :: 0 <= i < buffers.Length ==> Live(buffers[i])) ==>
                forall i :: 0 <= i < buffers.Length ==>
                  LastUse(history, buffers[r].tag) <= LastUse(history, buffers[i].tag)
      ensures Live(buffers[r]) ==> forall i :: 0 <= i < buffers.Length ==> Live(buffers[i])
    {
      var oldIndex, oldTime := FindOldest();
      r := oldIndex;
      ghost var was := buffers[..];
      var b := buffers[r].(time := clock);
      OrderedOthers(was, clock, history, r, b);
      HeldSame(was, r, b);
      if Live(was[r]) {
        LeastTimeIsLeastRecent(was, clock, history, r);
      }
      buffers[r] := b;
      clock := clock + 1;
    }

    method FindOldest() returns (oldIndex: int, oldTime: nat)
      requires Valid() && 0 < buffers.Length
      ensures 0 <= oldIndex < buffers.Length
      ensures Live(buffers[oldIndex]) ==>
                forall i :: 0 <= i < buffers.Length ==> Live(buffers[i]) && buffers[oldIndex].time <= buffers[i].time
    {
      oldIndex := -1;
      oldTime := 0xFFFF_FFFF;
      var i := 0;
      while i < buffers.Length
        invariant 0 <= i <= buffers.Length
        invariant forall k :: 0 <= k < i ==> Live(buffers[k]) && oldTime <= buffers[k].time
        invariant i > 0 ==> 0 <= oldIndex < i && oldTime == buffers[oldIndex].time
        invariant i == 0 ==> oldTime == 0xFFFF_FFFF
      {
        if buffers[i].tag == INVALID_TAG {
          oldIndex := i;
          break;
        }
        assert buffers[..][i].time < clock;
        if buffers[i].time < oldTime {
          oldTime := buffers[i].time;
          oldIndex := i;
        }
        i := i + 1;
      }
    }

    /** Fills the taken buffer for `tag`. */
    method Install(r: nat, tag: nat, data: seq<byte>, changed: bool)
      requires Taken(r) && tag < PENDING_TAG
      requires forall i :: 0 <= i < buffers.Length && i != r ==> buffers[i].tag != tag
      requires forall i :: 0 <= i < buffers.Length && i != r && !Live(buffers[i]) ==> !buffers[i].changed
      modifies this`history, buffers
      ensures Valid() && Clean() && history == old(history) + [tag]
      ensures Contents(-1) == old(Contents(r)) + {(tag, changed, data)}
      ensures buffers[..] == old(buffers[..])[r := CacheBuffer(tag, old(buffers[r]).time, changed, data)]
    {
      hide Ordered, Held;
      var b := CacheBuffer(tag, buffers[r].time, changed, data);
      HeldUpdate(buffers[..], r, b);
      UseBuffer(buffers[..], clock - 1, history, r, b);
      buffers[r] := b;
      history := history + [tag];
    }

    /** Overwrites the content of a live buffer and marks it changed or unchanged. */
    method Store(i: nat, data: seq<byte>, changed: bool)
      requires Valid() && Clean() && i < buffers.Length && Live(buffers[i])
      modifies buffers
      ensures Valid() && Clean()
      ensures buffers[..] == old(buffers[..])[i := old(buffers[i]).(changed := changed, data := data)]
      ensures Contents(-1) == old(Contents(i)) + {(old(buffers[i]).tag, changed, data)}
    {
      var b := buffers[i].(changed := changed, data := data);
      HeldUpdate(buffers[..], i, b);
      OrderedSameKeys(buffers[..], clock, history, i, b);
      buffers[i] := b;
    }

    /** Invalidates every buffer.  The changed marks stay, so the table is clean afterwards exactly when
        no buffer was marked changed. */
    method DiscardAllCacheBuffer()
      requires Valid()
      modifies this`clock, buffers
      ensures Valid() && Contents(-1) == {} && clock == 0
      ensures Clean() <==> forall i :: 0 <= i < buffers.Length ==> !old(buffers[i]).changed
    {
      var i := 0;
      while i < buffers.Length
        invariant 0 <= i <= buffers.Length
        invariant forall k :: 0 <= k < i ==> buffers[k] == old(buffers[k]).(tag := INVALID_TAG)
        invariant forall k :: i <= k < buffers.Length ==> buffers[k] == old(buffers[k])
        modifies buffers
      {
        buffers[i] := buffers[i].(tag := INVALID_TAG);
        i := i + 1;
      }
      clock := 0;
    }
  }
}
