/** What an open file is meant to be: a byte sequence with a cursor, on a disk of limited size. */
module FileStreams {
  import opened CacheTable
  import opened CachedArea
  import opened LinkTable
  import opened FileContent
  import opened DiskFormat
  import opened FileSteps
  import opened FileHandles
  import opened Sequences

  /** `capacity` is what the file can grow to; reading, writing and seeking leave it as it is. */
  datatype Stream = Stream(bytes: seq<byte>, cursor: nat, capacity: nat)

  datatype Operation =
    | ReadBytes(n: nat)
    | WriteBytes(d: seq<byte>)
    | Seek(offset: int, origin: Origin, heapHasRoom: bool)

  /** What an operation gives back: the bytes read and the number of bytes read or written. */
  datatype Outcome = Outcome(bytes: seq<byte>, count: nat)

  /** Where a seek leads, by the size and the cursor alone. */
  function Goal(size: nat, cursor: nat, offset: int, origin: Origin): nat {
    var from := match origin case SeekSet => 0 case SeekCurrent => cursor case SeekEnd => size;
    if from + offset <= 0 then 0 else (from + offset) % DWORD_LIMIT
  }

  lemma GoalIsTarget(h: Handle, offset: int, origin: Origin)
    requires h.File? && -0x8000_0000 <= offset < 0x8000_0000
    ensures SeekTarget(h, offset, origin) == Goal(h.size, h.offset, offset, origin)
  {
  }

  /** What a caller has to see to: offsets stay below 2^32, and no seek goes behind the end of the file but
      into its last cluster. */
  predicate Legal(op: Operation, size: nat, cursor: nat) {
    match op
    case ReadBytes(n) => n < DWORD_LIMIT
    case WriteBytes(d) => cursor + |d| < DWORD_LIMIT
    case Seek(offset, origin, _) =>
      -0x8000_0000 <= offset < 0x8000_0000 && !LeavesGap(size, Goal(size, cursor, offset, origin))
  }

  /** An operation is refused only if it would pass 2^32, or seeks behind the end of the file into its last
      cluster. */
  lemma RefusedOnlyThen(op: Operation, size: nat, cursor: nat)
    requires !Legal(op, size, cursor)
    ensures match op
            case ReadBytes(n) => n >= 0x1_0000_0000
            case WriteBytes(d) => cursor + |d| >= 0x1_0000_0000
            case Seek(offset, origin, _) =>
              var t := offset + if origin == SeekSet then 0 else if origin == SeekCurrent then cursor else size;
              || offset < -0x8000_0000 || offset >= 0x8000_0000
              || (size < t % 0x1_0000_0000 && t % 0x1_0000_0000 / 4096 == size / 4096)
  {
  }

  predicate LegalOn(op: Operation, s: Stream) {
    Legal(op, |s.bytes|, s.cursor)
  }

  predicate StreamOk(s: Stream) {
    s.cursor <= |s.bytes| <= s.capacity
  }

  /** One operation on the stream.  A write or a zero fill stops at the capacity, and by no byte earlier; a
      heap without room keeps a seek at the end of the file. */
  function Perform(op: Operation, s: Stream): (r: (Outcome, Stream))
    requires StreamOk(s) && LegalOn(op, s)
    ensures StreamOk(r.1) && r.1.capacity == s.capacity
  {
    match op
    case ReadBytes(n) =>
      var k := Least(n, |s.bytes| - s.cursor);
      (Outcome(s.bytes[s.cursor..s.cursor + k], k), s.(cursor := s.cursor + k))
    case WriteBytes(d) =>
      var k := Least(|d|, s.capacity - s.cursor);
      (Outcome([], k), s.(bytes := Overwrite(s.bytes, s.cursor, d[..k]), cursor := s.cursor + k))
    case Seek(offset, origin, heapHasRoom) =>
      var goal := Goal(|s.bytes|, s.cursor, offset, origin);
      if goal <= |s.bytes| then (Outcome([], 0), s.(cursor := goal))
      else
        var end := if heapHasRoom then Least(goal, s.capacity) else |s.bytes|;
        (Outcome([], 0), s.(bytes := s.bytes + ZeroBlock(end - |s.bytes|), cursor := end))
  }

  /** A run of operations, up to the first that is not legal: what they give back, and the stream after them. */
  function RunOn(ops: seq<Operation>, s: Stream): (r: (seq<Outcome>, Stream))
    requires StreamOk(s)
    ensures |r.0| <= |ops| && StreamOk(r.1) && r.1.capacity == s.capacity
    ensures |r.0| < |ops| ==> !LegalOn(ops[|r.0|], r.1)
    decreases |ops|
  {
    if ops == [] || !LegalOn(ops[0], s) then ([], s)
    else
      var one := Perform(ops[0], s);
      var rest := RunOn(ops[1..], one.1);
      ([one.0] + rest.0, rest.1)
  }

  /** The outcomes of a run so far together with those of the rest are the outcomes of the whole. */
  lemma RunGoesOn(ops: seq<Operation>, i: nat, s: Stream, done: seq<Outcome>)
    requires i < |ops| && StreamOk(s) && LegalOn(ops[i], s)
    ensures var one := Perform(ops[i], s);
            && done + RunOn(ops[i..], s).0 == done + [one.0] + RunOn(ops[i + 1..], one.1).0
            && RunOn(ops[i..], s).1 == RunOn(ops[i + 1..], one.1).1
  {
    hide Perform, LegalOn;
    assert ops[i..][1..] == ops[i + 1..];
  }

  lemma RunStops(ops: seq<Operation>, i: nat, s: Stream, done: seq<Outcome>)
    requires i <= |ops| && StreamOk(s) && (i < |ops| ==> !LegalOn(ops[i], s))
    ensures done + RunOn(ops[i..], s).0 == done && RunOn(ops[i..], s).1 == s
  {
    hide LegalOn, Perform;
  }

  /** Only the file behind handle `h` has changed. */
  ghost predicate OnlyThisFile(v: View, es: seq<DirectoryEntry>, hs: seq<Handle>, h: nat,
                               w: View, fs: seq<DirectoryEntry>, ks: seq<Handle>) {
    && h < |hs| == |ks| && hs[h].File? && ks[h].File? && hs[h].entry < |es|
    && ks == hs[h := ks[h]] && ks[h].entry == hs[h].entry
    && fs == Resized(es, hs[h].entry, ks[h].size) && OthersKept(v, w, Starts(es), Sizes(es), hs[h].entry)
  }

  lemma OnlyThisFileTwice(v: View, es: seq<DirectoryEntry>, hs: seq<Handle>, h: nat,
                          w: View, fs: seq<DirectoryEntry>, ks: seq<Handle>,
                          x: View, gs: seq<DirectoryEntry>, ls: seq<Handle>)
    requires OnlyThisFile(v, es, hs, h, w, fs, ks) && OnlyThisFile(w, fs, ks, h, x, gs, ls)
    ensures OnlyThisFile(v, es, hs, h, x, gs, ls)
  {
    hide ContentOf;
    ResizedColumns(es, hs[h].entry, ks[h].size);
  }

  lemma WroteOnlyThisFile(v: View, es: seq<DirectoryEntry>, hs: seq<Handle>, h: nat, d: seq<byte>,
                          w: View, fs: seq<DirectoryEntry>, ks: seq<Handle>)
    requires Wrote(v, es, hs, h, d, w, fs, ks)
    ensures OnlyThisFile(v, es, hs, h, w, fs, ks)
  {
    hide ContentOf, OthersKept;
  }

  lemma NothingWritten(v: View, es: seq<DirectoryEntry>, hs: seq<Handle>, h: nat, ks: seq<Handle>)
    requires h < |hs| == |ks| && hs[h].File? && ks[h].File? && hs[h].entry < |es|
    requires ks == hs[h := ks[h]] && ks[h].entry == hs[h].entry && ks[h].size == hs[h].size == es[hs[h].entry].size
    ensures OnlyThisFile(v, es, hs, h, v, es, ks)
  {
    hide ContentOf;
    assert Resized(es, hs[h].entry, ks[h].size) == es;
  }

  /** Appending zeros is overwriting at the end. */
  lemma ZerosAppended(was: seq<byte>, z: seq<byte>)
    requires forall i :: 0 <= i < |z| ==> z[i] == 0
    ensures Overwrite(was, |was|, z) == was + ZeroBlock(|z|)
  {
    assert z == ZeroBlock(|z|);
  }
}
