/** The file transfer over the serial line: the sender waits for an acknowledgement after the length and after
    every chunk of 16 bytes; the receiver acknowledges by the number of bytes it has counted. */
module SerialTransfer {
  import opened CacheTable
  import opened DiskFormat
  import opened Sequences

  const FIFO_SIZE: nat := 16

  datatype SenderPhase = SendLength | AwaitLengthAck | SendChunk | AwaitAck | SenderDone

  datatype ReceiverPhase = ReadLength | AckLength | Receive | MaybeAck | Write | ReceiverDone

  /** Both parties and the line.  `data` and `acks` are under way; `chunks` and `answers` count the chunks
      sent and the acknowledgements given for chunks. */
  datatype Transfer = Transfer(
    file: seq<byte>, sender: SenderPhase, sent: nat, chunks: nat,
    receiver: ReceiverPhase, header: seq<byte>, received: nat, buffer: seq<byte>, output: seq<byte>, answers: nat,
    data: seq<byte>, acks: nat)

  function Start(file: seq<byte>): Transfer {
    Transfer(file, SendLength, 0, 0, ReadLength, [], 0, [], [], 0, [], 0)
  }

  /** The length the receiver has read. */
  function Length(s: Transfer): nat {
    if |s.header| == 4 then DwordAt(s.header, 0) else 0
  }

  /** One step of the sender; waiting for an acknowledgement that has not come changes nothing. */
  function SenderStep(s: Transfer): Transfer
    requires |s.file| < DWORD_LIMIT && s.sent <= |s.file|
  {
    match s.sender
    case SendLength => s.(data := s.data + DwordBytes(|s.file|), sender := AwaitLengthAck)
    case AwaitLengthAck => if s.acks == 0 then s else s.(acks := s.acks - 1, sender := SendChunk)
    case SendChunk =>
      if s.sent < |s.file| then
        var n := Least(|s.file| - s.sent, FIFO_SIZE);
        s.(sent := s.sent + n, data := s.data + s.file[s.sent..s.sent + n], chunks := s.chunks + 1, sender := AwaitAck)
      else s.(sender := SenderDone)
    case AwaitAck => if s.acks == 0 then s else s.(acks := s.acks - 1, sender := SendChunk)
    case SenderDone => s
  }

  /** One step of the receiver, to which `k` of the bytes under way are available. */
  function ReceiverStep(s: Transfer, k: nat): Transfer
    requires k <= |s.data|
  {
    match s.receiver
    case ReadLength =>
      var n := Least(k, if |s.header| < 4 then 4 - |s.header| else 0);
      var header := s.header + s.data[..n];
      s.(header := header, data := s.data[n..], receiver := if |header| >= 4 then AckLength else ReadLength)
    case AckLength => s.(acks := s.acks + 1, receiver := Receive)
    case Receive =>
      if s.received < Length(s) then
        var n := Least(k, FIFO_SIZE);
        if n == 0 then s
        else s.(buffer := s.data[..n], data := s.data[n..], received := s.received + n, receiver := MaybeAck)
      else s.(receiver := ReceiverDone)
    case MaybeAck =>
      if s.received % FIFO_SIZE == 0 || s.received == Length(s) then
        s.(acks := s.acks + 1, answers := s.answers + 1, receiver := Write)
      else s.(receiver := Write)
    case Write => s.(output := s.output + s.buffer, receiver := Receive)
    case ReceiverDone => s
  }

  // ----- the invariant -----

  /** While the length is under way. */
  ghost predicate LengthPhase(s: Transfer) {
    && |s.file| < DWORD_LIMIT
    && s.sent == s.received == s.chunks == s.answers == s.acks == 0 && s.output == []
    && (s.receiver == ReadLength || s.receiver == AckLength)
    && (if s.sender == SendLength then s.header == [] && s.data == [] && s.receiver == ReadLength
        else s.sender == AwaitLengthAck && s.header + s.data == DwordBytes(|s.file|))
    && (s.receiver == ReadLength <==> |s.header| < 4)
  }

  /** What the receiver has read but not yet stored. */
  function Unstored(s: Transfer): seq<byte> {
    if s.receiver == MaybeAck || s.receiver == Write then s.buffer else []
  }

  /** Everything sent has been stored, is held by the receiver, or is under way, in this order. */
  ghost predicate Conserved(s: Transfer) {
    && s.sent <= |s.file| && s.output + Unstored(s) + s.data == s.file[..s.sent]
    && s.received == |s.output + Unstored(s)|
  }

  /** The start of the chunk that ends at `sent`. */
  function ChunkStart(sent: nat): nat
    requires sent > 0
  {
    (sent - 1) / FIFO_SIZE * FIFO_SIZE
  }

  predicate WholeChunks(s: Transfer) {
    s.sent % FIFO_SIZE == 0 || s.sent == |s.file|
  }

  /** The sender goes on only when all it has sent has been counted and acknowledged; else exactly one
      acknowledgement is due or under way. */
  ghost predicate InStep(s: Transfer) {
    match s.sender
    case SendLength => false
    case AwaitLengthAck =>
      s.acks == 1 && s.sent == 0 && s.answers == 0 && (s.receiver == Receive || s.receiver == ReceiverDone)
    case SendChunk => s.acks == 0 && s.received == s.sent && s.answers == s.chunks && s.receiver != MaybeAck
    case AwaitAck =>
      && 0 < s.sent && ChunkStart(s.sent) <= s.received
      && (if s.received < s.sent || s.receiver == MaybeAck then s.acks == 0 && s.answers + 1 == s.chunks
          else s.acks == 1 && s.answers == s.chunks)
      && (s.receiver == MaybeAck ==> ChunkStart(s.sent) < s.received)
    case SenderDone =>
      s.acks == 0 && s.received == s.sent == |s.file| && s.answers == s.chunks && s.receiver != MaybeAck
  }

  ghost predicate DataPhase(s: Transfer) {
    && s.receiver != ReadLength && s.receiver != AckLength
    && |s.header| == 4 && Length(s) == |s.file|
    && Conserved(s) && WholeChunks(s) && InStep(s) && s.chunks == (s.sent + FIFO_SIZE - 1) / FIFO_SIZE
    && (s.receiver == MaybeAck || s.receiver == Write ==> 0 < |s.buffer|)
    && (s.receiver == ReceiverDone ==> s.received == |s.file|)
  }

  ghost predicate Inv(s: Transfer) {
    |s.file| < DWORD_LIMIT && (LengthPhase(s) || DataPhase(s))
  }

  lemma StartIsSound(file: seq<byte>)
    requires |file| < DWORD_LIMIT
    ensures Inv(Start(file))
  {
  }

  lemma SenderKeeps(s: Transfer)
    requires Inv(s)
    ensures s.sent <= |s.file| && Inv(SenderStep(s)) && SenderStep(s).file == s.file
  {
    hide DwordBytes, DwordAt;
    if DataPhase(s) && s.sender == SendChunk && s.sent < |s.file| {
      ChunkSent(s);
    }
  }

  lemma ChunkSent(s: Transfer)
    requires Inv(s) && DataPhase(s) && s.sender == SendChunk && s.sent < |s.file|
    ensures DataPhase(SenderStep(s))
  {
    hide DwordBytes, DwordAt, Conserved;
    SentIsConserved(s);
    ChunkNumbers(s.sent, Least(|s.file| - s.sent, FIFO_SIZE), |s.file|);
  }

  lemma SentIsConserved(s: Transfer)
    requires |s.file| < DWORD_LIMIT && Conserved(s) && s.sender == SendChunk && s.sent < |s.file|
    ensures Conserved(SenderStep(s)) && s.received <= s.sent
  {
    var n := Least(|s.file| - s.sent, FIFO_SIZE);
    var r := SenderStep(s);
    assert s.file[..s.sent] + s.file[s.sent..s.sent + n] == s.file[..s.sent + n];
    assert r.output + Unstored(r) + r.data == s.output + Unstored(s) + s.data + s.file[s.sent..s.sent + n];
  }

  lemma ChunkNumbers(sent: nat, n: nat, total: nat)
    requires sent % FIFO_SIZE == 0 && sent < total && n == Least(total - sent, FIFO_SIZE)
    ensures (sent + n) % FIFO_SIZE == 0 || sent + n == total
    ensures ChunkStart(sent + n) == sent
    ensures (sent + n + FIFO_SIZE - 1) / FIFO_SIZE == (sent + FIFO_SIZE - 1) / FIFO_SIZE + 1
  {
  }

  lemma ReceiverKeeps(s: Transfer, k: nat)
    requires Inv(s) && k <= |s.data|
    ensures Inv(ReceiverStep(s, k)) && ReceiverStep(s, k).file == s.file
  {
    hide DwordBytes, DwordAt;
    if LengthPhase(s) {
      HeaderRead(s, k);
    } else {
      match s.receiver {
        case Receive => PieceRead(s, k);
        case MaybeAck => Answered(s);
        case Write =>
          var r := ReceiverStep(s, k);
          assert r.output + Unstored(r) + r.data == s.output + Unstored(s) + s.data;
        case _ =>
      }
    }
  }

  lemma HeaderRead(s: Transfer, k: nat)
    requires Inv(s) && LengthPhase(s) && k <= |s.data|
    ensures Inv(ReceiverStep(s, k))
  {
    hide DwordBytes, DwordAt, DataPhase;
    if s.receiver == ReadLength {
      var r := ReceiverStep(s, k);
      assert r.header + r.data == s.header + s.data;
    } else {
      LengthAnswered(s);
    }
  }

  lemma LengthAnswered(s: Transfer)
    requires LengthPhase(s) && s.receiver == AckLength
    ensures DataPhase(ReceiverStep(s, 0))
  {
    hide DwordBytes, DwordAt;
    HeaderTells(s.header, |s.file|, s.data);
    assert s.file[..0] == [];
  }

  lemma HeaderTells(header: seq<byte>, n: nat, data: seq<byte>)
    requires n < DWORD_LIMIT && header + data == DwordBytes(n) && |header| >= 4
    ensures |header| == 4 && data == [] && DwordAt(header, 0) == n
  {
    assert header == DwordBytes(n);
    assert header[0..4] == header;
    DwordRoundTrip(header, 0, n);
  }

  lemma PieceRead(s: Transfer, k: nat)
    requires Inv(s) && DataPhase(s) && s.receiver == Receive && k <= |s.data|
    ensures Inv(ReceiverStep(s, k))
  {
    hide DwordBytes, DwordAt;
    var r := ReceiverStep(s, k);
    if s.received < |s.file| && k > 0 {
      var n := Least(k, FIFO_SIZE);
      assert s.data == s.data[..n] + s.data[n..];
      assert r.output + Unstored(r) + r.data == s.output + Unstored(s) + s.data;
      assert |s.file[..s.sent]| == s.received + |s.data|;
    }
  }

  /** The receiver's test of its byte count says exactly whether a chunk is complete. */
  lemma Answered(s: Transfer)
    requires Inv(s) && DataPhase(s) && s.receiver == MaybeAck
    ensures Inv(ReceiverStep(s, 0))
    ensures s.received % FIFO_SIZE == 0 || s.received == Length(s) <==> s.received == s.sent
  {
    hide DwordBytes, DwordAt;
    assert |s.file[..s.sent]| == s.received + |s.data|;
    CountTells(s.received, s.sent, |s.file|);
  }

  lemma CountTells(received: nat, sent: nat, total: nat)
    requires 0 < sent <= total && ChunkStart(sent) < received <= sent && (sent % FIFO_SIZE == 0 || sent == total)
    ensures received % FIFO_SIZE == 0 || received == total <==> received == sent
  {
  }

  // ----- runs -----

  datatype Move = SenderMoves | ReceiverMoves(available: nat)

  ghost predicate CanMove(s: Transfer, m: Move) {
    match m
    case SenderMoves => |s.file| < DWORD_LIMIT && s.sent <= |s.file|
    case ReceiverMoves(k) => k <= |s.data|
  }

  function Next(s: Transfer, m: Move): Transfer
    requires CanMove(s, m)
  {
    match m
    case SenderMoves => SenderStep(s)
    case ReceiverMoves(k) => ReceiverStep(s, k)
  }

  ghost predicate IsRun(s: Transfer, moves: seq<Move>)
    decreases |moves|
  {
    moves == [] || (CanMove(s, moves[0]) && IsRun(Next(s, moves[0]), moves[1..]))
  }

  function EndOf(s: Transfer, moves: seq<Move>): Transfer
    requires IsRun(s, moves)
    decreases |moves|
  {
    if moves == [] then s else EndOf(Next(s, moves[0]), moves[1..])
  }

  lemma {:induction false} RunKeeps(s: Transfer, moves: seq<Move>)
    requires Inv(s) && IsRun(s, moves)
    ensures Inv(EndOf(s, moves)) && EndOf(s, moves).file == s.file
    decreases |moves|
  {
    hide Inv, SenderStep, ReceiverStep;
    if moves == [] {
    } else {
      match moves[0] {
        case SenderMoves => SenderKeeps(s);
        case ReceiverMoves(k) => ReceiverKeeps(s, k);
      }
      RunKeeps(Next(s, moves[0]), moves[1..]);
    }
  }

  /** In every run, however the reads are split: the sender is at most 16 bytes ahead, at most one
      acknowledgement is under way, chunks and acknowledgements agree, and what is stored is the beginning
      of the file. */
  lemma AlwaysInStep(file: seq<byte>, moves: seq<Move>)
    requires |file| < DWORD_LIMIT && IsRun(Start(file), moves)
    ensures var s := EndOf(Start(file), moves);
            && s.received <= s.sent <= s.received + 16 && s.acks <= 1
            && s.answers <= s.chunks <= s.answers + 1 && s.output <= file
  {
    hide EndOf, IsRun, DwordBytes, DwordAt;
    StartIsSound(file);
    RunKeeps(Start(file), moves);
    var s := EndOf(Start(file), moves);
    if DataPhase(s) {
      assert |s.file[..s.sent]| == s.received + |s.data|;
      assert s.output <= s.file[..s.sent];
    }
  }

  /** How much is left to do: every move that changes anything lowers it. */
  function Remaining(s: Transfer): int {
    10 * (|s.file| - s.sent) + 6 * |s.data| + 2 * s.acks
    + (match s.sender
       case SendLength => 25 case AwaitLengthAck => 0 case SendChunk => 1 case AwaitAck => 0 case SenderDone => 0)
    + (match s.receiver
       case ReadLength => 0 case AckLength => 4 case Receive => 1 case MaybeAck => 5 case Write => 2
       case ReceiverDone => 0)
  }

  lemma EveryMoveCounts(s: Transfer, m: Move)
    requires Inv(s) && CanMove(s, m)
    ensures 0 <= Remaining(s) && (Next(s, m) == s || Remaining(Next(s, m)) < Remaining(s))
  {
    hide DwordBytes, DwordAt;
  }

  /** No deadlock: unless both parties are done one of them can make a move that changes something. */
  lemma SomebodyCanMove(s: Transfer)
    requires Inv(s)
    ensures (s.sender == SenderDone && s.receiver == ReceiverDone) || exists m :: CanMove(s, m) && Next(s, m) != s
  {
    hide DwordBytes, DwordAt;
    if s.receiver != ReceiverDone {
      var m := ReceiverMoves(|s.data|);
      if Next(s, m) == s {
        StuckReceiver(s);
      }
    } else if s.sender != SenderDone {
      assert CanMove(s, SenderMoves) && Next(s, SenderMoves) != s;
    }
  }

  lemma StuckReceiver(s: Transfer)
    requires Inv(s) && s.receiver != ReceiverDone && ReceiverStep(s, |s.data|) == s
    ensures CanMove(s, SenderMoves) && Next(s, SenderMoves) != s
  {
    hide DwordBytes, DwordAt;
    if DataPhase(s) {
      assert |s.file[..s.sent]| == s.received + |s.data|;
    }
  }

  /** A run in which no move is idle is finite, and when nothing can move any more the receiver has exactly the
      file, whatever its length, with one acknowledgement per chunk. */
  lemma TransferIsComplete(file: seq<byte>, moves: seq<Move>)
    requires |file| < DWORD_LIMIT && IsRun(Start(file), moves)
    requires forall m :: CanMove(EndOf(Start(file), moves), m) ==>
               Next(EndOf(Start(file), moves), m) == EndOf(Start(file), moves)
    ensures var s := EndOf(Start(file), moves);
            && s.sender == SenderDone && s.receiver == ReceiverDone && s.output == file
            && s.chunks == s.answers == (|file| + FIFO_SIZE - 1) / FIFO_SIZE && s.acks == 0
  {
    hide EndOf, IsRun, DwordBytes, DwordAt, Next;
    StartIsSound(file);
    RunKeeps(Start(file), moves);
    var s := EndOf(Start(file), moves);
    SomebodyCanMove(s);
    assert s.file[..s.sent] == s.file;
    assert |s.file[..s.sent]| == s.received + |s.data|;
  }

  ghost predicate NoIdleMoves(s: Transfer, moves: seq<Move>)
    requires IsRun(s, moves)
    decreases |moves|
  {
    moves == [] || (Next(s, moves[0]) != s && NoIdleMoves(Next(s, moves[0]), moves[1..]))
  }

  lemma {:induction false} RunsAreBounded(s: Transfer, moves: seq<Move>)
    requires Inv(s) && IsRun(s, moves) && NoIdleMoves(s, moves)
    ensures |moves| <= Remaining(s)
    decreases |moves|
  {
    hide Inv, SenderStep, ReceiverStep, Remaining;
    if moves != [] {
      EveryMoveCounts(s, moves[0]);
      match moves[0] {
        case SenderMoves => SenderKeeps(s);
        case ReceiverMoves(k) => ReceiverKeeps(s, k);
      }
      RunsAreBounded(Next(s, moves[0]), moves[1..]);
    } else {
      RemainingIsNatural(s);
    }
  }

  lemma RemainingIsNatural(s: Transfer)
    requires Inv(s)
    ensures 0 <= Remaining(s)
  {
  }
}
