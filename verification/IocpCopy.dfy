/** The completion-port copy engine (src/iocp_copy.rs): a pool of operations reads and writes chunks while
    the kernel completes them in any order. */
module IocpCopy {

  import opened Bytes
  import opened IocpLedger

  // ---------------------------------------------------------------- the kernel

  datatype CompletionKey = SourceKey | DestinationKey | OtherKey

  /** A completion packet. `operation` is the operation its pointer leads to, if it is one of ours;
      `filled` is what a read put into its buffer. */
  datatype Packet = Packet(operation: Option<nat>, key: CompletionKey, bytesTransferred: nat, failed: bool,
                           filled: seq<byte>)

  /** The files, the requests the kernel owns, and whether anything it did so far was a failure: a refused
      request, a packet that is not a full success, or a broken port. */
  datatype Kernel = Kernel(source: seq<byte>, destination: seq<byte>, pending: map<nat, Request>, faulted: bool)

  predicate Fits(k: Kernel, request: Request) {
    match request
    case ReadRequest(offset, length) => offset + length <= |k.source|
    case WriteRequest(offset, data) => offset + |data| <= |k.destination|
  }

  predicate ValidKernel(k: Kernel) {
    forall i :: i in k.pending ==> Fits(k, k.pending[i])
  }

  /** `ReadFile` or `WriteFile`: the kernel takes the request, or refuses it. */
  method Submit(k: Kernel, i: nat, request: Request) returns (k': Kernel, ok: bool)
    requires ValidKernel(k) && i !in k.pending && Fits(k, request)
    ensures ValidKernel(k')
    ensures k' == if ok then k.(pending := k.pending[i := request]) else k.(faulted := true)
    ensures |k'.pending| == |k.pending| + if ok then 1 else 0
  {
    k', ok := k.(faulted := true), *;
    if ok {
      k' := k.(pending := k.pending[i := request]);
    }
  }

  /** What a packet for operation `i` says about the bytes: without an error and with all bytes
      transferred, they have moved. */
  predicate Delivers(k: Kernel, k': Kernel, i: nat, packet: Packet)
    requires ValidKernel(k) && i in k.pending
  {
    match k.pending[i]
    case ReadRequest(offset, length) =>
      && k'.destination == k.destination
      && (!packet.failed && packet.bytesTransferred == length ==> packet.filled == k.source[offset..offset + length])
    case WriteRequest(offset, data) =>
      !packet.failed && packet.bytesTransferred == |data| ==> k'.destination == WithSlice(k.destination, offset, data)
  }

  /** A packet of full success: its pointer and key are those of the request, and all bytes moved. */
  predicate Succeeds(request: Request, packet: Packet) {
    && !packet.failed && packet.operation.Some?
    && match request
       case ReadRequest(_, length) => packet.key == SourceKey && packet.bytesTransferred == length
       case WriteRequest(_, data) => packet.key == DestinationKey && packet.bytesTransferred == |data|
  }

  /** What counts as success, request by request. */
  lemma SucceedsMeans(packet: Packet, offset: nat, length: nat, data: seq<byte>)
    ensures Succeeds(ReadRequest(offset, length), packet) <==>
      && !packet.failed && packet.operation.Some? && packet.key == SourceKey && packet.bytesTransferred == length
    ensures Succeeds(WriteRequest(offset, data), packet) <==>
      && !packet.failed && packet.operation.Some? && packet.key == DestinationKey
      && packet.bytesTransferred == |data|
  {
  }

  /** `wait_io`: nothing when the port itself fails, else a packet for any one pending request, which
      the kernel gives up. Its pointer leads to that operation or nowhere. */
  method Wait(k: Kernel) returns (k': Kernel, packet: Option<Packet>, ghost i: nat)
    requires ValidKernel(k) && k.pending != map[]
    ensures packet.None? ==> k' == k.(faulted := true)
    ensures packet.Some? ==>
      && i in k.pending && k'.pending == k.pending - {i} && k'.source == k.source && ValidKernel(k')
      && |k'.pending| == |k.pending| - 1
      && (packet.value.operation.Some? ==> packet.value.operation.value == i)
      && Delivers(k, k', i, packet.value)
      && (k'.faulted <==> k.faulted || !Succeeds(k.pending[i], packet.value))
  {
    if * {
      return k.(faulted := true), None, 0;
    }
    var j :| j in k.pending;
    i := j;
    var failed: bool, known: bool, key: CompletionKey := *, *, *;
    k' := k.(pending := k.pending - {j});
    assert |k.pending.Keys - {j}| == |k.pending| - 1 && k'.pending.Keys == k.pending.Keys - {j};
    var operation := if known then Some(j) else None;
    match k.pending[j] {
      case ReadRequest(offset, length) =>
        assert Fits(k, k.pending[j]);
        var moved: nat :| 0 <= moved <= length;
        packet := Some(Packet(operation, key, moved, failed, k.source[offset..offset + moved]));
      case WriteRequest(offset, data) =>
        assert Fits(k, k.pending[j]);
        var moved: nat :| 0 <= moved <= |data|;
        assert moved == |data| ==> data[..moved] == data;
        k' := k'.(destination := WithSlice(k.destination, offset, data[..moved]));
        packet := Some(Packet(operation, key, moved, failed, []));
    }
    k' := k'.(faulted := k.faulted || !Succeeds(k.pending[j], packet.value));
  }

  // ---------------------------------------------------------------- the engine

  datatype Failure = PortFailed | OperationFailed

  datatype Report = Report(bytesCopied: nat, readSubmissions: nat, writeSubmissions: nat)

  datatype Outcome = Copied(report: Report) | Failed(failure: Failure)

  /** The variables of `run`. */
  datatype Engine = Engine(
    kernel: Kernel, chunkBytes: nat, operations: seq<IoOperation>, nextOffset: nat, outstanding: nat,
    bytesRead: nat, bytesWritten: nat, readSubmissions: nat, writeSubmissions: nat,
    firstError: bool, cancelled: bool)

  /** What holds between any two steps: in particular, every failure has been noticed. */
  ghost predicate ValidEngine(e: Engine) {
    && ValidKernel(e.kernel) && 0 < e.chunkBytes < U32 && |e.kernel.source| < U64 && |e.operations| > 0
    && e.outstanding == |e.kernel.pending| && e.cancelled == e.firstError == e.kernel.faulted
  }

  /** The ledger describes the engine, and its counters are the ledger's. */
  ghost predicate Tracks(e: Engine, v: Ledger) {
    && v.source == e.kernel.source && v.destination == e.kernel.destination && v.pending == e.kernel.pending
    && v.chunk == e.chunkBytes && v.ops == e.operations && v.submitted == e.readSubmissions
    && v.chunk > 0
    && e.nextOffset == Reach(|v.source|, v.chunk, v.submitted)
    && e.writeSubmissions == |v.readDone|
    && e.bytesRead == TotalBytes(|v.source|, v.chunk, v.readDone)
    && e.bytesWritten == TotalBytes(|v.source|, v.chunk, v.written)
  }

  /** What holds in every state without an error. */
  ghost predicate Running(e: Engine, v: Ledger) {
    ValidEngine(e) && !e.firstError && Tracks(e, v) && Clean(v)
  }

  /** `record_failure`: the first error cancels everything in flight. */
  function RecordFailure(e: Engine): (e': Engine)
    ensures e'.firstError && e'.cancelled && e'.kernel == e.kernel
  {
    e.(firstError := true, cancelled := true)
  }

  /** `IoOperation::prepare` on operation `i`. */
  function Prepare(e: Engine, i: nat, stage: Stage, offset: nat, requestedBytes: nat, buffer: seq<byte>): Engine
    requires i < |e.operations|
  {
    e.(operations := e.operations[i := IoOperation(stage, offset, requestedBytes, buffer)])
  }

  /** The counters after a read was submitted. */
  function CountRead(e: Engine, kernel: Kernel, requestedBytes: nat): Engine {
    e.(kernel := kernel, outstanding := e.outstanding + 1, readSubmissions := e.readSubmissions + 1,
       nextOffset := e.nextOffset + requestedBytes)
  }

  /** The size of the next request is that of the next chunk, and fits a native request: the early
      return of `request_size` is unreachable. */
  lemma NextRequest(e: Engine, v: Ledger)
    requires Running(e, v) && e.nextOffset < |e.kernel.source|
    ensures v.submitted < Count(|v.source|, v.chunk)
    ensures var n := Min(|e.kernel.source| - e.nextOffset, e.chunkBytes);
            && n < U32 && e.nextOffset + n == ReachAfter(|v.source|, v.chunk, v.submitted)
            && e.nextOffset + n == Reach(|v.source|, v.chunk, v.submitted + 1)
  {
    NextChunk(|v.source|, v.chunk, v.submitted);
  }

  lemma ReadRuns(e: Engine, v: Ledger, i: nat, n: nat, kernel: Kernel)
    requires Running(e, v) && i < |e.operations| && e.operations[i].stage.Idle? && e.nextOffset < |e.kernel.source|
    requires n == Min(|e.kernel.source| - e.nextOffset, e.chunkBytes) && ValidKernel(kernel)
    requires kernel == e.kernel.(pending := e.kernel.pending[i := ReadRequest(e.nextOffset, n)])
    requires |kernel.pending| == |e.kernel.pending| + 1
    ensures |v.slots| == |v.ops|
    ensures Running(CountRead(Prepare(e, i, Reading, e.nextOffset, n, e.operations[i].buffer), kernel, n),
                    ReadSubmitted(v, i, e.nextOffset, n))
  {
    NextRequest(e, v);
    ReadSubmittedClean(v, i, e.nextOffset, n);
  }

  /** `submit_read` of the next chunk on an idle operation. */
  method SubmitNextRead(e: Engine, i: nat, ghost v: Ledger) returns (e': Engine, ghost v': Ledger)
    requires Running(e, v) && i < |e.operations| && e.operations[i].stage.Idle? && e.nextOffset < |e.kernel.source|
    ensures ValidEngine(e') && e'.kernel.source == e.kernel.source && e'.chunkBytes == e.chunkBytes
    ensures |e'.operations| == |e.operations|
    ensures forall j :: 0 <= j < |e.operations| && j != i ==> e'.operations[j] == e.operations[j]
    ensures e'.firstError ==> e'.kernel == e.kernel.(faulted := true)
    ensures !e'.firstError ==>
      && Running(e', v') && e'.operations[i].stage.Reading? && v'.written == v.written && v'.readDone == v.readDone
      && e'.readSubmissions == e.readSubmissions + 1
  {
    NextRequest(e, v);
    IdleIsFree(v, i);
    var requestedBytes := Min(|e.kernel.source| - e.nextOffset, e.chunkBytes);
    var prepared := Prepare(e, i, Reading, e.nextOffset, requestedBytes, e.operations[i].buffer);
    var kernel, ok := Submit(e.kernel, i, ReadRequest(e.nextOffset, requestedBytes));
    v' := ReadSubmitted(v, i, e.nextOffset, requestedBytes);
    if !ok {
      e' := RecordFailure(prepared.(kernel := kernel));
      return;
    }
    ReadRuns(e, v, i, requestedBytes, kernel);
    e' := CountRead(prepared, kernel, requestedBytes);
  }

  /** The priming loop: it fills the pool, or submits the whole file, or fails. */
  method Prime(e: Engine, ghost v: Ledger) returns (e': Engine, ghost v': Ledger)
    requires Running(e, v) && forall i :: 0 <= i < |e.operations| ==> e.operations[i].stage.Idle?
    ensures ValidEngine(e') && e'.kernel.source == e.kernel.source && e'.chunkBytes == e.chunkBytes
    ensures !e'.firstError ==> Running(e', v') && Saturated(v')
  {
    e', v' := e, v;
    var i := 0;
    while i < |e'.operations|
      invariant 0 <= i <= |e'.operations|
      invariant Running(e', v') && e'.kernel.source == e.kernel.source && e'.chunkBytes == e.chunkBytes
      invariant forall j :: 0 <= j < |e'.operations| ==> (e'.operations[j].stage.Idle? <==> i <= j)
      decreases |e'.operations| - i
    {
      if e'.nextOffset >= |e'.kernel.source| {
        CountBounds(|v'.source|, v'.chunk, v'.submitted);
        return;
      }
      e', v' := SubmitNextRead(e', i, v');
      if e'.firstError {
        return;
      }
      i := i + 1;
    }
  }

  /** In every error-free state the engine has at most its pool in flight, and each byte below the next offset
      is written or in the range of exactly one operation in flight. */
  lemma EngineInFlight(e: Engine, v: Ledger, p: nat)
    requires Running(e, v) && p < e.nextOffset
    ensures e.outstanding <= |e.operations| && p < |e.kernel.source| == |e.kernel.destination|
    ensures var c := ChunkAt(e.chunkBytes, p);
      if c in v.holder
      then v.holder[c] < |e.operations|
           && forall i | 0 <= i < |e.operations| :: InRange(e.operations[i], p) <==> i == v.holder[c]
      else e.kernel.destination[p] == e.kernel.source[p]
           && forall i | 0 <= i < |e.operations| :: !InRange(e.operations[i], p)
  {
    InFlightBound(v);
    BytePartition(v, p);
    var c := ChunkAt(e.chunkBytes, p);
    if c !in v.holder {
      WrittenByte(v, c, p);
    }
  }

  /** A byte of a written chunk is the source's. */
  lemma WrittenByte(v: Ledger, c: nat, p: nat)
    requires Clean(v) && c in v.written && Reach(|v.source|, v.chunk, c) <= p < ReachAfter(|v.source|, v.chunk, c)
    ensures p < |v.source| == |v.destination| && v.destination[p] == v.source[p]
  {
    var from, to := Reach(|v.source|, v.chunk, c), ReachAfter(|v.source|, v.chunk, c);
    assert Slice(v.destination, v.chunk, c) == Slice(v.source, v.chunk, c);
    assert v.destination[from..to][p - from] == v.source[from..to][p - from];
  }

  // ---------------------------------------------------------------- one completion

  /** Reads, writes and completed writes still to come, weighed one each. */
  ghost function Remaining(v: Ledger): int
    requires v.chunk > 0
  {
    3 * Count(|v.source|, v.chunk) - v.submitted - |v.readDone| - |v.written|
  }

  lemma RemainingIsNatural(v: Ledger)
    requires Clean(v)
    ensures Remaining(v) >= 0
  {
    BelowSize(v.submitted);
    SubsetSize(v.readDone, Below(v.submitted));
    SubsetSize(v.written, Below(v.submitted));
  }

  /** The engine after a completed read whose write was submitted. */
  function CountWrite(e: Engine, kernel: Kernel, bytes: nat): Engine {
    e.(kernel := kernel, bytesRead := e.bytesRead + bytes, writeSubmissions := e.writeSubmissions + 1)
  }

  /** The read byte count never overflows. */
  lemma ReadBytesFit(e: Engine, v: Ledger, i: nat)
    requires Running(e, v) && i in v.pending && i < |v.ops| == |v.slots| && v.ops[i].stage.Reading?
    ensures v.slots[i] !in v.readDone
    ensures e.bytesRead + v.ops[i].requestedBytes == TotalBytes(|v.source|, v.chunk, v.readDone + {v.slots[i]}) < U64
  {
    PendingIsBusy(v, i);
    BytesOfOneMore(|v.source|, v.chunk, v.readDone, v.slots[i]);
    TotalAtMost(|v.source|, v.chunk, v.readDone + {v.slots[i]});
  }

  lemma WriteRuns(e: Engine, v: Ledger, i: nat, kernel: Kernel, data: seq<byte>)
    requires Running(e, v) && i in v.pending && i < |v.ops| == |v.slots| && v.ops[i].stage.Reading?
    requires data == Slice(v.source, v.chunk, v.slots[i]) && ValidKernel(kernel)
    requires kernel == e.kernel.(pending := e.kernel.pending[i := WriteRequest(v.ops[i].fileOffset, data)])
    requires |kernel.pending| == |e.kernel.pending|
    ensures Running(CountWrite(Prepare(e, i, Writing, v.ops[i].fileOffset, v.ops[i].requestedBytes, data), kernel,
                               v.ops[i].requestedBytes),
                    WriteSubmitted(v, i, data))
    ensures Remaining(WriteSubmitted(v, i, data)) < Remaining(v)
  {
    ReadBytesFit(e, v, i);
    WriteSubmittedClean(v, i, data);
    assert |v.readDone + {v.slots[i]}| == |v.readDone| + 1;
  }

  /** The engine after a completed write. */
  function FinishWrite(e: Engine, kernel: Kernel, i: nat, bytes: nat): Engine
    requires i < |e.operations| && e.outstanding > 0
  {
    e.(kernel := kernel, outstanding := e.outstanding - 1, bytesWritten := e.bytesWritten + bytes,
       operations := e.operations[i := e.operations[i].(stage := Idle)])
  }

  /** The written byte count never overflows. */
  lemma WrittenBytesFit(e: Engine, v: Ledger, i: nat)
    requires Running(e, v) && i in v.pending && i < |v.ops| == |v.slots| && v.ops[i].stage.Writing?
    ensures v.slots[i] !in v.written
    ensures e.bytesWritten + v.ops[i].requestedBytes == TotalBytes(|v.source|, v.chunk, v.written + {v.slots[i]}) < U64
  {
    PendingIsBusy(v, i);
    BytesOfOneMore(|v.source|, v.chunk, v.written, v.slots[i]);
    TotalAtMost(|v.source|, v.chunk, v.written + {v.slots[i]});
  }

  lemma WriteDoneRuns(e: Engine, v: Ledger, i: nat, kernel: Kernel)
    requires Running(e, v) && i in v.pending && i < |v.ops| == |v.slots| && v.ops[i].stage.Writing?
    requires v.ops[i].fileOffset + |v.ops[i].buffer| <= |v.destination| && ValidKernel(kernel) && e.outstanding > 0
    requires kernel == Kernel(e.kernel.source, WithSlice(v.destination, v.ops[i].fileOffset, v.ops[i].buffer),
                              e.kernel.pending - {i}, false)
    requires |kernel.pending| == |e.kernel.pending| - 1
    ensures Running(FinishWrite(e, kernel, i, v.ops[i].requestedBytes), WriteDone(v, i))
    ensures Remaining(WriteDone(v, i)) < Remaining(v)
  {
    WrittenBytesFit(e, v, i);
    WriteDoneClean(v, i);
    assert |v.written + {v.slots[i]}| == |v.written| + 1;
  }

  /** A full packet for a read filled the buffer with its chunk. */
  lemma ReadFilled(e: Engine, kernel: Kernel, packet: Packet, i: nat, v: Ledger)
    requires Running(e, v) && i in v.pending && i < |v.ops| == |v.slots| && v.ops[i].stage.Reading?
    requires !packet.failed && Delivers(e.kernel, kernel, i, packet)
    requires packet.bytesTransferred == v.ops[i].requestedBytes
    ensures packet.filled == Slice(v.source, v.chunk, v.slots[i]) && kernel.destination == e.kernel.destination
    ensures v.ops[i].fileOffset + |packet.filled| <= |kernel.destination|
  {
    PendingIsBusy(v, i);
  }

  /** A full packet for a write put its chunk into the destination. */
  lemma WriteLanded(e: Engine, kernel: Kernel, packet: Packet, i: nat, v: Ledger)
    requires Running(e, v) && i in v.pending && i < |v.ops| == |v.slots| && v.ops[i].stage.Writing?
    requires !packet.failed && Delivers(e.kernel, kernel, i, packet)
    requires packet.bytesTransferred == v.ops[i].requestedBytes
    ensures v.ops[i].fileOffset + |v.ops[i].buffer| <= |v.destination|
    ensures kernel.destination == WithSlice(v.destination, v.ops[i].fileOffset, v.ops[i].buffer)
  {
    WriteDoneClean(v, i);
    assert OperationOk(v, i);
  }

  /** What the engine checks of a packet that is not marked as failed is what its success means. */
  lemma ChecksAreExact(e: Engine, v: Ledger, i: nat, packet: Packet)
    requires Running(e, v) && i in v.pending && i < |v.ops| == |v.slots| && !packet.failed && packet.operation.Some?
    ensures Succeeds(e.kernel.pending[i], packet) <==>
      && packet.bytesTransferred == v.ops[i].requestedBytes
      && packet.key == if v.ops[i].stage.Reading? then SourceKey else DestinationKey
  {
    PendingIsBusy(v, i);
  }

  /** A completed read: check the packet, then hand the chunk on to a write. */
  method OnRead(e: Engine, kernel: Kernel, packet: Packet, i: nat, ghost v: Ledger)
    returns (e': Engine, ghost v': Ledger)
    requires Running(e, v) && i in v.pending && i < |v.ops| == |v.slots| && v.ops[i].stage.Reading?
    requires ValidKernel(kernel) && kernel.pending == e.kernel.pending - {i} && kernel.source == e.kernel.source
    requires |kernel.pending| == |e.kernel.pending| - 1
    requires !packet.failed && packet.operation.Some? && Delivers(e.kernel, kernel, i, packet)
    requires kernel.faulted <==> !Succeeds(e.kernel.pending[i], packet)
    ensures ValidEngine(e') && e'.kernel.source == e.kernel.source && e'.chunkBytes == e.chunkBytes
    ensures !e'.firstError ==> Running(e', v') && Remaining(v') < Remaining(v) && (Saturated(v) ==> Saturated(v'))
  {
    v' := v;
    var waiting := e.(kernel := kernel, outstanding := e.outstanding - 1);
    var op := e.operations[i];
    ChecksAreExact(e, v, i, packet);
    if packet.key != SourceKey || packet.bytesTransferred != op.requestedBytes {
      e' := RecordFailure(waiting);
      return;
    }
    ReadFilled(e, kernel, packet, i, v);
    assert e.bytesRead + packet.bytesTransferred < U64 by {
      ReadBytesFit(e, v, i);
    }
    var submitted, ok := Submit(kernel, i, WriteRequest(op.fileOffset, packet.filled));
    if !ok {
      e' := RecordFailure(waiting.(kernel := submitted, bytesRead := e.bytesRead + packet.bytesTransferred));
      return;
    }
    ReplaceEntry(e.kernel.pending, i, WriteRequest(op.fileOffset, packet.filled));
    WriteRuns(e, v, i, submitted, packet.filled);
    v' := WriteSubmitted(v, i, packet.filled);
    // One packet was taken and one request submitted, so `outstanding` is as before.
    e' := CountWrite(Prepare(e, i, Writing, op.fileOffset, packet.bytesTransferred, packet.filled), submitted,
                     packet.bytesTransferred);
  }

  lemma ReplaceEntry(m: map<nat, Request>, i: nat, x: Request)
    ensures (m - {i})[i := x] == m[i := x]
  {
  }

  /** A completed write: check the packet, free the operation, and give it the next chunk if there is
      one. */
  method OnWrite(e: Engine, kernel: Kernel, packet: Packet, i: nat, ghost v: Ledger)
    returns (e': Engine, ghost v': Ledger)
    requires Running(e, v) && i in v.pending && i < |v.ops| == |v.slots| && v.ops[i].stage.Writing? && Saturated(v)
    requires ValidKernel(kernel) && kernel.pending == e.kernel.pending - {i} && kernel.source == e.kernel.source
    requires |kernel.pending| == |e.kernel.pending| - 1
    requires !packet.failed && packet.operation.Some? && Delivers(e.kernel, kernel, i, packet)
    requires kernel.faulted <==> !Succeeds(e.kernel.pending[i], packet)
    ensures ValidEngine(e') && e'.kernel.source == e.kernel.source && e'.chunkBytes == e.chunkBytes
    ensures !e'.firstError ==> Running(e', v') && Remaining(v') < Remaining(v) && Saturated(v')
  {
    v' := v;
    var op := e.operations[i];
    ChecksAreExact(e, v, i, packet);
    if packet.key != DestinationKey || packet.bytesTransferred != op.requestedBytes {
      e' := RecordFailure(e.(kernel := kernel, outstanding := e.outstanding - 1));
      return;
    }
    WriteLanded(e, kernel, packet, i, v);
    assert e.bytesWritten + packet.bytesTransferred < U64 by {
      WrittenBytesFit(e, v, i);
    }
    WriteDoneRuns(e, v, i, kernel);
    e', v' := Refill(FinishWrite(e, kernel, i, packet.bytesTransferred), i, WriteDone(v, i));
  }

  /** A freed operation takes the next chunk, if any is left. */
  method Refill(e: Engine, i: nat, ghost v: Ledger) returns (e': Engine, ghost v': Ledger)
    requires Running(e, v) && i < |e.operations| && e.operations[i].stage.Idle?
    requires v.submitted < Count(|v.source|, v.chunk) ==>
      forall j :: 0 <= j < |v.ops| && j != i ==> !v.ops[j].stage.Idle?
    ensures ValidEngine(e') && e'.kernel.source == e.kernel.source && e'.chunkBytes == e.chunkBytes
    ensures !e'.firstError ==> Running(e', v') && Remaining(v') <= Remaining(v) && Saturated(v')
  {
    CountBounds(|v.source|, v.chunk, v.submitted);
    if e.nextOffset < |e.kernel.source| {
      e', v' := SubmitNextRead(e, i, v);
    } else {
      e', v' := e, v;
    }
  }

  /** One turn of the completion loop. After the first error it only drains: nothing is submitted and the
      kernel owns one request less. Without an error the work left shrinks. */
  method Step(e: Engine, ghost v: Ledger) returns (e': Engine, ghost v': Ledger, portAlive: bool)
    requires ValidEngine(e) && e.outstanding > 0 && (!e.firstError ==> Running(e, v) && Saturated(v))
    ensures !portAlive ==> e'.kernel.faulted
    ensures portAlive ==> ValidEngine(e') && e'.kernel.source == e.kernel.source && e'.chunkBytes == e.chunkBytes
    ensures portAlive && !e'.firstError ==> Running(e', v') && Saturated(v')
    ensures portAlive && !e.firstError && !e'.firstError ==> Remaining(v') < Remaining(v)
    ensures portAlive && e.firstError ==>
      && e'.firstError && e'.outstanding == e.outstanding - 1 && e'.operations == e.operations
      && e'.readSubmissions == e.readSubmissions && e'.writeSubmissions == e.writeSubmissions
  {
    v' := v;
    assert e.kernel.pending != map[];
    var kernel, received, i := Wait(e.kernel);
    if received.None? {
      return e.(kernel := kernel, cancelled := true), v, false;
    }
    portAlive := true;
    var packet := received.value;
    var waiting := e.(kernel := kernel, outstanding := e.outstanding - 1);
    if e.firstError {
      e' := waiting;
      return;
    }
    if packet.failed || packet.operation.None? {
      e' := RecordFailure(waiting);
      return;
    }
    var j := packet.operation.value;
    PendingIsBusy(v, j);
    match e.operations[j].stage {
      case Reading => e', v' := OnRead(e, kernel, packet, j, v);
      case Writing => e', v' := OnWrite(e, kernel, packet, j, v);
      case Idle => assert false;
    }
  }

  /** The engine before its first submission. */
  function FreshEngine(source: seq<byte>, chunkBytes: nat, operationCount: nat): Engine {
    Engine(Kernel(source, seq(|source|, _ => 0), map[], false), chunkBytes,
           seq(operationCount, _ => IoOperation(Idle, 0, 0, seq(chunkBytes, _ => 0))),
           0, 0, 0, 0, 0, 0, false, false)
  }

  lemma StartsRunning(source: seq<byte>, chunkBytes: nat, operationCount: nat) returns (v: Ledger)
    requires 0 < chunkBytes < U32 && operationCount > 0 && |source| < U64
    ensures Running(FreshEngine(source, chunkBytes, operationCount), v)
  {
    var e := FreshEngine(source, chunkBytes, operationCount);
    v := Ledger(source, e.kernel.destination, chunkBytes, e.operations, map[], seq(operationCount, _ => 0), map[], 0,
                {}, {});
    assert TotalBytes(|source|, chunkBytes, {}) == 0;
  }

  /** The completion loop. It ends: after an error the kernel owns less with every packet, and without
      one the work left shrinks. */
  method Drain(start: Engine, ghost w: Ledger) returns (e: Engine, ghost v: Ledger, portAlive: bool)
    requires ValidEngine(start) && (!start.firstError ==> Running(start, w) && Saturated(w))
    ensures !portAlive ==> e.kernel.faulted
    ensures portAlive ==> ValidEngine(e) && e.outstanding == 0 && e.kernel.source == start.kernel.source
    ensures portAlive ==> e.chunkBytes == start.chunkBytes && (!e.firstError ==> Running(e, v) && Saturated(v))
  {
    e, v, portAlive := start, w, true;
    while e.outstanding > 0
      invariant portAlive && ValidEngine(e)
      invariant e.kernel.source == start.kernel.source && e.chunkBytes == start.chunkBytes
      invariant !e.firstError ==> Running(e, v) && Saturated(v)
      decreases !e.firstError, if e.firstError then e.outstanding else Remaining(v)
    {
      if !e.firstError {
        RemainingIsNatural(v);
      }
      e, v, portAlive := Step(e, v);
      if !portAlive {
        return;
      }
    }
  }

  /** An error-free run that has drained has copied everything. */
  lemma DrainedIsCopied(e: Engine, v: Ledger)
    requires Running(e, v) && Saturated(v) && e.outstanding == 0
    ensures e.kernel.pending == map[] && e.kernel.destination == e.kernel.source
    ensures e.bytesRead == e.bytesWritten == |e.kernel.source|
    ensures e.readSubmissions == e.writeSubmissions == (|e.kernel.source| + e.chunkBytes - 1) / e.chunkBytes
  {
    DrainedIsDone(v);
    BytesOfAll(|v.source|, v.chunk);
    BelowSize(v.submitted);
    CountIsCeiling(|v.source|, v.chunk);
  }

  /** `run`, after the files are open: for every order in which the kernel completes reads and writes, a
      successful copy leaves the destination equal to the source, with exactly one read and one write
      per chunk. It succeeds exactly when the kernel never failed it in anything. The run always ends,
      and unless the completion port itself failed, it ends with nothing owned by the kernel any more. */
  method Run(source: seq<byte>, chunkBytes: nat, operationCount: nat) returns (outcome: Outcome, e: Engine)
    requires 0 < chunkBytes < U32 && operationCount > 0 && |source| < U64
    ensures outcome.Copied? ==>
      && e.kernel.source == source && e.kernel.destination == source && outcome.report.bytesCopied == |source|
      && outcome.report.readSubmissions == outcome.report.writeSubmissions == (|source| + chunkBytes - 1) / chunkBytes
    ensures outcome.Copied? <==> !e.kernel.faulted
    ensures outcome != Failed(PortFailed) ==> e.kernel.pending == map[]
  {
    e := FreshEngine(source, chunkBytes, operationCount);
    ghost var v := StartsRunning(source, chunkBytes, operationCount);
    e, v := Prime(e, v);
    var portAlive;
    e, v, portAlive := Drain(e, v);
    if !portAlive {
      return Failed(PortFailed), e;
    }
    if e.firstError {
      return Failed(OperationFailed), e;
    }
    DrainedIsCopied(e, v);
    if * {
      // Flushing the destination may still fail.
      e := e.(kernel := e.kernel.(faulted := true));
      return Failed(OperationFailed), e;
    }
    assert e.bytesRead == |source| && e.bytesWritten == |source|;
    outcome := Copied(Report(e.bytesWritten, e.readSubmissions, e.writeSubmissions));
  }
}
