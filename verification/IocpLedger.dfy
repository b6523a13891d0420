/** What the completion-port copy engine (src/iocp_copy.rs) keeps true while its operations are in
    flight: a ledger of which chunk each operation holds and which chunks are written. */
module IocpLedger {

  import opened Bytes

  datatype Stage = Idle | Reading | Writing

  datatype IoOperation = IoOperation(stage: Stage, fileOffset: nat, requestedBytes: nat, buffer: seq<byte>)

  /** What the kernel owns: a read it was asked for, or a write with the bytes of its buffer. */
  datatype Request = ReadRequest(offset: nat, length: nat) | WriteRequest(offset: nat, data: seq<byte>)

  // ---------------------------------------------------------------- chunks of the file

  /** Where chunk `c` starts: `c * chunk`. */
  function Start(chunk: nat, c: nat): nat {
    if c == 0 then 0 else Start(chunk, c - 1) + chunk
  }

  /** The number of chunks of a file of `length` bytes. */
  function Count(length: nat, chunk: nat): nat
    requires chunk > 0
  {
    if length == 0 then 0 else if length <= chunk then 1 else 1 + Count(length - chunk, chunk)
  }

  /** Where the first `k` chunks end. */
  function Reach(length: nat, chunk: nat, k: nat): nat {
    Min(length, Start(chunk, k))
  }

  lemma DivByOneMore(a: nat, d: nat)
    requires d > 0
    ensures (a + d) / d == a / d + 1
  {
    var q, r := a / d, a % d;
    assert a + d == d * (q + 1) + r by {
      assert a == d * q + r;
      assert d * (q + 1) == d * q + d;
    }
    var e := (a + d) / d - (q + 1);
    assert d * e == r - (a + d) % d by {
      assert a + d == d * ((a + d) / d) + (a + d) % d;
      assert d * e == d * ((a + d) / d) - d * (q + 1);
    }
    SmallMultiple(d, e);
  }

  lemma SmallMultiple(d: int, e: int)
    requires d > 0 && -d < d * e < d
    ensures e == 0
  {
  }

  /** The count is the length divided by the chunk size, rounded up. */
  lemma {:induction false} CountIsCeiling(length: nat, chunk: nat)
    requires chunk > 0
    ensures Count(length, chunk) == (length + chunk - 1) / chunk
    decreases length
  {
    if length > chunk {
      CountIsCeiling(length - chunk, chunk);
      DivByOneMore(length - 1, chunk);
    } else if length > 0 {
      DivByOneMore(length - 1, chunk);
      assert (length - 1) / chunk == 0;
    } else {
      assert (chunk - 1) / chunk == 0;
    }
  }

  lemma {:induction false} CountBounds(length: nat, chunk: nat, k: nat)
    requires chunk > 0
    ensures k < Count(length, chunk) <==> Start(chunk, k) < length
    decreases length
  {
    if k > 0 {
      StartMonotone(chunk, 1, k);
      if length > chunk {
        CountBounds(length - chunk, chunk, k - 1);
      }
    }
  }

  lemma {:induction false} StartMonotone(chunk: nat, c: nat, d: nat)
    requires c <= d
    ensures Start(chunk, c) <= Start(chunk, d)
    ensures c < d ==> Start(chunk, c) + chunk <= Start(chunk, d)
  {
    if c < d {
      StartMonotone(chunk, c, d - 1);
    }
  }

  /** The chunk the byte `p` lies in. */
  function ChunkAt(chunk: nat, p: nat): nat
    requires chunk > 0
    decreases p
  {
    if p < chunk then 0 else 1 + ChunkAt(chunk, p - chunk)
  }

  lemma {:induction false} ChunkAtBounds(chunk: nat, p: nat)
    requires chunk > 0
    ensures Start(chunk, ChunkAt(chunk, p)) <= p < Start(chunk, ChunkAt(chunk, p) + 1)
    decreases p
  {
    if p >= chunk {
      ChunkAtBounds(chunk, p - chunk);
    }
  }

  /** The bytes of chunk `c` of the file `s`. */
  function Slice(s: seq<byte>, chunk: nat, c: nat): seq<byte> {
    s[Reach(|s|, chunk, c)..ReachAfter(|s|, chunk, c)]
  }

  function ReachAfter(length: nat, chunk: nat, c: nat): (r: nat)
    ensures Reach(length, chunk, c) <= r <= length
  {
    StartMonotone(chunk, c, c + 1);
    Reach(length, chunk, c + 1)
  }

  /** The next request: the rest of the file, or one chunk of it. */
  lemma NextChunk(length: nat, chunk: nat, k: nat)
    requires chunk > 0 && Reach(length, chunk, k) < length
    ensures k < Count(length, chunk)
    ensures ReachAfter(length, chunk, k) == Reach(length, chunk, k) + Min(length - Reach(length, chunk, k), chunk)
    ensures ReachAfter(length, chunk, k) == Reach(length, chunk, k + 1)
  {
    CountBounds(length, chunk, k);
  }

  /** Two files that agree on every chunk are equal. */
  lemma ChunksDetermine(s: seq<byte>, d: seq<byte>, chunk: nat)
    requires chunk > 0 && |s| == |d|
    requires forall c :: 0 <= c < Count(|s|, chunk) ==> Slice(s, chunk, c) == Slice(d, chunk, c)
    ensures s == d
  {
    forall p | 0 <= p < |s|
      ensures s[p] == d[p]
    {
      var c := ChunkAt(chunk, p);
      ChunkAtBounds(chunk, p);
      CountBounds(|s|, chunk, c);
      var i := p - Start(chunk, c);
      assert Slice(s, chunk, c)[i] == s[p];
      assert Slice(d, chunk, c)[i] == d[p];
    }
  }

  // ---------------------------------------------------------------- sets of chunks

  function Below(k: nat): (s: set<nat>)
    ensures forall c: nat :: c in s <==> c < k
  {
    if k == 0 then {} else Below(k - 1) + {k - 1}
  }

  lemma {:induction false} BelowSize(k: nat)
    ensures |Below(k)| == k
  {
    if k > 0 {
      BelowSize(k - 1);
    }
  }

  lemma {:induction false} SubsetSize(a: set<nat>, b: set<nat>)
    requires a <= b
    ensures |a| <= |b| && (|a| == |b| ==> a == b)
  {
    if a != {} {
      var x :| x in a;
      SubsetSize(a - {x}, b - {x});
      assert a == (a - {x}) + {x} && b == (b - {x}) + {x};
    }
  }

  /** The bytes of a set of chunks: all are full but the last one of the file. */
  function TotalBytes(length: nat, chunk: nat, s: set<nat>): int
    requires chunk > 0
  {
    var n := Count(length, chunk);
    Start(chunk, |s|) - if n > 0 && n - 1 in s then Start(chunk, n) - length else 0
  }

  lemma BytesOfOneMore(length: nat, chunk: nat, s: set<nat>, c: nat)
    requires chunk > 0 && c !in s && c < Count(length, chunk)
    ensures TotalBytes(length, chunk, s + {c}) ==
      TotalBytes(length, chunk, s) + ReachAfter(length, chunk, c) - Reach(length, chunk, c)
  {
    var n := Count(length, chunk);
    assert |s + {c}| == |s| + 1;
    CountBounds(length, chunk, c);
    CountBounds(length, chunk, c + 1);
  }

  lemma BytesOfAll(length: nat, chunk: nat)
    requires chunk > 0
    ensures TotalBytes(length, chunk, Below(Count(length, chunk))) == length
  {
    var n := Count(length, chunk);
    BelowSize(n);
    CountBounds(length, chunk, n);
    if n > 0 {
      assert n - 1 in Below(n);
    } else {
      CountBounds(length, chunk, 0);
    }
  }

  lemma SizeBelow(s: set<nat>, n: nat)
    requires s <= Below(n)
    ensures |s| <= n
  {
    BelowSize(n);
    SubsetSize(s, Below(n));
  }

  lemma TotalAtMost(length: nat, chunk: nat, s: set<nat>)
    requires chunk > 0 && s <= Below(Count(length, chunk))
    ensures TotalBytes(length, chunk, s) <= length
  {
    var n := Count(length, chunk);
    if n > 0 && n - 1 in s {
      SizeBelow(s, n);
      StartMonotone(chunk, |s|, n);
    } else if n > 0 {
      SizeBelow(s, n - 1);
      StartMonotone(chunk, |s|, n - 1);
      CountBounds(length, chunk, n - 1);
    } else {
      SizeBelow(s, 0);
    }
  }

  // ---------------------------------------------------------------- the ledger

  /** The state the claims are about. `slots[i]` is the chunk operation `i` last took, `holder` the
      operation holding each chunk in flight; `submitted` chunks were ever taken, `readDone` are read
      and `written` are in the destination. */
  datatype Ledger = Ledger(
    source: seq<byte>, destination: seq<byte>, chunk: nat, ops: seq<IoOperation>, pending: map<nat, Request>,
    slots: seq<nat>, holder: map<nat, nat>, submitted: nat, readDone: set<nat>, written: set<nat>)

  predicate Holds(v: Ledger, i: nat)
    requires i < |v.ops| == |v.slots|
  {
    v.slots[i] in v.holder && v.holder[v.slots[i]] == i
  }

  /** The operation and the kernel agree on what it is doing. */
  predicate OperationOk(v: Ledger, i: nat)
    requires i < |v.ops| == |v.slots|
  {
    var op, c := v.ops[i], v.slots[i];
    match op.stage
    case Idle => i !in v.pending
    case Reading =>
      && Holds(v, i) && c !in v.readDone && i in v.pending
      && op.fileOffset == Reach(|v.source|, v.chunk, c)
      && op.fileOffset + op.requestedBytes == ReachAfter(|v.source|, v.chunk, c)
      && v.pending[i] == ReadRequest(op.fileOffset, op.requestedBytes)
    case Writing =>
      && Holds(v, i) && c in v.readDone && i in v.pending
      && op.fileOffset == Reach(|v.source|, v.chunk, c)
      && op.fileOffset + op.requestedBytes == ReachAfter(|v.source|, v.chunk, c)
      && v.pending[i] == WriteRequest(op.fileOffset, op.buffer)
      && op.buffer == Slice(v.source, v.chunk, c)
  }

  /** Every chunk submitted so far is either written or held by exactly one operation in flight, and
      what is written is right. */
  ghost predicate Clean(v: Ledger) {
    && v.chunk > 0 && |v.slots| == |v.ops| && |v.destination| == |v.source|
    && v.submitted <= Count(|v.source|, v.chunk)
    && (forall c: nat :: c < v.submitted ==> (c in v.written <==> c !in v.holder))
    && (forall c :: c in v.readDone ==> c < v.submitted) && (forall c :: c in v.written ==> c in v.readDone)
    && (forall i :: i in v.pending ==> i < |v.ops|)
    && (forall i :: 0 <= i < |v.ops| ==> OperationOk(v, i))
    && (forall c :: c in v.holder ==> c < v.submitted && v.holder[c] < |v.ops| && v.slots[v.holder[c]] == c
                                      && !v.ops[v.holder[c]].stage.Idle?)
    && (forall c :: c in v.written ==> Slice(v.destination, v.chunk, c) == Slice(v.source, v.chunk, c))
  }

  /** No operation is idle while chunks remain to be submitted. */
  predicate Saturated(v: Ledger) {
    v.chunk > 0 && (v.submitted < Count(|v.source|, v.chunk) ==> forall i :: 0 <= i < |v.ops| ==> !v.ops[i].stage.Idle?)
  }

  /** The in-flight count never exceeds the pool. */
  lemma InFlightBound(v: Ledger)
    requires Clean(v)
    ensures |v.pending| <= |v.ops|
  {
    assert v.pending.Keys <= Below(|v.ops|);
    SubsetSize(v.pending.Keys, Below(|v.ops|));
    BelowSize(|v.ops|);
  }

  /** The byte `p` lies in the range of an operation in flight. */
  predicate InRange(op: IoOperation, p: nat) {
    !op.stage.Idle? && op.fileOffset <= p < op.fileOffset + op.requestedBytes
  }

  /** At every byte below the next offset: it is in a written chunk, or in the range of an operation in
      flight, and then of only that one. */
  lemma BytePartition(v: Ledger, p: nat)
    requires Clean(v) && p < Reach(|v.source|, v.chunk, v.submitted)
    ensures var c := ChunkAt(v.chunk, p);
      && c < v.submitted && Reach(|v.source|, v.chunk, c) <= p < ReachAfter(|v.source|, v.chunk, c)
      && (c in v.written <==> c !in v.holder)
      && forall i :: 0 <= i < |v.ops| && InRange(v.ops[i], p) ==> c in v.holder && i == v.holder[c]
    ensures var c := ChunkAt(v.chunk, p);
      c in v.holder ==>
        v.holder[c] < |v.ops| && InRange(v.ops[v.holder[c]], p)
  {
    var c := ChunkAt(v.chunk, p);
    ChunkAtBounds(v.chunk, p);
    if v.submitted <= c {
      StartMonotone(v.chunk, v.submitted, c);
    }
    assert c in Below(v.submitted);
    forall i | 0 <= i < |v.ops| && InRange(v.ops[i], p)
      ensures c in v.holder && i == v.holder[c]
    {
      assert OperationOk(v, i);
      InOneChunk(|v.source|, v.chunk, v.slots[i], p);
    }
    if c in v.holder {
      assert OperationOk(v, v.holder[c]);
    }
  }

  lemma InOneChunk(length: nat, chunk: nat, c: nat, p: nat)
    requires chunk > 0 && Reach(length, chunk, c) <= p < ReachAfter(length, chunk, c)
    ensures c == ChunkAt(chunk, p)
  {
    ChunkAtBounds(chunk, p);
    var q := ChunkAt(chunk, p);
    if c < q {
      StartMonotone(chunk, c, q);
    } else if q < c {
      StartMonotone(chunk, q, c);
    }
  }

  /** An operation with a pending request is in flight, with the request it was prepared for. */
  lemma PendingIsBusy(v: Ledger, i: nat)
    requires Clean(v) && i in v.pending
    ensures i < |v.ops| == |v.slots| && !v.ops[i].stage.Idle? && OperationOk(v, i) && |v.destination| == |v.source|
    ensures v.slots[i] < v.submitted && v.slots[i] < Count(|v.source|, v.chunk) && v.slots[i] !in v.written
  {
    assert OperationOk(v, i);
    assert v.slots[i] in Below(v.submitted);
  }

  lemma IdleIsFree(v: Ledger, i: nat)
    requires Clean(v) && i < |v.ops| && v.ops[i].stage.Idle?
    ensures i !in v.pending && |v.slots| == |v.ops| && |v.destination| == |v.source|
  {
    assert OperationOk(v, i);
  }

  // ---------------------------------------------------------------- the three transitions

  /** A read of the next chunk, which lies at `offset`, is submitted on the idle operation `i`. */
  function ReadSubmitted(v: Ledger, i: nat, offset: nat, length: nat): Ledger
    requires i < |v.ops| == |v.slots|
  {
    v.(ops := v.ops[i := IoOperation(Reading, offset, length, v.ops[i].buffer)],
       pending := v.pending[i := ReadRequest(offset, length)],
       slots := v.slots[i := v.submitted], holder := v.holder[v.submitted := i], submitted := v.submitted + 1)
  }

  lemma ReadSubmittedClean(v: Ledger, i: nat, offset: nat, length: nat)
    requires Clean(v) && i < |v.ops| && v.ops[i].stage.Idle? && v.submitted < Count(|v.source|, v.chunk)
    requires offset == Reach(|v.source|, v.chunk, v.submitted)
    requires offset + length == ReachAfter(|v.source|, v.chunk, v.submitted)
    ensures Clean(ReadSubmitted(v, i, offset, length))
  {
    var w := ReadSubmitted(v, i, offset, length);
    var k := v.submitted;
    assert Below(k + 1) == Below(k) + {k};
    assert k !in v.holder && k !in v.readDone by {
      assert k !in Below(k);
    }
    assert w.holder.Keys == v.holder.Keys + {k};
    forall j | 0 <= j < |w.ops|
      ensures OperationOk(w, j)
    {
      assert OperationOk(v, j);
    }
  }

  /** Operation `i` has read its chunk and its write is submitted. */
  function WriteSubmitted(v: Ledger, i: nat, data: seq<byte>): Ledger
    requires i < |v.ops| == |v.slots|
  {
    var op := v.ops[i];
    v.(ops := v.ops[i := IoOperation(Writing, op.fileOffset, op.requestedBytes, data)],
       pending := v.pending[i := WriteRequest(op.fileOffset, data)],
       readDone := v.readDone + {v.slots[i]})
  }

  lemma WriteSubmittedClean(v: Ledger, i: nat, data: seq<byte>)
    requires Clean(v) && i < |v.ops| && v.ops[i].stage.Reading? && data == Slice(v.source, v.chunk, v.slots[i])
    ensures Clean(WriteSubmitted(v, i, data))
  {
    var w := WriteSubmitted(v, i, data);
    assert OperationOk(v, i);
    assert v.slots[i] in Below(v.submitted);
    forall j | 0 <= j < |w.ops|
      ensures OperationOk(w, j)
    {
      assert OperationOk(v, j);
    }
  }

  function WithSlice(d: seq<byte>, offset: nat, data: seq<byte>): (r: seq<byte>)
    requires offset + |data| <= |d|
    ensures |r| == |d|
  {
    d[..offset] + data + d[offset + |data|..]
  }

  /** Operation `i` has written its chunk and is idle. */
  function WriteDone(v: Ledger, i: nat): Ledger
    requires i < |v.ops| == |v.slots|
    requires v.ops[i].fileOffset + |v.ops[i].buffer| <= |v.destination|
  {
    v.(destination := WithSlice(v.destination, v.ops[i].fileOffset, v.ops[i].buffer),
       ops := v.ops[i := v.ops[i].(stage := Idle)],
       pending := v.pending - {i}, holder := v.holder - {v.slots[i]}, written := v.written + {v.slots[i]})
  }

  lemma SliceInside(d: seq<byte>, o: nat, data: seq<byte>, a: nat, b: nat)
    requires o + |data| <= |d| && a <= b <= |d|
    ensures b <= o || o + |data| <= a ==> WithSlice(d, o, data)[a..b] == d[a..b]
    ensures a == o && b == o + |data| ==> WithSlice(d, o, data)[a..b] == data
  {
    var r := WithSlice(d, o, data);
    assert forall p :: 0 <= p < |d| && (p < o || o + |data| <= p) ==> r[p] == d[p];
    assert forall p :: 0 <= p < |data| ==> r[o + p] == data[p];
  }

  lemma ReachOrder(length: nat, chunk: nat, a: nat, b: nat)
    requires a <= b
    ensures Reach(length, chunk, a) <= Reach(length, chunk, b)
  {
    StartMonotone(chunk, a, b);
  }

  lemma OwnSlice(d: seq<byte>, chunk: nat, c: nat, data: seq<byte>)
    requires Reach(|d|, chunk, c) + |data| == ReachAfter(|d|, chunk, c)
    ensures Slice(WithSlice(d, Reach(|d|, chunk, c), data), chunk, c) == data
  {
    SliceInside(d, Reach(|d|, chunk, c), data, Reach(|d|, chunk, c), ReachAfter(|d|, chunk, c));
  }

  lemma OtherSlice(d: seq<byte>, chunk: nat, c: nat, e: nat, data: seq<byte>)
    requires e != c && Reach(|d|, chunk, c) + |data| == ReachAfter(|d|, chunk, c)
    ensures Slice(WithSlice(d, Reach(|d|, chunk, c), data), chunk, e) == Slice(d, chunk, e)
  {
    var o, a, b := Reach(|d|, chunk, c), Reach(|d|, chunk, e), ReachAfter(|d|, chunk, e);
    assert b <= o || o + |data| <= a by {
      if e < c {
        ReachOrder(|d|, chunk, e + 1, c);
      } else {
        ReachOrder(|d|, chunk, c + 1, e);
      }
    }
    SliceInside(d, o, data, a, b);
  }

  lemma WriteDoneClean(v: Ledger, i: nat)
    requires Clean(v) && i < |v.ops| && v.ops[i].stage.Writing?
    ensures v.ops[i].fileOffset + |v.ops[i].buffer| <= |v.destination|
    ensures Clean(WriteDone(v, i)) && v.slots[i] !in v.written && v.slots[i] < Count(|v.source|, v.chunk)
    ensures |v.ops[i].buffer| == v.ops[i].requestedBytes
  {
    assert OperationOk(v, i);
    var w, c := WriteDone(v, i), v.slots[i];
    assert c in Below(v.submitted);
    assert w.written + w.holder.Keys == Below(w.submitted);
    forall j | 0 <= j < |w.ops|
      ensures OperationOk(w, j)
    {
      assert OperationOk(v, j);
    }
    forall e | e in w.written
      ensures Slice(w.destination, w.chunk, e) == Slice(w.source, w.chunk, e)
    {
      if e == c {
        OwnSlice(v.destination, v.chunk, c, v.ops[i].buffer);
      } else {
        OtherSlice(v.destination, v.chunk, c, e, v.ops[i].buffer);
      }
    }
  }

  // ---------------------------------------------------------------- the end of an error-free run

  /** When nothing is in flight any more, the whole file has been written. */
  lemma DrainedIsDone(v: Ledger)
    requires Clean(v) && Saturated(v) && |v.ops| > 0 && v.pending == map[]
    ensures v.destination == v.source
    ensures v.submitted == Count(|v.source|, v.chunk) && v.written == v.readDone == Below(v.submitted)
  {
    forall i | 0 <= i < |v.ops|
      ensures v.ops[i].stage.Idle?
    {
      assert OperationOk(v, i);
    }
    assert v.ops[0].stage.Idle?;
    assert v.holder.Keys == {};
    assert v.written == Below(v.submitted);
    forall c | 0 <= c < Count(|v.source|, v.chunk)
      ensures Slice(v.source, v.chunk, c) == Slice(v.destination, v.chunk, c)
    {
      assert c in v.written;
    }
    ChunksDetermine(v.source, v.destination, v.chunk);
  }
}
