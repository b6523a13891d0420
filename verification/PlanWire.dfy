/** The wire format of reconstruction plans (src/cdc_reconstruction_bench.rs): a header, then one
    tagged record per operation. */
module PlanWire {

  import opened Bytes
  import opened Chunker
  import opened BasisIndex
  import opened Plan

  /** "NCP1" */
  const PLAN_MAGIC: seq<byte> := [0x4E, 0x43, 0x50, 0x31]
  const PLAN_HEADER_BYTES: nat := 52
  const BASIS_RECORD_BYTES: nat := 17
  const LITERAL_HEADER_BYTES: nat := 9
  const OP_BASIS: byte := 0
  const OP_LITERAL: byte := 1

  // ---------------------------------------------------------------- valid plans

  predicate ValidOp(op: Op) {
    match op
    case Basis(offset, length) => length > 0 && offset + length < U64
    case Literal(contents) => 0 < |contents| < U64
  }

  predicate ValidOps(ops: seq<Op>) {
    forall i :: 0 <= i < |ops| ==> ValidOp(ops[i])
  }

  /** What the decoder demands of a plan. */
  predicate ValidPlan(p: ReconstructionPlan) {
    && ValidOps(p.operations)
    && p.referencedBytes == Referenced(p.operations) && p.literalBytes == Literals(p.operations)
    && p.targetBytes == p.referencedBytes + p.literalBytes < U64
  }

  /** What the decoder demands of a plan, in plain terms. */
  lemma ValidPlanMeans(p: ReconstructionPlan)
    ensures ValidPlan(p) <==>
      && (forall i | 0 <= i < |p.operations| ::
            match p.operations[i]
            case Basis(offset, length) => 0 < length && offset + length < 0x1_0000_0000_0000_0000
            case Literal(contents) => 0 < |contents| < 0x1_0000_0000_0000_0000)
      && p.referencedBytes == Referenced(p.operations) && p.literalBytes == Literals(p.operations)
      && p.targetBytes == p.referencedBytes + p.literalBytes && p.targetBytes < 0x1_0000_0000_0000_0000
  {
    assert forall i | 0 <= i < |p.operations| :: ValidOp(p.operations[i]) <==>
      match p.operations[i]
      case Basis(offset, length) => 0 < length && offset + length < 0x1_0000_0000_0000_0000
      case Literal(contents) => 0 < |contents| < 0x1_0000_0000_0000_0000;
  }

  lemma {:induction false} TotalsAppend(a: seq<Op>, b: seq<Op>)
    ensures Referenced(a + b) == Referenced(a) + Referenced(b) && Literals(a + b) == Literals(a) + Literals(b)
    decreases |b|
  {
    if b == [] {
      assert a + b == a;
    } else {
      TotalsAppend(a, b[..|b| - 1]);
      assert (a + b)[..|a + b| - 1] == a + b[..|b| - 1];
    }
  }

  lemma {:induction false} CountIsBounded(ops: seq<Op>)
    requires ValidOps(ops)
    ensures |ops| <= Referenced(ops) + Literals(ops)
  {
    if ops != [] {
      CountIsBounded(ops[..|ops| - 1]);
      assert ValidOp(ops[|ops| - 1]);
    }
  }

  /** Every plan the planner builds for a file is a valid plan. */
  lemma BuiltPlanIsValid(H: Hash, t: GearTable, x: BasisFileIndex, s: seq<byte>)
    requires ValidIndex(x) && |s| < U64
    ensures ValidPlan(PlanOf(H, t, x, s))
  {
    var cfg := FromAverageKib(x.averageKib).value;
    var cs := Chunks(t, cfg, s);
    ChunkLengths(t, cfg, s);
    ChunksConcat(t, cfg, s);
    PlannedIsNormal(H, x, cs);
    KnownAndUnknown(H, x, cs);
    var ops := Planned(H, x, cs);
    forall i | 0 <= i < |ops|
      ensures ValidOp(ops[i])
    {
      assert NonEmpty(ops[i]) && OpInside(ops[i], x.fileBytes);
      LiteralAtMost(ops, i);
    }
  }

  lemma {:induction false} LiteralAtMost(ops: seq<Op>, i: nat)
    requires i < |ops|
    ensures ops[i].Literal? ==> |ops[i].contents| <= Literals(ops)
  {
    if i < |ops| - 1 {
      LiteralAtMost(ops[..|ops| - 1], i);
    }
  }

  // ---------------------------------------------------------------- encoding

  function WireOp(op: Op): (w: seq<byte>)
    ensures |w| == OpWireSize(op) > 0
  {
    match op
    case Basis(offset, length) => [OP_BASIS] + LE(offset, 8) + LE(length, 8)
    case Literal(contents) => [OP_LITERAL] + LE(|contents|, 8) + contents
  }

  function OpWireSize(op: Op): nat {
    match op
    case Basis(_, _) => BASIS_RECORD_BYTES
    case Literal(contents) => LITERAL_HEADER_BYTES + |contents|
  }

  function Records(ops: seq<Op>): seq<seq<byte>> {
    seq(|ops|, i requires 0 <= i < |ops| => WireOp(ops[i]))
  }

  function WireOps(ops: seq<Op>): seq<byte> {
    Concat(Records(ops))
  }

  function PlanHeader(targetBytes: nat, targetDigest: Digest, count: nat): (w: seq<byte>)
    ensures |w| == PLAN_HEADER_BYTES
  {
    PLAN_MAGIC + LE(targetBytes, 8) + targetDigest + LE(count, 8)
  }

  /** The bytes of a plan on the wire. */
  function WirePlan(p: ReconstructionPlan): seq<byte> {
    PlanHeader(p.targetBytes, p.targetDigest, |p.operations|) + WireOps(p.operations)
  }

  lemma WireOpsSnoc(ops: seq<Op>, op: Op)
    ensures WireOps(ops + [op]) == WireOps(ops) + WireOp(op)
  {
    assert Records(ops + [op]) == Records(ops) + [WireOp(op)];
    ConcatSnoc(Records(ops), WireOp(op));
  }

  lemma WireOpsAppend(a: seq<Op>, b: seq<Op>)
    ensures WireOps(a + b) == WireOps(a) + WireOps(b)
  {
    assert Records(a + b) == Records(a) + Records(b);
    ConcatAppend(Records(a), Records(b));
  }

  /** A plan on the wire, byte by byte: magic, target size, digest and number of operations, then the operations;
      integers low byte first. */
  lemma PlanAt(p: ReconstructionPlan)
    ensures var b := WirePlan(p);
      && |b| >= 52 && b[..4] == [0x4E, 0x43, 0x50, 0x31] && b[4..12] == LE(p.targetBytes, 8)
      && b[12..44] == p.targetDigest && b[44..52] == LE(|p.operations|, 8) && b[52..] == WireOps(p.operations)
  {
    var head := PlanHeader(p.targetBytes, p.targetDigest, |p.operations|);
    var b := WirePlan(p);
    assert b[..52] == head;
    assert b[..4] == head[..4] && b[4..12] == head[4..12] && b[12..44] == head[12..44] && b[44..52] == head[44..52];
  }

  /** An operation on the wire: its tag, then offset and length of a range, or length and bytes of a literal. */
  lemma OpsAt(ops: seq<Op>, offset: nat, length: nat, contents: seq<byte>)
    ensures WireOps([]) == []
    ensures WireOps(ops + [Basis(offset, length)]) == WireOps(ops) + ([0] + LE(offset, 8) + LE(length, 8))
    ensures WireOps(ops + [Literal(contents)]) == WireOps(ops) + ([1] + LE(|contents|, 8) + contents)
  {
    WireOpsSnoc(ops, Basis(offset, length));
    WireOpsSnoc(ops, Literal(contents));
  }

  /** `wire_size`: the overflow-checked size of the encoding. */
  method WireSize(ops: seq<Op>) returns (r: Result<nat>)
    ensures r.Ok? <==> PLAN_HEADER_BYTES + |WireOps(ops)| < U64
    ensures r.Ok? ==> r.value == PLAN_HEADER_BYTES + |WireOps(ops)|
  {
    var size := PLAN_HEADER_BYTES;
    for i := 0 to |ops|
      invariant size == PLAN_HEADER_BYTES + |WireOps(ops[..i])| < U64
    {
      assert ops[..i + 1] == ops[..i] + [ops[i]] && ops == ops[..i + 1] + ops[i + 1..];
      WireOpsSnoc(ops[..i], ops[i]);
      if size + OpWireSize(ops[i]) >= U64 {
        WireOpsAppend(ops[..i + 1], ops[i + 1..]);
        return Err(Overflow);
      }
      size := size + OpWireSize(ops[i]);
    }
    assert ops[..|ops|] == ops;
    r := Ok(size);
  }

  /** `encode_wire`: the wire of the plan, of the size announced, unless that size overflows. */
  method EncodePlan(p: ReconstructionPlan) returns (r: Result<seq<byte>>)
    ensures r.Ok? <==> |WirePlan(p)| < U64
    ensures r.Ok? ==> r.value == WirePlan(p)
  {
    var capacity := WireSize(p.operations);
    if capacity.Err? {
      return Err(capacity.error);
    }
    var encoded := PLAN_MAGIC;
    encoded := encoded + LE(p.targetBytes, 8);
    encoded := encoded + p.targetDigest;
    encoded := encoded + LE(|p.operations|, 8);
    ghost var header := encoded;
    for i := 0 to |p.operations|
      invariant encoded == header + WireOps(p.operations[..i])
    {
      var op := p.operations[i];
      encoded := AppendOp(encoded, op);
      assert p.operations[..i + 1] == p.operations[..i] + [op];
      WireOpsSnoc(p.operations[..i], op);
      Associates(header, WireOps(p.operations[..i]), WireOp(op));
    }
    assert p.operations[..|p.operations|] == p.operations;
    assert |encoded| == capacity.value;
    r := Ok(encoded);
  }

  // ---------------------------------------------------------------- decoding one operation

  method AppendOp(before: seq<byte>, op: Op) returns (encoded: seq<byte>)
    ensures encoded == before + WireOp(op)
  {
    encoded := before;
    match op {
      case Basis(offset, length) =>
        encoded := encoded + [OP_BASIS];
        encoded := encoded + LE(offset, 8);
        encoded := encoded + LE(length, 8);
      case Literal(contents) =>
        encoded := encoded + [OP_LITERAL];
        encoded := encoded + LE(|contents|, 8);
        encoded := encoded + contents;
    }
  }

  /** The record of `op` stands at position `at` of `b`. */
  predicate Stands(b: seq<byte>, at: nat, op: Op) {
    at + OpWireSize(op) <= |b| && b[at..at + OpWireSize(op)] == WireOp(op)
  }

  lemma SlicesOfOp(op: Op)
    requires ValidOp(op)
    ensures var w := WireOp(op);
            && w[0] == (if op.Basis? then OP_BASIS else OP_LITERAL)
            && FromLE(w[1..9]) == (if op.Basis? then op.offset else |op.contents|)
            && (op.Basis? ==> FromLE(w[9..17]) == op.length)
            && (op.Literal? ==> w[9..] == op.contents)
  {
    Widths();
    var w := WireOp(op);
    match op
    case Basis(offset, length) =>
      assert w[1..9] == LE(offset, 8) && w[9..17] == LE(length, 8);
      FromLEOfLE(offset, 8);
      FromLEOfLE(length, 8);
    case Literal(contents) =>
      assert w[1..9] == LE(|contents|, 8) && w[9..] == contents;
      FromLEOfLE(|contents|, 8);
  }

  lemma StandsForces(b: seq<byte>, at: nat, op: Op)
    requires ValidOp(op) && Stands(b, at, op)
    ensures at + 9 <= |b| && b[at] == if op.Basis? then OP_BASIS else OP_LITERAL
    ensures FromLE(b[at + 1..at + 9]) == if op.Basis? then op.offset else |op.contents|
    ensures op.Basis? ==> at + 17 <= |b| && FromLE(b[at + 9..at + 17]) == op.length
    ensures op.Literal? ==> at + 9 + |op.contents| <= |b| && b[at + 9..at + 9 + |op.contents|] == op.contents
  {
    SlicesOfOp(op);
    var n := OpWireSize(op);
    SubSlice(b, at, n, 1, 9);
    assert b[at] == b[at..at + n][0];
    match op
    case Basis(_, _) => SubSlice(b, at, n, 9, 17);
    case Literal(contents) => SubSlice(b, at, n, 9, n);
  }

  /** Reading one record at the cursor, with every check the decoder makes on it. */
  function ReadOp(b: seq<byte>, cursor: nat): Option<Op>
    requires cursor <= |b|
  {
    if cursor + 9 > |b| then None
    else
      var first := FromLE(b[cursor + 1..cursor + 9]);
      if b[cursor] == OP_BASIS then
        if cursor + 17 > |b| then None
        else
          var length := FromLE(b[cursor + 9..cursor + 17]);
          if length == 0 || first + length >= U64 then None else Some(Basis(first, length))
      else if b[cursor] == OP_LITERAL then
        if first == 0 || cursor + 9 + first > |b| then None
        else Some(Literal(b[cursor + 9..cursor + 9 + first]))
      else None
  }

  /** The reader finds the operation that stands at the cursor, */
  lemma ReadFindsIt(b: seq<byte>, cursor: nat, op: Op)
    requires cursor <= |b| && ValidOp(op) && Stands(b, cursor, op)
    ensures ReadOp(b, cursor) == Some(op)
  {
    StandsForces(b, cursor, op);
  }

  lemma BasisStands(b: seq<byte>, at: nat)
    requires at + 17 <= |b| && b[at] == OP_BASIS
    ensures b[at..at + 17] == WireOp(Basis(FromLE(b[at + 1..at + 9]), FromLE(b[at + 9..at + 17])))
  {
    LEOfFromLE(b[at + 1..at + 9]);
    LEOfFromLE(b[at + 9..at + 17]);
    SplitSlice(b, at, at + 1, at + 9);
    SplitSlice(b, at, at + 9, at + 17);
  }

  lemma LiteralStands(b: seq<byte>, at: nat, n: nat)
    requires at + 9 + n <= |b| && b[at] == OP_LITERAL && n == FromLE(b[at + 1..at + 9])
    ensures n < U64
    ensures b[at..at + 9 + n] == WireOp(Literal(b[at + 9..at + 9 + n]))
  {
    Widths();
    LEOfFromLE(b[at + 1..at + 9]);
    SplitSlice(b, at, at + 1, at + 9);
    SplitSlice(b, at, at + 9, at + 9 + n);
  }

  /** and what it finds stands there. */
  lemma ReadStands(b: seq<byte>, cursor: nat, op: Op)
    requires cursor <= |b| && ReadOp(b, cursor) == Some(op)
    ensures ValidOp(op) && Stands(b, cursor, op)
  {
    if op.Basis? {
      BasisStands(b, cursor);
    } else {
      LiteralStands(b, cursor, |op.contents|);
    }
  }

  // ---------------------------------------------------------------- decoding a plan

  /** No valid plan has the wire `b`. */
  ghost predicate NotAPlan(b: seq<byte>) {
    forall p: ReconstructionPlan | ValidPlan(p) :: WirePlan(p) != b
  }

  lemma HeaderOfPlan(p: ReconstructionPlan)
    requires ValidPlan(p)
    ensures var b := WirePlan(p);
            && |b| >= PLAN_HEADER_BYTES && b[..4] == PLAN_MAGIC && FromLE(b[4..12]) == p.targetBytes
            && b[12..44] == p.targetDigest && FromLE(b[44..52]) == |p.operations|
            && b[52..] == WireOps(p.operations)
  {
    Widths();
    var b := WirePlan(p);
    CountIsBounded(p.operations);
    assert b[..4] == PLAN_MAGIC && b[4..12] == LE(p.targetBytes, 8) && b[12..44] == p.targetDigest;
    assert b[44..52] == LE(|p.operations|, 8);
    FromLEOfLE(p.targetBytes, 8);
    FromLEOfLE(|p.operations|, 8);
  }

  /** Every valid plan with wire `b` starts with `ops` and has `count` operations. */
  ghost predicate Forced(b: seq<byte>, count: nat, ops: seq<Op>) {
    forall p: ReconstructionPlan | ValidPlan(p) && WirePlan(p) == b ::
      |p.operations| == count && ops <= p.operations
  }

  lemma SliceOfOps(ops: seq<Op>, i: nat)
    requires i < |ops|
    ensures Stands(WireOps(ops), |WireOps(ops[..i])|, ops[i])
  {
    assert Records(ops)[..i] == Records(ops[..i]);
    SliceOfConcat(Records(ops), i);
  }

  lemma StandsAfter(h: seq<byte>, b: seq<byte>, at: nat, op: Op)
    requires Stands(b, at, op)
    ensures Stands(h + b, |h| + at, op)
  {
    assert (h + b)[|h| + at..|h| + at + OpWireSize(op)] == b[at..at + OpWireSize(op)];
  }

  /** After its first operations, a plan's next operation stands at the cursor. */
  lemma NextStands(p: ReconstructionPlan, ops: seq<Op>)
    requires ops < p.operations
    ensures Stands(WirePlan(p), PLAN_HEADER_BYTES + |WireOps(ops)|, p.operations[|ops|])
  {
    assert ops == p.operations[..|ops|];
    SliceOfOps(p.operations, |ops|);
    StandsAfter(PlanHeader(p.targetBytes, p.targetDigest, |p.operations|), WireOps(p.operations), |WireOps(ops)|,
                p.operations[|ops|]);
  }

  lemma NextIsRead(p: ReconstructionPlan, ops: seq<Op>)
    requires ValidPlan(p) && ops < p.operations
    ensures PLAN_HEADER_BYTES + |WireOps(ops)| <= |WirePlan(p)|
    ensures ReadOp(WirePlan(p), PLAN_HEADER_BYTES + |WireOps(ops)|) == Some(p.operations[|ops|])
  {
    NextStands(p, ops);
    ReadFindsIt(WirePlan(p), PLAN_HEADER_BYTES + |WireOps(ops)|, p.operations[|ops|]);
  }

  lemma ForcedOp(p: ReconstructionPlan, ops: seq<Op>, op: Op)
    requires ValidPlan(p) && ops < p.operations && PLAN_HEADER_BYTES + |WireOps(ops)| <= |WirePlan(p)|
    requires ReadOp(WirePlan(p), PLAN_HEADER_BYTES + |WireOps(ops)|) == Some(op)
    ensures ops + [op] <= p.operations
  {
    NextIsRead(p, ops);
  }

  lemma ForcedNext(b: seq<byte>, count: nat, ops: seq<Op>, op: Op)
    requires Forced(b, count, ops) && |ops| < count && PLAN_HEADER_BYTES + |WireOps(ops)| <= |b|
    requires ReadOp(b, PLAN_HEADER_BYTES + |WireOps(ops)|) == Some(op)
    ensures Forced(b, count, ops + [op])
  {
    forall p: ReconstructionPlan | ValidPlan(p) && WirePlan(p) == b
      ensures |p.operations| == count && ops + [op] <= p.operations
    {
      ForcedOp(p, ops, op);
    }
  }

  lemma NothingStands(b: seq<byte>, count: nat, ops: seq<Op>)
    requires Forced(b, count, ops) && |ops| < count && PLAN_HEADER_BYTES + |WireOps(ops)| <= |b|
    requires ReadOp(b, PLAN_HEADER_BYTES + |WireOps(ops)|).None?
    ensures NotAPlan(b)
  {
    forall p: ReconstructionPlan | ValidPlan(p)
      ensures WirePlan(p) != b
    {
      if WirePlan(p) == b {
        NextIsRead(p, ops);
      }
    }
  }

  lemma ForcedTotals(p: ReconstructionPlan, ops: seq<Op>)
    requires ValidPlan(p) && ops <= p.operations
    ensures Referenced(ops) + Literals(ops) <= p.targetBytes
  {
    assert p.operations == ops + p.operations[|ops|..];
    TotalsAppend(ops, p.operations[|ops|..]);
  }

  lemma TotalsRejected(b: seq<byte>, count: nat, ops: seq<Op>)
    requires Forced(b, count, ops) && Referenced(ops) + Literals(ops) >= U64
    ensures NotAPlan(b)
  {
    forall p: ReconstructionPlan | ValidPlan(p)
      ensures WirePlan(p) != b
    {
      if WirePlan(p) == b {
        ForcedTotals(p, ops);
      }
    }
  }

  lemma DecodeStep(b: seq<byte>, count: nat, ops: seq<Op>, cursor: nat, op: Op)
    requires Forced(b, count, ops) && |ops| < count
    requires PLAN_HEADER_BYTES <= cursor <= |b| && b[PLAN_HEADER_BYTES..cursor] == WireOps(ops)
    requires ReadOp(b, cursor) == Some(op)
    ensures Forced(b, count, ops + [op]) && ValidOp(op)
    ensures cursor + OpWireSize(op) <= |b| && b[PLAN_HEADER_BYTES..cursor + OpWireSize(op)] == WireOps(ops + [op])
  {
    ReadStands(b, cursor, op);
    ForcedNext(b, count, ops, op);
    WireOpsSnoc(ops, op);
    SplitSlice(b, PLAN_HEADER_BYTES, cursor, cursor + OpWireSize(op));
  }

  /** The operation loop of `decode_wire`. */
  method DecodeOps(b: seq<byte>, count: nat)
    returns (ok: bool, ops: seq<Op>, referencedBytes: nat, literalBytes: nat, cursor: nat)
    requires |b| >= PLAN_HEADER_BYTES && Forced(b, count, [])
    ensures !ok ==> NotAPlan(b)
    ensures ok ==> ValidOps(ops) && |ops| == count && Forced(b, count, ops)
    ensures ok ==> referencedBytes == Referenced(ops) && literalBytes == Literals(ops)
    ensures ok ==> PLAN_HEADER_BYTES <= cursor <= |b| && b[PLAN_HEADER_BYTES..cursor] == WireOps(ops)
  {
    ops, referencedBytes, literalBytes, cursor := [], 0, 0, PLAN_HEADER_BYTES;
    for i := 0 to count
      invariant ValidOps(ops) && |ops| == i && Forced(b, count, ops)
      invariant referencedBytes == Referenced(ops) && literalBytes == Literals(ops)
      invariant PLAN_HEADER_BYTES <= cursor <= |b| && b[PLAN_HEADER_BYTES..cursor] == WireOps(ops)
    {
      var decoded := ReadOp(b, cursor);
      if decoded.None? {
        NothingStands(b, count, ops);
        ok := false;
        return;
      }
      var op := decoded.value;
      DecodeStep(b, count, ops, cursor, op);
      SnocTotals(ops, op);
      match op {
        case Basis(_, length) =>
          if referencedBytes + length >= U64 {
            TotalsRejected(b, count, ops + [op]);
            ok := false;
            return;
          }
          referencedBytes := referencedBytes + length;
        case Literal(contents) =>
          if literalBytes + |contents| >= U64 {
            TotalsRejected(b, count, ops + [op]);
            ok := false;
            return;
          }
          literalBytes := literalBytes + |contents|;
      }
      ops := ops + [op];
      cursor := cursor + OpWireSize(op);
    }
    ok := true;
  }

  lemma HeaderRejects(b: seq<byte>)
    requires |b| < PLAN_HEADER_BYTES || b[..4] != PLAN_MAGIC
    ensures NotAPlan(b)
  {
    forall p: ReconstructionPlan | ValidPlan(p)
      ensures WirePlan(p) != b
    {
      HeaderOfPlan(p);
    }
  }

  lemma StartForced(b: seq<byte>)
    requires |b| >= PLAN_HEADER_BYTES
    ensures Forced(b, FromLE(b[44..52]), [])
  {
    forall p: ReconstructionPlan | ValidPlan(p) && WirePlan(p) == b
      ensures |p.operations| == FromLE(b[44..52])
    {
      HeaderOfPlan(p);
    }
  }

  lemma EndForced(b: seq<byte>, ops: seq<Op>, p: ReconstructionPlan)
    requires Forced(b, |ops|, ops) && ValidPlan(p) && WirePlan(p) == b
    ensures p.operations == ops && |b| == PLAN_HEADER_BYTES + |WireOps(ops)|
    ensures FromLE(b[4..12]) == Referenced(ops) + Literals(ops)
  {
    HeaderOfPlan(p);
    assert ops <= p.operations && |p.operations| == |ops|;
  }

  lemma EndRejected(b: seq<byte>, ops: seq<Op>)
    requires |b| >= PLAN_HEADER_BYTES && Forced(b, |ops|, ops)
    requires |b| != PLAN_HEADER_BYTES + |WireOps(ops)| || FromLE(b[4..12]) != Referenced(ops) + Literals(ops)
    ensures NotAPlan(b)
  {
    forall p: ReconstructionPlan | ValidPlan(p)
      ensures WirePlan(p) != b
    {
      if WirePlan(p) == b {
        EndForced(b, ops, p);
      }
    }
  }

  lemma PlanRoundTrip(b: seq<byte>, p: ReconstructionPlan)
    requires |b| >= PLAN_HEADER_BYTES && b[..4] == PLAN_MAGIC && b[52..] == WireOps(p.operations)
    requires p.targetBytes == FromLE(b[4..12]) && p.targetDigest == b[12..44] && |p.operations| == FromLE(b[44..52])
    ensures WirePlan(p) == b
  {
    PlanHeaderRoundTrip(b);
    assert b == b[..52] + b[52..];
  }

  lemma PlanHeaderRoundTrip(b: seq<byte>)
    requires |b| >= PLAN_HEADER_BYTES && b[..4] == PLAN_MAGIC
    ensures PlanHeader(FromLE(b[4..12]), b[12..44], FromLE(b[44..52])) == b[..52]
  {
    LEOfFromLE(b[4..12]);
    LEOfFromLE(b[44..52]);
    assert b[..52] == b[..4] + b[4..12] + b[12..44] + b[44..52];
  }

  /** `decode_wire` inverts `encode_wire` exactly: it accepts a byte string if and only if it is the
      wire of a valid plan, and then returns that plan with its byte totals. */
  method DecodePlan(b: seq<byte>) returns (r: Result<ReconstructionPlan>)
    ensures r.Ok? ==> ValidPlan(r.value) && WirePlan(r.value) == b && r.value.candidateChunks == 0
    ensures r.Err? ==> NotAPlan(b) && r.error == InvalidData
  {
    if |b| < PLAN_HEADER_BYTES || b[..4] != PLAN_MAGIC {
      HeaderRejects(b);
      return Err(InvalidData);
    }
    var targetBytes := FromLE(b[4..12]);
    var targetDigest := b[12..44];
    var count := FromLE(b[44..52]);
    StartForced(b);
    var ok, ops, referencedBytes, literalBytes, cursor := DecodeOps(b, count);
    if !ok {
      return Err(InvalidData);
    }
    if cursor != |b| || referencedBytes + literalBytes >= U64 || referencedBytes + literalBytes != targetBytes {
      Widths();
      EndRejected(b, ops);
      return Err(InvalidData);
    }
    var plan := ReconstructionPlan(targetBytes, targetDigest, ops, 0, referencedBytes, literalBytes);
    PlanRoundTrip(b, plan);
    r := Ok(plan);
  }

  /** A wire stands for at most one plan; only the sender's chunk count is not on the wire. */
  lemma WirePlanIsInjective(p: ReconstructionPlan, q: ReconstructionPlan)
    requires ValidPlan(p) && ValidPlan(q) && WirePlan(p) == WirePlan(q)
    ensures p.(candidateChunks := 0) == q.(candidateChunks := 0)
  {
    HeaderOfPlan(p);
    HeaderOfPlan(q);
    SameOps(p, q, |p.operations|);
    assert p.operations == p.operations[..|p.operations|] == q.operations;
  }

  lemma {:induction false} SameOps(p: ReconstructionPlan, q: ReconstructionPlan, i: nat)
    requires ValidPlan(p) && ValidPlan(q) && WirePlan(p) == WirePlan(q) && |p.operations| == |q.operations|
    requires i <= |p.operations|
    ensures p.operations[..i] == q.operations[..i]
  {
    if i > 0 {
      SameOps(p, q, i - 1);
      var ops := p.operations[..i - 1];
      NextIsRead(p, ops);
      NextIsRead(q, ops);
      assert p.operations[i - 1] == q.operations[i - 1];
      assert p.operations[..i] == ops + [p.operations[i - 1]] && q.operations[..i] == ops + [q.operations[i - 1]];
    }
  }

  // ---------------------------------------------------------------- size of a built plan

  lemma {:induction false} OpsWireSize(ops: seq<Op>)
    ensures |WireOps(ops)| <= 17 * |ops| + Literals(ops)
  {
    if ops != [] {
      var n := |ops| - 1;
      OpsWireSize(ops[..n]);
      assert ops == ops[..n] + [ops[n]];
      WireOpsSnoc(ops[..n], ops[n]);
    }
  }

  lemma {:induction false} PlannedCount(H: Hash, x: BasisFileIndex, cs: seq<seq<byte>>)
    ensures |Planned(H, x, cs)| <= |cs|
  {
    if cs != [] {
      PlannedCount(H, x, cs[..|cs| - 1]);
    }
  }

  lemma MulMonotone(n: nat, a: nat, b: nat)
    requires a <= b
    ensures n * a <= n * b
  {
  }

  lemma CountFits(t: GearTable, cfg: ChunkConfig, s: seq<byte>)
    requires ValidConfig(cfg)
    ensures 2048 * |Chunks(t, cfg, s)| <= |s| + 2048
  {
    if s != [] {
      ChunkCount(t, cfg, s);
      MulMonotone(|Chunks(t, cfg, s)| - 1, 2048, cfg.minimumBytes);
    } else {
      assert Cut(t, cfg, s) == 0;
    }
  }

  /** The plan of a file below 2^63 bytes, the longest a Windows file can be, always encodes. */
  lemma BuiltPlanFits(H: Hash, t: GearTable, x: BasisFileIndex, s: seq<byte>)
    requires ValidIndex(x) && |s| < 0x8000_0000_0000_0000
    ensures |WirePlan(PlanOf(H, t, x, s))| < U64
  {
    var cfg := FromAverageKib(x.averageKib).value;
    var cs := Chunks(t, cfg, s);
    assert Literals(Planned(H, x, cs)) <= |s| by {
      BuiltPlanIsValid(H, t, x, s);
    }
    PlannedCount(H, x, cs);
    OpsWireSize(Planned(H, x, cs));
    CountFits(t, cfg, s);
  }
}
