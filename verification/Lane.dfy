/** The two-party negotiation that decides, file by file, between content-defined reuse and an ordinary
    transfer (src/cdc_lane.rs). */
module Lane {

  import opened Bytes
  import opened Chunker
  import opened BasisIndex
  import opened Plan
  import opened PlanWire
  import opened Reconstruction
  import opened LaneWire
  import Manifest

  const MINIMUM_FILE_BYTES: nat := 1024 * 1024
  const MAXIMUM_LITERAL_BYTES: nat := 16 * 1024 * 1024

  datatype Entry = Entry(fileSize: nat, lastWriteTime: nat, class_: Manifest.FileClass)

  // ---------------------------------------------------------------- statistics

  /** The counters of the lane, in three groups: files, bytes of the files, and bytes on the wire. */
  datatype Stats = Stats(files: FileCounts, bytes: ByteCounts, wire: WireCounts)

  datatype FileCounts = FileCounts(offered: nat, completed: nat, fallback: nat)

  datatype ByteCounts = ByteCounts(logical: nat, reused: nat, literal: nat)

  datatype WireCounts = WireCounts(index: nat, plan: nat)

  const ZERO: Stats := Stats(FileCounts(0, 0, 0), ByteCounts(0, 0, 0), WireCounts(0, 0))

  /** Every offer was completed or fell back, and every logical byte was reused or sent. */
  predicate Balanced(s: Stats) {
    && s.files.offered == s.files.completed + s.files.fallback
    && s.bytes.logical == s.bytes.reused + s.bytes.literal
  }

  function Sum(a: Stats, b: Stats): Stats {
    Stats(FileCounts(a.files.offered + b.files.offered, a.files.completed + b.files.completed,
                     a.files.fallback + b.files.fallback),
          ByteCounts(a.bytes.logical + b.bytes.logical, a.bytes.reused + b.bytes.reused,
                     a.bytes.literal + b.bytes.literal),
          WireCounts(a.wire.index + b.wire.index, a.wire.plan + b.wire.plan))
  }

  predicate Fits(s: Stats) {
    && s.files.offered < U64 && s.files.completed < U64 && s.files.fallback < U64
    && s.bytes.logical < U64 && s.bytes.reused < U64 && s.bytes.literal < U64
    && s.wire.index < U64 && s.wire.plan < U64
  }

  /** Counter `i` in the order they are merged. */
  function Counter(s: Stats, i: nat): nat
    requires i < 8
  {
    if i == 0 then s.files.offered else if i == 1 then s.files.completed else if i == 2 then s.files.fallback
    else if i == 3 then s.bytes.logical else if i == 4 then s.bytes.reused else if i == 5 then s.bytes.literal
    else if i == 6 then s.wire.index else s.wire.plan
  }

  /** `a` with the first `k` counters of `b` added, and no others. */
  function MergedTo(a: Stats, b: Stats, k: nat): Stats {
    Stats(FileCounts(a.files.offered + (if k > 0 then b.files.offered else 0),
                     a.files.completed + (if k > 1 then b.files.completed else 0),
                     a.files.fallback + (if k > 2 then b.files.fallback else 0)),
          ByteCounts(a.bytes.logical + (if k > 3 then b.bytes.logical else 0),
                     a.bytes.reused + (if k > 4 then b.bytes.reused else 0),
                     a.bytes.literal + (if k > 5 then b.bytes.literal else 0)),
          WireCounts(a.wire.index + (if k > 6 then b.wire.index else 0),
                     a.wire.plan + (if k > 7 then b.wire.plan else 0)))
  }

  class LaneTotals {
    var stats: Stats

    constructor ()
      ensures stats == ZERO
    {
      stats := ZERO;
    }

    /** `merge` stops at the first counter that would overflow and leaves the earlier ones, the first `k`,
        merged. Balanced totals stay balanced all the same, whether or not the merge succeeds: a counter
        that fits carries along the two it is the sum of. */
    method Merge(other: Stats) returns (r: Result<()>, ghost k: nat)
      requires Fits(stats) && Fits(other)
      modifies this
      ensures Fits(stats) && k <= 8 && stats == MergedTo(old(stats), other, k)
      ensures k < 8 ==> Counter(old(stats), k) + Counter(other, k) >= U64
      ensures r.Ok? <==> k == 8
      ensures r.Ok? <==> Fits(Sum(old(stats), other))
      ensures r.Ok? ==> stats == Sum(old(stats), other)
      ensures r.Ok? ==>
        && stats.files.offered == old(stats).files.offered + other.files.offered
        && stats.files.completed == old(stats).files.completed + other.files.completed
        && stats.files.fallback == old(stats).files.fallback + other.files.fallback
        && stats.bytes.logical == old(stats).bytes.logical + other.bytes.logical
        && stats.bytes.reused == old(stats).bytes.reused + other.bytes.reused
        && stats.bytes.literal == old(stats).bytes.literal + other.bytes.literal
        && stats.wire.index == old(stats).wire.index + other.wire.index
        && stats.wire.plan == old(stats).wire.plan + other.wire.plan
      ensures r.Err? ==> r.error == Overflow
      ensures Balanced(old(stats)) && Balanced(other) ==>
        && Balanced(stats) && stats.files.offered == stats.files.completed + stats.files.fallback
        && stats.bytes.logical == stats.bytes.reused + stats.bytes.literal
    {
      if stats.files.offered + other.files.offered >= U64 {
        return Err(Overflow), 0;
      }
      stats := stats.(files := stats.files.(offered := stats.files.offered + other.files.offered));
      if stats.files.completed + other.files.completed >= U64 {
        return Err(Overflow), 1;
      }
      stats := stats.(files := stats.files.(completed := stats.files.completed + other.files.completed));
      if stats.files.fallback + other.files.fallback >= U64 {
        return Err(Overflow), 2;
      }
      stats := stats.(files := stats.files.(fallback := stats.files.fallback + other.files.fallback));
      if stats.bytes.logical + other.bytes.logical >= U64 {
        return Err(Overflow), 3;
      }
      stats := stats.(bytes := stats.bytes.(logical := stats.bytes.logical + other.bytes.logical));
      if stats.bytes.reused + other.bytes.reused >= U64 {
        return Err(Overflow), 4;
      }
      stats := stats.(bytes := stats.bytes.(reused := stats.bytes.reused + other.bytes.reused));
      if stats.bytes.literal + other.bytes.literal >= U64 {
        return Err(Overflow), 5;
      }
      stats := stats.(bytes := stats.bytes.(literal := stats.bytes.literal + other.bytes.literal));
      if stats.wire.index + other.wire.index >= U64 {
        return Err(Overflow), 6;
      }
      stats := stats.(wire := stats.wire.(index := stats.wire.index + other.wire.index));
      if stats.wire.plan + other.wire.plan >= U64 {
        return Err(Overflow), 7;
      }
      stats := stats.(wire := stats.wire.(plan := stats.wire.plan + other.wire.plan));
      r, k := Ok(()), 8;
    }
  }

  datatype Decision = Decision(completed: bool, stats: Stats)

  function FellBack(indexWireBytes: nat): Decision {
    Decision(false, Stats(FileCounts(1, 0, 1), ByteCounts(0, 0, 0), WireCounts(indexWireBytes, 0)))
  }

  function Completed(indexWireBytes: nat, planWireBytes: nat, p: ReconstructionPlan): Decision {
    Decision(true, Stats(FileCounts(1, 1, 0), ByteCounts(p.targetBytes, p.referencedBytes, p.literalBytes),
                         WireCounts(indexWireBytes, planWireBytes)))
  }

  // ---------------------------------------------------------------- the sender

  /** The file the sender offers, as its metadata shows it. */
  datatype SourceFile = SourceFile(regular: bool, contents: seq<byte>, lastWriteTime: nat)

  /** `validate_source` accepts the file. */
  predicate ValidSource(source: SourceFile, entry: Entry) {
    source.regular && |source.contents| == entry.fileSize && source.lastWriteTime == entry.lastWriteTime
  }

  /** A plan is worth sending: few literals, a bounded wire, and index and plan together cost less
      than the file. */
  predicate WorthSending(x: BasisFileIndex, p: ReconstructionPlan) {
    && p.literalBytes <= MAXIMUM_LITERAL_BYTES
    && |WirePlan(p)| <= MAXIMUM_PLAN_WIRE_BYTES
    && |Wire(x)| + |WirePlan(p)| < p.targetBytes
  }

  function Reply(id: nat, x: BasisFileIndex, p: ReconstructionPlan): seq<byte> {
    if WorthSending(x, p) then PlanMessage(id, WirePlan(p)) else Fallback(id)
  }

  function Verdict(x: BasisFileIndex, p: ReconstructionPlan): Decision {
    if WorthSending(x, p) then Completed(|Wire(x)|, |WirePlan(p)|, p) else FellBack(|Wire(x)|)
  }

  /** The decision both sides take on the offer `x` and the sender's plan `p` against it. */
  function Outcome(x: Option<BasisFileIndex>, p: ReconstructionPlan): Decision {
    if x.Some? then Verdict(x.value, p) else Decision(false, ZERO)
  }

  lemma BoundedPlanFits(H: Hash, t: GearTable, x: BasisFileIndex, s: seq<byte>)
    requires ValidIndex(x) && |s| < U64 && PlanOf(H, t, x, s).literalBytes <= MAXIMUM_LITERAL_BYTES
    ensures |WirePlan(PlanOf(H, t, x, s))| < U64
  {
    var cfg := FromAverageKib(x.averageKib).value;
    var cs := Chunks(t, cfg, s);
    BuiltPlanIsValid(H, t, x, s);
    PlannedCount(H, x, cs);
    OpsWireSize(Planned(H, x, cs));
    CountFits(t, cfg, s);
  }

  method SendFallback(link: Link, id: nat, indexWireBytes: nat) returns (r: Result<Decision>)
    modifies link`outgoing
    ensures link.outgoing == old(link.outgoing) + Fallback(id) && r == Ok(FellBack(indexWireBytes))
  {
    link.WriteHead(MESSAGE_CDC_FALLBACK, id);
    r := Ok(FellBack(indexWireBytes));
  }

  method SendPlan(link: Link, id: nat, planWire: seq<byte>)
    modifies link`outgoing
    ensures link.outgoing == old(link.outgoing) + PlanMessage(id, planWire)
  {
    link.WriteHead(MESSAGE_CDC_PLAN, id);
    link.WritePayload(planWire);
  }

  /** The sender's answer to a valid index: a plan when it is worth sending, else a fallback. */
  method AnswerIndex(H: Hash, t: GearTable, link: Link, source: SourceFile, script: seq<Read>, id: nat, entry: Entry,
                     x: BasisFileIndex)
    returns (r: Result<Decision>)
    requires id < U64 && ValidIndex(x) && |Delivered(script)| < U64
    modifies link`outgoing
    ensures r.Err? ==> link.outgoing == old(link.outgoing)
    ensures !ValidSource(source, entry) ==> r == Err(InvalidData)
    ensures r.Ok? ==> Balanced(r.value.stats)
    ensures ValidSource(source, entry) && Reads(script, source.contents) ==>
      var p := PlanOf(H, t, x, source.contents);
      r == Ok(Verdict(x, p)) && link.outgoing == old(link.outgoing) + Reply(id, x, p)
  {
    var indexWireBytes := |Wire(x)|;
    if !ValidSource(source, entry) {
      return Err(InvalidData);
    }
    var built := BuildBounded(H, t, script, |source.contents|, x, MAXIMUM_LITERAL_BYTES);
    ghost var p := PlanOf(H, t, x, Delivered(script));
    assert p.targetBytes == |Delivered(script)|;
    if built == Err(LiteralLimitExceeded) {
      r := SendFallback(link, id, indexWireBytes);
      return;
    }
    if built.Err? {
      return Err(built.error);
    }
    var plan := built.value;
    BoundedPlanFits(H, t, x, Delivered(script));
    BuiltPlanIsValid(H, t, x, Delivered(script));
    var encoded := EncodePlan(plan);
    var planWire := encoded.value;
    if |planWire| > MAXIMUM_PLAN_WIRE_BYTES || indexWireBytes + |planWire| >= entry.fileSize {
      r := SendFallback(link, id, indexWireBytes);
      return;
    }
    SendPlan(link, id, planWire);
    r := Ok(Completed(indexWireBytes, |planWire|, plan));
  }

  /** A message the sender takes for an offer of the index `x`. */
  predicate OffersIndex(incoming: seq<byte>, id: nat, x: BasisFileIndex) {
    ValidOffer(x) && |Wire(x)| <= MAXIMUM_INDEX_WIRE_BYTES && IndexMessage(id, Wire(x)) <= incoming
  }

  /** An index the sender accepts. */
  predicate ValidOffer(x: BasisFileIndex) {
    ValidIndex(x) && x.averageKib == DEFAULT_AVERAGE_KIB
  }

  /** The index branch: whatever the bytes are, only the wire of a valid index of the default average, the ghost
      result `y`, is answered. The ghost `x` is any such index: if the bytes are its wire, the answer is the
      one for it. */
  method AnswerOffer(H: Hash, t: GearTable, link: Link, source: SourceFile, script: seq<Read>, id: nat, entry: Entry,
                     indexWire: seq<byte>, ghost x: BasisFileIndex)
    returns (r: Result<Decision>, ghost y: BasisFileIndex)
    requires id < U64 && |Delivered(script)| < U64
    modifies link`outgoing
    ensures r.Err? ==> link.outgoing == old(link.outgoing)
    ensures r.Ok? ==> Balanced(r.value.stats) && ValidOffer(y) && Wire(y) == indexWire
    ensures ValidSource(source, entry) && Reads(script, source.contents) && ValidOffer(x) && Wire(x) == indexWire ==>
      && y == x && r == Ok(Verdict(x, PlanOf(H, t, x, source.contents)))
      && link.outgoing == old(link.outgoing) + Reply(id, x, PlanOf(H, t, x, source.contents))
  {
    y := x;
    var decoded := DecodeWire(indexWire);
    if decoded.Err? {
      return Err(decoded.error), y;
    }
    y := decoded.value;
    if ValidOffer(x) && Wire(x) == indexWire {
      WireIsInjective(x, y);
    }
    if decoded.value.averageKib != DEFAULT_AVERAGE_KIB {
      return Err(InvalidData), y;
    }
    r := AnswerIndex(H, t, link, source, script, id, entry, decoded.value);
  }

  /** `sender_negotiate`. It answers only an offer of nothing or of a valid index, the ghost result `y`;
      everything else is an error and writes nothing. The ghost `x` is any index: if that is what the stream
      offers, the answer is the one for it. */
  method SenderNegotiate(H: Hash, t: GearTable, link: Link, source: SourceFile, script: seq<Read>, id: nat,
                         entry: Entry, ghost x: BasisFileIndex)
    returns (r: Result<Decision>, ghost y: Option<BasisFileIndex>)
    requires id < U64 && |Delivered(script)| < U64
    modifies link
    ensures r.Err? ==> link.outgoing == old(link.outgoing)
    ensures Unavailable(id) <= old(link.incoming) ==>
      && r == Ok(Decision(false, ZERO)) && link.outgoing == old(link.outgoing)
      && After(old(link.incoming), Unavailable(id), link.incoming)
    ensures ValidSource(source, entry) && Reads(script, source.contents) && OffersIndex(old(link.incoming), id, x) ==>
      && r == Ok(Verdict(x, PlanOf(H, t, x, source.contents)))
      && link.outgoing == old(link.outgoing) + Reply(id, x, PlanOf(H, t, x, source.contents))
      && After(old(link.incoming), IndexMessage(id, Wire(x)), link.incoming)
    ensures r.Ok? ==> Balanced(r.value.stats)
    ensures r.Ok? && y.Some? ==>
      ValidOffer(y.value) && After(old(link.incoming), IndexMessage(id, Wire(y.value)), link.incoming)
    ensures r.Ok? && y.None? ==>
      && r.value == Decision(false, ZERO) && link.outgoing == old(link.outgoing)
      && After(old(link.incoming), Unavailable(id), link.incoming)
  {
    y := None;
    var offer := link.ReadOffer(id, Wire(x));
    if offer.Err? {
      return Err(offer.error), y;
    }
    if offer.value.None? {
      return Ok(Decision(false, ZERO)), y;
    }
    ghost var z;
    r, z := AnswerOffer(H, t, link, source, script, id, entry, offer.value.value, x);
    y := Some(z);
  }

  // ---------------------------------------------------------------- the receiver

  type Files = map<Path, seq<byte>>

  /** The receiver's old file as it could be indexed: present, regular, nonempty and read in full. */
  function Indexable(files: Files, path: Path, regular: bool, script: seq<Read>): Option<seq<byte>> {
    if path in files && regular && |files[path]| > 0 && !ReadFails(script) && |Delivered(script)| == |files[path]|
    then Some(Delivered(script)) else None
  }

  function DefaultIndex(H: Hash, t: GearTable, basis: seq<byte>): BasisFileIndex {
    DefaultIsLegal();
    IndexOf(H, t, DEFAULT_AVERAGE_KIB, basis)
  }

  /** The receiver offers an index for this file. */
  predicate Offers(H: Hash, t: GearTable, entry: Entry, enabled: bool, basis: Option<seq<byte>>) {
    && enabled && !entry.class_.Tiny? && entry.fileSize >= MINIMUM_FILE_BYTES && basis.Some?
    && |Wire(DefaultIndex(H, t, basis.value))| <= MAXIMUM_INDEX_WIRE_BYTES
  }

  /** The index the receiver offers, if any. */
  function OfferedIndex(H: Hash, t: GearTable, entry: Entry, enabled: bool, basis: Option<seq<byte>>)
    : Option<BasisFileIndex>
  {
    if Offers(H, t, entry, enabled, basis) then Some(DefaultIndex(H, t, basis.value)) else None
  }

  function Offer(id: nat, x: Option<BasisFileIndex>): seq<byte> {
    if x.Some? then IndexMessage(id, Wire(x.value)) else Unavailable(id)
  }

  method SendUnavailable(link: Link, id: nat)
    modifies link`outgoing
    ensures link.outgoing == old(link.outgoing) + Unavailable(id)
  {
    link.WriteHead(MESSAGE_CDC_UNAVAILABLE, id);
  }

  method SendIndex(link: Link, id: nat, indexWire: seq<byte>)
    modifies link`outgoing
    ensures link.outgoing == old(link.outgoing) + IndexMessage(id, indexWire)
  {
    link.WriteHead(MESSAGE_CDC_INDEX, id);
    link.WritePayload(indexWire);
  }

  /** A plan that passes every check of the receiver. */
  predicate Acceptable(x: BasisFileIndex, entry: Entry, p: ReconstructionPlan) {
    ValidPlan(p) && WorthSending(x, p) && p.targetBytes == entry.fileSize
  }

  /** The receiver replaced its file by what the plan `p` means, checked against the plan's length and
      digest. */
  ghost predicate Applied(H: Hash, before: Files, after: Files, path: Path, p: ReconstructionPlan)
    requires path in before
  {
    Replays(H, before[path], p) && after == before[path := Output(before[path], p.operations)]
  }

  /** What one negotiation may do to the receiver's files: nothing, or replace the one file by what the
      acceptable plan `q` means. */
  ghost predicate OnlyApplies(H: Hash, before: Files, after: Files, path: Path, x: BasisFileIndex, entry: Entry,
                              q: ReconstructionPlan)
  {
    after == before || (path in before && Acceptable(x, entry, q) && Applied(H, before, after, path, q))
  }

  /** What a receiver that offered `x` may report: a fallback that was read and changed nothing, or the
      completion of the plan `q` that was read. */
  ghost predicate Reported(H: Hash, before: Files, after: Files, path: Path, x: BasisFileIndex, entry: Entry, id: nat,
                           stream: seq<byte>, rest: seq<byte>, d: Decision, q: ReconstructionPlan)
  {
    if d.completed then
      && path in before && Acceptable(x, entry, q) && Applied(H, before, after, path, q)
      && d == Completed(|Wire(x)|, |WirePlan(q)|, q) && After(stream, PlanMessage(id, WirePlan(q)), rest)
    else
      after == before && d == FellBack(|Wire(x)|) && After(stream, Fallback(id), rest)
  }

  /** Whatever is reported is balanced, and completion costs less than the file. */
  lemma ReportedIsBalanced(H: Hash, before: Files, after: Files, path: Path, x: BasisFileIndex, entry: Entry, id: nat,
                           stream: seq<byte>, rest: seq<byte>, d: Decision, q: ReconstructionPlan)
    requires Reported(H, before, after, path, x, entry, id, stream, rest, d, q)
    ensures Balanced(d.stats)
    ensures d.completed ==> d.stats.wire.index + d.stats.wire.plan < entry.fileSize
    ensures d.completed ==> path in after && |after[path]| == entry.fileSize && H(after[path]) == q.targetDigest
  {
  }

  /** The receiver after it sent its offer of the index `x`. Whatever the stream carries, the ghost result `q`
      is the only plan it may have applied. The ghost `p` is any plan: if that is what the stream carries and
      it is acceptable, the receiver applies it. */
  method ReceiverOnResponse(H: Hash, link: Link, fs: FileSystem, path: Path, suffix: string, id: nat, entry: Entry,
                            x: BasisFileIndex, ghost p: ReconstructionPlan)
    returns (r: Result<Decision>, ghost q: ReconstructionPlan)
    requires id < U64 && suffix != "" && ValidIndex(x)
    requires path in fs.files && |fs.files[path]| == x.fileBytes
    modifies link`incoming, fs
    ensures OnlyApplies(H, old(fs.files), fs.files, path, x, entry, q)
    ensures r.Err? && r.error != Fault ==> fs.files == old(fs.files)
    ensures r == Err(Fault) ==> Obstructed(fs, old(fs.files), path, suffix)
    ensures r.Ok? ==>
      Reported(H, old(fs.files), fs.files, path, x, entry, id, old(link.incoming), link.incoming, r.value, q)
    ensures Fallback(id) <= old(link.incoming) ==> r == Ok(FellBack(|Wire(x)|))
    ensures Acceptable(x, entry, p) && PlanMessage(id, WirePlan(p)) <= old(link.incoming) ==>
      && (r.Ok? ==> r.value.completed && SamePlan(p, q))
      && (r.Err? && r.error != Fault ==> !Replays(H, old(fs.files)[path], p))
  {
    q := p;
    assert |WirePlan(p)| > 0;
    var response := link.ReadResponse(id, WirePlan(p));
    if response.Err? {
      return Err(response.error), q;
    }
    if response.value.None? {
      return Ok(FellBack(|Wire(x)|)), q;
    }
    r, q := ApplyPlan(H, fs, path, suffix, entry, x, response.value.value, p);
  }

  /** Plans that differ at most in the sender's chunk count, which is not on the wire. */
  predicate SamePlan(p: ReconstructionPlan, q: ReconstructionPlan) {
    p.(candidateChunks := 0) == q.(candidateChunks := 0)
  }

  /** The plan branch: decode, check, replay. Whatever the bytes are, they are the wire of the one plan `q`
      that may have been applied. */
  method ApplyPlan(H: Hash, fs: FileSystem, path: Path, suffix: string, entry: Entry, x: BasisFileIndex,
                   planWire: seq<byte>, ghost p: ReconstructionPlan)
    returns (r: Result<Decision>, ghost q: ReconstructionPlan)
    requires suffix != "" && ValidIndex(x) && path in fs.files && |fs.files[path]| == x.fileBytes
    requires |planWire| <= MAXIMUM_PLAN_WIRE_BYTES
    modifies fs
    ensures OnlyApplies(H, old(fs.files), fs.files, path, x, entry, q)
    ensures r.Err? && r.error != Fault ==> fs.files == old(fs.files)
    ensures r == Err(Fault) ==> Obstructed(fs, old(fs.files), path, suffix)
    ensures r.Ok? ==>
      && planWire == WirePlan(q) && Acceptable(x, entry, q) && Applied(H, old(fs.files), fs.files, path, q)
      && r.value == Completed(|Wire(x)|, |planWire|, q)
    ensures Acceptable(x, entry, p) && planWire == WirePlan(p) ==>
      && (r.Ok? ==> SamePlan(p, q))
      && (r.Err? && r.error != Fault ==> !Replays(H, old(fs.files)[path], p))
  {
    q := p;
    var decoded := DecodePlan(planWire);
    if decoded.Err? {
      return Err(decoded.error), q;
    }
    var plan := decoded.value;
    q := plan;
    if Acceptable(x, entry, p) && planWire == WirePlan(p) {
      WirePlanIsInjective(p, plan);
    }
    if plan.targetBytes != entry.fileSize || plan.literalBytes > MAXIMUM_LITERAL_BYTES
       || |Wire(x)| + |planWire| >= entry.fileSize
    {
      return Err(InvalidData), q;
    }
    var rebuilt := Reconstruct(H, fs, path, path, suffix, x.fileBytes, plan);
    if rebuilt.Err? {
      return Err(rebuilt.error), q;
    }
    r := Ok(Completed(|Wire(x)|, |planWire|, plan));
  }

  /** The receiver's offer: the index of its old file, or nothing when there is no file worth indexing. */
  method MakeOffer(H: Hash, t: GearTable, link: Link, fs: FileSystem, path: Path, regular: bool, script: seq<Read>,
                   id: nat, entry: Entry, enabled: bool)
    returns (x: Option<BasisFileIndex>)
    requires path in fs.files ==> |fs.files[path]| < U64
    modifies link`outgoing
    ensures x == OfferedIndex(H, t, entry, enabled, Indexable(fs.files, path, regular, script))
    ensures link.outgoing == old(link.outgoing) + Offer(id, x)
    ensures x.Some? ==> ValidIndex(x.value) && path in fs.files && |fs.files[path]| == x.value.fileBytes
  {
    x := None;
    if !enabled || entry.class_.Tiny? || entry.fileSize < MINIMUM_FILE_BYTES {
      SendUnavailable(link, id);
      return;
    }
    if !(path in fs.files && regular && |fs.files[path]| > 0) {
      SendUnavailable(link, id);
      return;
    }
    DefaultIsLegal();
    var built := BuildFromReader(H, t, script, |fs.files[path]|, DEFAULT_AVERAGE_KIB);
    if built.Err? {
      SendUnavailable(link, id);
      return;
    }
    WireFits(built.value);
    var encoded := EncodeWire(built.value);
    if |encoded.value| > MAXIMUM_INDEX_WIRE_BYTES {
      SendUnavailable(link, id);
      return;
    }
    SendIndex(link, id, encoded.value);
    x := Some(built.value);
  }

  /** `receiver_negotiate`: its offer, the ghost result `x`, depends on its own file alone, and whatever bytes
      arrive, it changes at most that file, to what the one plan `q` on the stream means. */
  method ReceiverNegotiate(H: Hash, t: GearTable, link: Link, fs: FileSystem, path: Path, regular: bool,
                           script: seq<Read>, suffix: string, id: nat, entry: Entry, enabled: bool,
                           ghost p: ReconstructionPlan)
    returns (r: Result<Decision>, ghost x: Option<BasisFileIndex>, ghost q: ReconstructionPlan)
    requires id < U64 && suffix != ""
    requires path in fs.files ==> |fs.files[path]| < U64
    modifies link, fs
    ensures x == OfferedIndex(H, t, entry, enabled, Indexable(old(fs.files), path, regular, script))
    ensures link.outgoing == old(link.outgoing) + Offer(id, x)
    ensures x.None? ==>
      r == Ok(Decision(false, ZERO)) && link.incoming == old(link.incoming) && fs.files == old(fs.files)
    ensures x.Some? ==>
      && path in old(fs.files) && OnlyApplies(H, old(fs.files), fs.files, path, x.value, entry, q)
      && (r.Ok? ==>
          Reported(H, old(fs.files), fs.files, path, x.value, entry, id, old(link.incoming), link.incoming, r.value, q))
      && (Fallback(id) <= old(link.incoming) ==> r == Ok(FellBack(|Wire(x.value)|)))
      && (Acceptable(x.value, entry, p) && PlanMessage(id, WirePlan(p)) <= old(link.incoming) ==>
          && (r.Ok? ==> r.value.completed && SamePlan(p, q))
          && (r.Err? && r.error != Fault ==> !Replays(H, old(fs.files)[path], p)))
    ensures r.Err? && r.error != Fault ==> fs.files == old(fs.files)
    ensures r == Err(Fault) ==> Obstructed(fs, old(fs.files), path, suffix)
    ensures r.Ok? ==> Balanced(r.value.stats)
  {
    q := p;
    var offered := MakeOffer(H, t, link, fs, path, regular, script, id, entry, enabled);
    x := offered;
    if offered.None? {
      return Ok(Decision(false, ZERO)), x, q;
    }
    ghost var before, stream := fs.files, link.incoming;
    r, q := ReceiverOnResponse(H, link, fs, path, suffix, id, entry, offered.value, p);
    if r.Ok? {
      ReportedIsBalanced(H, before, fs.files, path, x.value, entry, id, stream, link.incoming, r.value, q);
    }
  }

  // ---------------------------------------------------------------- both sides together

  /** What the sender makes of the receiver's offer, whatever else follows it on the stream. */
  method SenderTurn(H: Hash, t: GearTable, offer: seq<byte>, later: seq<byte>, source: SourceFile, script: seq<Read>,
                    id: nat, entry: Entry, ghost x: Option<BasisFileIndex>)
    returns (link: Link, r: Result<Decision>)
    requires id < U64 && entry.fileSize < U64 && ValidSource(source, entry) && Reads(script, source.contents)
    requires offer == Offer(id, x)
    requires x.Some? ==> ValidOffer(x.value) && |Wire(x.value)| <= MAXIMUM_INDEX_WIRE_BYTES
    ensures fresh(link) && link.incoming == later
    ensures x.None? ==> r == Ok(Decision(false, ZERO)) && link.outgoing == []
    ensures x.Some? ==>
      var p := PlanOf(H, t, x.value, source.contents);
      r == Ok(Verdict(x.value, p)) && link.outgoing == Reply(id, x.value, p)
  {
    link := new Link(offer + later);
    ghost var y := if x.Some? then x.value else BasisFileIndex(0, 0, [], map[]);
    AfterIsPrefix(offer + later, offer, later);
    ghost var answered;
    r, answered := SenderNegotiate(H, t, link, source, script, id, entry, y);
    AfterIsUnique(offer + later, offer, later, link.incoming);
    if x.Some? {
      NothingBefore(Reply(id, y, PlanOf(H, t, y, source.contents)));
    }
  }

  /** Only the file at `path` changed, to content of the length and digest of `s`. */
  ghost predicate Replaced(H: Hash, before: Files, after: Files, path: Path, s: seq<byte>) {
    path in after && after == before[path := after[path]] && |after[path]| == |s| && H(after[path]) == H(s)
  }

  lemma AppliedReplaces(H: Hash, before: Files, after: Files, path: Path, p: ReconstructionPlan, s: seq<byte>)
    requires path in before && Applied(H, before, after, path, p) && p.targetBytes == |s| && p.targetDigest == H(s)
    ensures Replaced(H, before, after, path, s) && after[path] == Output(before[path], p.operations)
  {
  }

  /** The plan `p` describes the file `s`: always in length and digest, and when it is `exact`, also in
      content. */
  predicate Describes(H: Hash, basis: seq<byte>, p: ReconstructionPlan, s: seq<byte>, exact: bool) {
    && ValidPlan(p) && p.targetBytes == |s| && p.targetDigest == H(s)
    && (exact ==> Replays(H, basis, p) && Output(basis, p.operations) == s)
  }

  /** The receiver took the verdict on `p` and read just the reply; it changed nothing, or replaced its file by
      one of the length and digest of `s`, and by `s` itself when the plan is exact. */
  ghost predicate Settled(H: Hash, before: Files, after: Files, path: Path, later: seq<byte>, rest: seq<byte>,
                          d: Decision, x: Option<BasisFileIndex>, p: ReconstructionPlan, s: seq<byte>, exact: bool)
  {
    && rest == later && d == Outcome(x, p)
    && (if d.completed
        then x.Some? && Replaced(H, before, after, path, s) && (exact ==> after[path] == s)
             && d.stats.wire.index + d.stats.wire.plan < |s|
        else after == before)
  }

  /** What the receiver makes of the sender's reply to its offer, whatever else follows on the stream. */
  method ReceiverTurn(H: Hash, t: GearTable, fs: FileSystem, path: Path, regular: bool, script: seq<Read>,
                      suffix: string, id: nat, entry: Entry, enabled: bool, reply: seq<byte>, later: seq<byte>,
                      ghost x: Option<BasisFileIndex>, ghost p: ReconstructionPlan, ghost s: seq<byte>,
                      ghost exact: bool)
    returns (link: Link, r: Result<Decision>)
    requires id < U64 && suffix != "" && (path in fs.files ==> |fs.files[path]| < U64)
    requires x == OfferedIndex(H, t, entry, enabled, Indexable(fs.files, path, regular, script))
    requires x.None? ==> reply == []
    requires x.Some? ==>
      && reply == Reply(id, x.value, p) && |s| == entry.fileSize
      && path in fs.files && Describes(H, fs.files[path], p, s, exact)
    modifies fs
    ensures fresh(link) && link.outgoing == Offer(id, x)
    ensures r.Err? && r.error != Fault ==> x.Some? && !exact && fs.files == old(fs.files)
    ensures r == Err(Fault) ==> Obstructed(fs, old(fs.files), path, suffix)
    ensures r.Ok? ==> Settled(H, old(fs.files), fs.files, path, later, link.incoming, r.value, x, p, s, exact)
  {
    ghost var before := fs.files;
    link := new Link(reply + later);
    if x.Some? {
      ReplyComesFirst(id, x.value, p, later);
    }
    NothingBefore(later);
    NothingBefore(Offer(id, x));
    ghost var y, q;
    r, y, q := ReceiverNegotiate(H, t, link, fs, path, regular, script, suffix, id, entry, enabled, p);
    if r.Ok? && x.Some? {
      ReportedReply(H, before, fs.files, path, x.value, entry, id, later, link.incoming, r.value, p, q, s, exact);
    }
  }

  lemma NothingBefore(s: seq<byte>)
    ensures [] + s == s
  {
  }

  /** The reply is at the head of the stream. */
  lemma ReplyComesFirst(id: nat, x: BasisFileIndex, p: ReconstructionPlan, later: seq<byte>)
    ensures WorthSending(x, p) ==> PlanMessage(id, WirePlan(p)) <= Reply(id, x, p) + later
    ensures !WorthSending(x, p) ==> Fallback(id) <= Reply(id, x, p) + later
  {
  }

  /** A report on a stream that began with the reply for `p` is the verdict on `p`. */
  lemma ReportedReply(H: Hash, before: Files, after: Files, path: Path, x: BasisFileIndex, entry: Entry, id: nat,
                      later: seq<byte>, rest: seq<byte>, d: Decision, p: ReconstructionPlan, q: ReconstructionPlan,
                      s: seq<byte>, exact: bool)
    requires path in before && Describes(H, before[path], p, s, exact) && |s| == entry.fileSize
    requires Reported(H, before, after, path, x, entry, id, Reply(id, x, p) + later, rest, d, q)
    requires WorthSending(x, p) ==> d.completed && SamePlan(p, q)
    requires !WorthSending(x, p) ==> d == FellBack(|Wire(x)|)
    ensures Settled(H, before, after, path, later, rest, d, Some(x), p, s, exact)
  {
    var reply := Reply(id, x, p);
    if WorthSending(x, p) {
      assert WirePlan(p) == WirePlan(q);
      AppliedReplaces(H, before, after, path, q, s);
    }
    assert After(reply + later, reply, rest);
    AfterIsUnique(reply + later, reply, later, rest);
  }

  /** The index an offer carries, if any, and the plan that will answer it. */
  lemma ExpectedPlan(H: Hash, t: GearTable, entry: Entry, enabled: bool, basis: Option<seq<byte>>, source: seq<byte>)
    returns (x: Option<BasisFileIndex>, p: ReconstructionPlan)
    requires |source| < U64 && (basis.Some? ==> |basis.value| < U64)
    ensures x == OfferedIndex(H, t, entry, enabled, basis)
    ensures x.Some? ==>
      && basis.Some? && ValidOffer(x.value) && |Wire(x.value)| <= MAXIMUM_INDEX_WIRE_BYTES
      && p == PlanOf(H, t, x.value, source)
      && Describes(H, basis.value, p, source, Distinguishes(H, t, basis.value, source))
  {
    x, p := OfferedIndex(H, t, entry, enabled, basis), ReconstructionPlan(0, seq(32, _ => 0), [], 0, 0, 0);
    if x.Some? {
      OfferIsAnswered(H, t, basis.value, source);
      p := PlanOf(H, t, x.value, source);
    }
  }

  /** No digest collision among the chunks of the two files. */
  predicate Distinguishes(H: Hash, t: GearTable, basis: seq<byte>, source: seq<byte>) {
    NoCollision(H, Chunks(t, DefaultConfig(), basis), Chunks(t, DefaultConfig(), source))
  }

  /** The whole account of a negotiation, in numbers. Without an offer nothing is counted. A plan is sent when
      its literals are at most 16 MiB, its wire at most 20 MiB, and index and plan together are smaller than
      the file; then the file is completed and every counter is the plan's own. Otherwise one offer fell back
      and only its index was sent. */
  predicate Accounted(d: Decision, offered: bool, indexWire: nat, planWire: nat, referenced: nat, literals: nat,
                      size: nat)
  {
    && (d.completed <==>
        offered && literals <= 16 * 1024 * 1024 && planWire <= 20 * 1024 * 1024 && indexWire + planWire < size)
    && (!offered ==>
        && d.stats.files == FileCounts(0, 0, 0) && d.stats.bytes == ByteCounts(0, 0, 0)
        && d.stats.wire == WireCounts(0, 0))
    && (offered && d.completed ==>
        && d.stats.files == FileCounts(1, 1, 0) && d.stats.bytes == ByteCounts(size, referenced, literals)
        && d.stats.wire == WireCounts(indexWire, planWire))
    && (offered && !d.completed ==>
        && d.stats.files == FileCounts(1, 0, 1) && d.stats.bytes == ByteCounts(0, 0, 0)
        && d.stats.wire == WireCounts(indexWire, 0))
  }

  lemma OutcomeIsAccounted(H: Hash, t: GearTable, x: Option<BasisFileIndex>, p: ReconstructionPlan, s: seq<byte>,
                           d: Decision)
    requires x.Some? ==> ValidIndex(x.value) && p == PlanOf(H, t, x.value, s) && |s| < U64
    requires d == Outcome(x, p)
    ensures x.None? ==> Accounted(d, false, 0, 0, 0, 0, |s|)
    ensures x.Some? ==>
      Accounted(d, true, |Wire(x.value)|, |WirePlan(p)|, Referenced(p.operations), Literals(p.operations), |s|)
    ensures Balanced(d.stats)
  {
    if x.Some? {
      BuiltPlanIsValid(H, t, x.value, s);
    }
  }

  /** When an index is offered, in numbers: the lane is enabled, the file is not tiny and at least 1 MiB, the
      old file is a regular nonempty file that was read in full, and its index is at most 4 MiB. */
  lemma OffersMean(H: Hash, t: GearTable, entry: Entry, enabled: bool, files: Files, path: Path, regular: bool,
                   script: seq<Read>)
    ensures OfferedIndex(H, t, entry, enabled, Indexable(files, path, regular, script)).Some? <==>
      && enabled && (entry.class_.Medium? || entry.class_.Large?) && entry.fileSize >= 1024 * 1024
      && path in files && regular && files[path] != []
      && !ReadFails(script) && |Delivered(script)| == |files[path]|
      && |Wire(DefaultIndex(H, t, Delivered(script)))| <= 4 * 1024 * 1024
  {
  }

  /** The bytes of the two messages either side writes. */
  lemma MessagesAre(id: nat, x: BasisFileIndex, p: ReconstructionPlan)
    ensures Offer(id, None) == [0x38] + BE(id, 8)
    ensures Offer(id, Some(x)) == [0x39] + BE(id, 8) + (BE(|Wire(x)|, 8) + Wire(x))
    ensures
      || Reply(id, x, p) == [0x3A] + BE(id, 8)
      || Reply(id, x, p) == [0x3B] + BE(id, 8) + (BE(|WirePlan(p)|, 8) + WirePlan(p))
    ensures Reply(id, x, p)[0] == 0x3B <==>
      && p.literalBytes <= 16 * 1024 * 1024 && |WirePlan(p)| <= 20 * 1024 * 1024
      && |Wire(x)| + |WirePlan(p)| < p.targetBytes
  {
  }

  /** How the receiver's files end up: unchanged after a fallback; after completion of the length and digest of
      the source, and the source itself absent a collision; and nothing but a fault or a collision fails. */
  ghost predicate Concluded(H: Hash, t: GearTable, before: Files, after: Files, path: Path, s: seq<byte>,
                            r: Result<Decision>)
  {
    match r
    case Ok(d) =>
      if d.completed
      then && path in before && Replaced(H, before, after, path, s)
           && d.stats.wire.index + d.stats.wire.plan < |s|
           && (Distinguishes(H, t, before[path], s) ==> after[path] == s)
      else after == before
    case Err(e) =>
      e != Fault ==> path in before && after == before && !Distinguishes(H, t, before[path], s)
  }

  /** One negotiation over a connection. The streams are consistent: the sender reads what the
      receiver writes and then whatever else follows, and the receiver reads what the sender writes
      and then whatever else follows. With stable files both sides finish in lockstep: each consumes
      exactly the bytes the other wrote, they take the same decision with the same statistics, and a
      completed file has the source's length and digest at a wire cost below its size. Without a
      digest collision among the chunks it is the source, and only an obstruction on the receiver's file
      system can keep it from finishing. The ghost results are the offered index and the sender's plan, and
      the account of both sides is theirs, counter by counter. */
  method Negotiate(H: Hash, t: GearTable, fs: FileSystem, path: Path, regular: bool, basisScript: seq<Read>,
                   suffix: string, id: nat, entry: Entry, enabled: bool, source: SourceFile,
                   sourceScript: seq<Read>, laterToSender: seq<byte>, laterToReceiver: seq<byte>)
    returns (senderLink: Link, sender: Result<Decision>, receiverLink: Link, receiver: Result<Decision>,
             ghost x: Option<BasisFileIndex>, ghost p: ReconstructionPlan)
    requires id < U64 && suffix != "" && entry.fileSize < U64
    requires path in fs.files ==> |fs.files[path]| < U64 && Reads(basisScript, fs.files[path])
    requires ValidSource(source, entry) && Reads(sourceScript, source.contents)
    modifies fs
    ensures x == OfferedIndex(H, t, entry, enabled, Indexable(old(fs.files), path, regular, basisScript))
    ensures receiverLink.outgoing == Offer(id, x) && senderLink.incoming == laterToSender
    ensures x.Some? ==> ValidIndex(x.value) && p == PlanOf(H, t, x.value, source.contents)
    ensures senderLink.outgoing == if x.Some? then Reply(id, x.value, p) else []
    ensures sender.Ok? && (x.None? ==> Accounted(sender.value, false, 0, 0, 0, 0, |source.contents|))
    ensures x.Some? ==>
      Accounted(sender.value, true, |Wire(x.value)|, |WirePlan(p)|, Referenced(p.operations),
                Literals(p.operations), |source.contents|)
    ensures receiver.Ok? ==> receiver == sender && receiverLink.incoming == laterToReceiver
    ensures Concluded(H, t, old(fs.files), fs.files, path, source.contents, receiver)
    ensures receiver == Err(Fault) ==> !fs.reliable || path + suffix in old(fs.files)
    ensures sender.Ok? && Balanced(sender.value.stats)
  {
    var basis := Indexable(fs.files, path, regular, basisScript);
    x, p := ExpectedPlan(H, t, entry, enabled, basis, source.contents);
    var offer := Offer(id, OfferedIndex(H, t, entry, enabled, basis));
    senderLink, sender := SenderTurn(H, t, offer, laterToSender, source, sourceScript, id, entry, x);
    receiverLink, receiver := ReceiverTurn(H, t, fs, path, regular, basisScript, suffix, id, entry, enabled,
                                           senderLink.outgoing, laterToReceiver, x, p, source.contents,
                                           x.Some? && Distinguishes(H, t, basis.value, source.contents));
    OutcomeIsAccounted(H, t, x, p, source.contents, sender.value);
  }

  function DefaultConfig(): ChunkConfig {
    DefaultIsLegal();
    FromAverageKib(DEFAULT_AVERAGE_KIB).value
  }

  /** The sender's plan against an offered index is valid, and replays to the source unless digests
      collide. */
  lemma OfferIsAnswered(H: Hash, t: GearTable, basis: seq<byte>, source: seq<byte>)
    requires |basis| < U64 && |source| < U64
    ensures ValidIndex(DefaultIndex(H, t, basis))
    ensures var p := PlanOf(H, t, DefaultIndex(H, t, basis), source);
            && ValidPlan(p)
            && (Distinguishes(H, t, basis, source) ==> Replays(H, basis, p) && Output(basis, p.operations) == source)
  {
    DefaultIsLegal();
    BuiltIndexIsValid(H, t, DEFAULT_AVERAGE_KIB, basis);
    if Distinguishes(H, t, basis, source) {
      PlanRebuilds(H, t, DEFAULT_AVERAGE_KIB, basis, source);
    }
    BuiltPlanIsValid(H, t, DefaultIndex(H, t, basis), source);
  }
}
