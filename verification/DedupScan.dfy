/** The deduplication benchmark's scanner (src/content_defined_dedup_bench.rs), and its agreement with
    the reconstruction planner. */
module DedupScan {

  import opened Bytes
  import opened Chunker
  import opened BasisIndex
  import opened Plan

  datatype CandidateStats = CandidateStats(
    positionalChunks: nat, positionalBytes: nat,
    relocatedChunks: nat, relocatedBytes: nat,
    literalChunks: nat, literalBytes: nat)

  /** The two maps of `index_basis`. */
  datatype ScanIndex = ScanIndex(byOffset: map<nat, ChunkKey>, firstLocations: map<ChunkKey, nat>)

  /** The maps describe exactly the chunks of the basis: which key lies where, and where each key lies
      first. */
  predicate Indexes(m: ScanIndex, chunks: seq<BasisChunk>) {
    && m.firstLocations == FirstLocations(chunks)
    && (forall c <- chunks :: c.offset in m.byOffset && m.byOffset[c.offset] == c.key)
    && (forall o <- m.byOffset :: BasisChunk(o, m.byOffset[o]) in chunks)
  }

  lemma IndexesOneMore(m: ScanIndex, chunks: seq<BasisChunk>, c: BasisChunk)
    requires Indexes(m, chunks) && forall d <- chunks :: d.offset != c.offset
    ensures
      var first :=
        if c.key in m.firstLocations then m.firstLocations else m.firstLocations[c.key := c.offset];
      Indexes(ScanIndex(m.byOffset[c.offset := c.key], first), chunks + [c])
  {
    FirstLocationsSnoc(chunks, c);
  }

  /** `index_basis`. */
  method IndexBasis(H: Hash, pieces: seq<Piece>, ghost cs: seq<seq<byte>>) returns (m: ScanIndex)
    requires pieces == Placed(cs) && AllNonEmpty(cs)
    ensures Indexes(m, IndexChunks(H, cs))
  {
    m := ScanIndex(map[], map[]);
    ghost var chunks := IndexChunks(H, cs);
    for i := 0 to |pieces|
      invariant Indexes(m, chunks[..i])
    {
      var piece := pieces[i];
      var key := ChunkKey(H(piece.contents), |piece.contents|);
      assert chunks[..i + 1] == chunks[..i] + [chunks[i]];
      EarlierOffsets(H, cs, i);
      IndexesOneMore(m, chunks[..i], chunks[i]);
      m := ScanIndex(m.byOffset[piece.offset := key],
                     if key in m.firstLocations then m.firstLocations else m.firstLocations[key := piece.offset]);
    }
    assert chunks[..|chunks|] == chunks;
  }

  lemma EarlierOffsets(H: Hash, cs: seq<seq<byte>>, i: nat)
    requires AllNonEmpty(cs) && i < |cs|
    ensures forall d <- IndexChunks(H, cs)[..i] :: d.offset != IndexChunks(H, cs)[i].offset
  {
    var chunks := IndexChunks(H, cs);
    forall j | 0 <= j < i
      ensures chunks[..i][j].offset != chunks[i].offset
    {
      OffsetsDiffer(cs, j, i);
    }
  }

  lemma {:induction false} OffsetsDiffer(cs: seq<seq<byte>>, j: nat, i: nat)
    requires AllNonEmpty(cs) && j < i < |cs|
    ensures |Concat(cs[..j])| < |Concat(cs[..i])|
  {
    PrefixConcat(cs, i - 1);
    if j < i - 1 {
      OffsetsDiffer(cs, j, i - 1);
    }
  }

  /** The bytes of the candidate chunks that lie in the basis at the very same offset. */
  function InPlace(H: Hash, x: BasisFileIndex, cs: seq<seq<byte>>): nat {
    if cs == [] then 0
    else
      var init, c := cs[..|cs| - 1], cs[|cs| - 1];
      InPlace(H, x, init) + if BasisChunk(|Concat(init)|, Key(H, c)) in x.chunks then |c| else 0
  }

  /** The candidate chunks the basis has at the very same offset, and those whose key it lacks. */
  function PositionsInPlace(H: Hash, x: BasisFileIndex, cs: seq<seq<byte>>): set<nat> {
    set i | 0 <= i < |cs| && BasisChunk(|Concat(cs[..i])|, Key(H, cs[i])) in x.chunks
  }

  function PositionsUnknown(H: Hash, x: BasisFileIndex, cs: seq<seq<byte>>): set<nat> {
    set i | 0 <= i < |cs| && Find(x, Key(H, cs[i])).None?
  }

  /** One chunk more, one position more or none. */
  lemma OneMoreInPlace(H: Hash, x: BasisFileIndex, cs: seq<seq<byte>>, i: nat)
    requires i < |cs|
    ensures |PositionsInPlace(H, x, cs[..i + 1])| == |PositionsInPlace(H, x, cs[..i])| +
      if BasisChunk(|Concat(cs[..i])|, Key(H, cs[i])) in x.chunks then 1 else 0
  {
    var longer, shorter := cs[..i + 1], cs[..i];
    forall j | 0 <= j < i
      ensures longer[j] == shorter[j] && longer[..j] == shorter[..j]
    {
    }
    assert longer[i] == cs[i] && longer[..i] == shorter;
    var a, b := PositionsInPlace(H, x, longer), PositionsInPlace(H, x, shorter);
    var added := if BasisChunk(|Concat(shorter)|, Key(H, cs[i])) in x.chunks then {i} else {};
    assert a == b + added;
  }

  lemma OneMoreUnknown(H: Hash, x: BasisFileIndex, cs: seq<seq<byte>>, i: nat)
    requires i < |cs|
    ensures |PositionsUnknown(H, x, cs[..i + 1])| == |PositionsUnknown(H, x, cs[..i])| +
      if Find(x, Key(H, cs[i])).None? then 1 else 0
  {
    var longer, shorter := cs[..i + 1], cs[..i];
    assert longer[i] == cs[i] && forall j | 0 <= j < i :: longer[j] == shorter[j];
    var a, b := PositionsUnknown(H, x, longer), PositionsUnknown(H, x, shorter);
    var added := if Find(x, Key(H, cs[i])).None? then {i} else {};
    assert a == b + added;
  }

  /** The scanner and the planner agree: what the scanner calls reusable, in place or moved, is what
      the plan references, and what it calls literal is what the plan carries. In place are exactly the
      chunks the basis has at the same offset. */
  method ScanCandidate(H: Hash, m: ScanIndex, x: BasisFileIndex, pieces: seq<Piece>, ghost cs: seq<seq<byte>>)
    returns (st: CandidateStats)
    requires x.firstLocations == FirstLocations(x.chunks) && Indexes(m, x.chunks) && pieces == Placed(cs)
    ensures st.positionalChunks == |PositionsInPlace(H, x, cs)| && st.literalChunks == |PositionsUnknown(H, x, cs)|
    ensures st.positionalBytes == InPlace(H, x, cs)
    ensures st.positionalBytes + st.relocatedBytes == Known(H, x, cs)
    ensures st.literalBytes == Unknown(H, x, cs)
    ensures st.positionalChunks + st.relocatedChunks + st.literalChunks == |cs|
  {
    st := CandidateStats(0, 0, 0, 0, 0, 0);
    for i := 0 to |pieces|
      invariant st.positionalChunks == |PositionsInPlace(H, x, cs[..i])|
      invariant st.literalChunks == |PositionsUnknown(H, x, cs[..i])|
      invariant st.positionalBytes == InPlace(H, x, cs[..i])
      invariant st.positionalBytes + st.relocatedBytes == Known(H, x, cs[..i])
      invariant st.literalBytes == Unknown(H, x, cs[..i])
      invariant st.positionalChunks + st.relocatedChunks + st.literalChunks == i
    {
      assert cs[..i + 1][..i] == cs[..i];
      var contents := pieces[i].contents;
      var key := ChunkKey(H(contents), |contents|);
      var offset := pieces[i].offset;
      Lookups(m, x, offset, key);
      OneMoreInPlace(H, x, cs, i);
      OneMoreUnknown(H, x, cs, i);
      if offset in m.byOffset && m.byOffset[offset] == key {
        st := st.(positionalChunks := st.positionalChunks + 1, positionalBytes := st.positionalBytes + |contents|);
      } else if key in m.firstLocations {
        st := st.(relocatedChunks := st.relocatedChunks + 1, relocatedBytes := st.relocatedBytes + |contents|);
      } else {
        st := st.(literalChunks := st.literalChunks + 1, literalBytes := st.literalBytes + |contents|);
      }
    }
    assert cs[..|cs|] == cs;
  }

  /** What the two look-ups of the scanner mean. */
  lemma Lookups(m: ScanIndex, x: BasisFileIndex, offset: nat, key: ChunkKey)
    requires x.firstLocations == FirstLocations(x.chunks) && Indexes(m, x.chunks)
    ensures offset in m.byOffset && m.byOffset[offset] == key <==> BasisChunk(offset, key) in x.chunks
    ensures BasisChunk(offset, key) in x.chunks ==> key in m.firstLocations
  {
    FirstLocationsMeaning(x.chunks, key);
    if BasisChunk(offset, key) in x.chunks {
      var i :| 0 <= i < |x.chunks| && x.chunks[i] == BasisChunk(offset, key);
      assert x.chunks[i].key == key;
    }
  }

  /** Scanning one candidate both ways: the bounded planner gives up exactly when the scanner's
      literal total exceeds the bound, and otherwise carries exactly that total. */
  method ScanAndPlan(H: Hash, t: GearTable, averageKib: nat, basis: seq<byte>, candidate: seq<byte>,
                     maximumLiteralBytes: nat)
    returns (st: CandidateStats, plan: Result<ReconstructionPlan>)
    requires LegalAverage(averageKib) && |basis| < U64 && |candidate| < U64
    ensures plan == Err(LiteralLimitExceeded) <==> st.literalBytes > maximumLiteralBytes
    ensures plan.Err? ==> plan.error == LiteralLimitExceeded
    ensures var x, cs := IndexOf(H, t, averageKib, basis), Chunks(t, FromAverageKib(averageKib).value, candidate);
      && st.positionalBytes == InPlace(H, x, cs)
      && st.positionalChunks == |PositionsInPlace(H, x, cs)| && st.literalChunks == |PositionsUnknown(H, x, cs)|
      && st.positionalChunks + st.relocatedChunks + st.literalChunks == |cs|
    ensures plan.Ok? ==> st.literalBytes == plan.value.literalBytes
    ensures plan.Ok? ==> st.positionalBytes + st.relocatedBytes == plan.value.referencedBytes
  {
    var cfg := FromAverageKib(averageKib).value;
    WholeRead(basis);
    WholeRead(candidate);
    ChunkLengths(t, cfg, basis);
    var basisScan := ChunkReader(t, cfg, [Data(basis)]);
    var m := IndexBasis(H, basisScan.pieces, Chunks(t, cfg, basis));
    var candidateScan := ChunkReader(t, cfg, [Data(candidate)]);
    var index := BuildFromReader(H, t, [Data(basis)], |basis|, averageKib);
    var x := index.value;
    st := ScanCandidate(H, m, x, candidateScan.pieces, Chunks(t, cfg, candidate));
    plan := BuildBounded(H, t, [Data(candidate)], |candidate|, x, maximumLiteralBytes);
  }

  lemma WholeRead(s: seq<byte>)
    ensures Delivered([Data(s)]) == s && !ReadFails([Data(s)])
  {
    assert DeliveredFrom([Data(s)], 1) == [];
    assert !ReadFailsFrom([Data(s)], 1);
  }
}
