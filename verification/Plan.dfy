/** The sender's reconstruction plan (src/cdc_reconstruction_bench.rs): a program of copies out of the
    receiver's old file and literal bytes, whose meaning is the file it writes. */
module Plan {

  import opened Bytes
  import opened Chunker
  import opened BasisIndex

  datatype Op = Basis(offset: nat, length: nat) | Literal(contents: seq<byte>)

  datatype ReconstructionPlan = ReconstructionPlan(
    targetBytes: nat, targetDigest: Digest, operations: seq<Op>,
    candidateChunks: nat, referencedBytes: nat, literalBytes: nat)

  // ---------------------------------------------------------------- meaning

  /** The bytes one operation writes; a range outside the basis writes none. */
  function OpOutput(basis: seq<byte>, op: Op): seq<byte> {
    match op
    case Basis(offset, length) => if offset + length <= |basis| then basis[offset..offset + length] else []
    case Literal(contents) => contents
  }

  /** The file a plan writes. */
  function Output(basis: seq<byte>, ops: seq<Op>): seq<byte> {
    if ops == [] then [] else Output(basis, ops[..|ops| - 1]) + OpOutput(basis, ops[|ops| - 1])
  }

  lemma OutputSnoc(basis: seq<byte>, ops: seq<Op>, op: Op)
    ensures Output(basis, ops + [op]) == Output(basis, ops) + OpOutput(basis, op)
  {
    assert (ops + [op])[..|ops|] == ops;
  }

  function Referenced(ops: seq<Op>): nat {
    if ops == [] then 0
    else Referenced(ops[..|ops| - 1]) + match ops[|ops| - 1] case Basis(_, n) => n case Literal(_) => 0
  }

  function Literals(ops: seq<Op>): nat {
    if ops == [] then 0
    else Literals(ops[..|ops| - 1]) + match ops[|ops| - 1] case Basis(_, _) => 0 case Literal(c) => |c|
  }

  predicate OpInside(op: Op, n: nat) {
    op.Basis? ==> op.offset + op.length <= n
  }

  predicate Inside(ops: seq<Op>, n: nat) {
    forall i :: 0 <= i < |ops| ==> OpInside(ops[i], n)
  }

  lemma {:induction false} OutputLength(basis: seq<byte>, ops: seq<Op>)
    requires Inside(ops, |basis|)
    ensures |Output(basis, ops)| == Referenced(ops) + Literals(ops)
  {
    if ops != [] {
      OutputLength(basis, ops[..|ops| - 1]);
    }
  }

  // ---------------------------------------------------------------- normal form

  predicate NonEmpty(op: Op) {
    match op case Basis(_, n) => n > 0 case Literal(c) => c != []
  }

  /** Two neighbours that appending would have merged. */
  predicate Mergeable(a: Op, b: Op) {
    (a.Literal? && b.Literal?) || (a.Basis? && b.Basis? && a.offset + a.length == b.offset)
  }

  /** No empty operation, and no two neighbours that could be one. */
  predicate NormalForm(ops: seq<Op>) {
    && (forall i :: 0 <= i < |ops| ==> NonEmpty(ops[i]))
    && (forall i :: 0 < i < |ops| ==> !Mergeable(ops[i - 1], ops[i]))
  }

  function Last(ops: seq<Op>): Op
    requires ops != []
  {
    ops[|ops| - 1]
  }

  predicate EndsAt(ops: seq<Op>, offset: nat) {
    ops != [] && Last(ops).Basis? && Last(ops).offset + Last(ops).length == offset
  }

  /** The operations after `append_basis`. */
  function WithBasis(ops: seq<Op>, offset: nat, length: nat): seq<Op> {
    if EndsAt(ops, offset)
    then ops[..|ops| - 1] + [Basis(Last(ops).offset, Last(ops).length + length)]
    else ops + [Basis(offset, length)]
  }

  /** The operations after `append_literal`. */
  function WithLiteral(ops: seq<Op>, contents: seq<byte>): seq<Op> {
    if ops != [] && Last(ops).Literal?
    then ops[..|ops| - 1] + [Literal(Last(ops).contents + contents)]
    else ops + [Literal(contents)]
  }

  lemma ReplaceLast(basis: seq<byte>, ops: seq<Op>, op: Op, added: seq<byte>)
    requires ops != [] && OpOutput(basis, op) == OpOutput(basis, Last(ops)) + added
    ensures Output(basis, ops[..|ops| - 1] + [op]) == Output(basis, ops) + added
  {
    OutputSnoc(basis, ops[..|ops| - 1], op);
  }

  lemma MergedRange(basis: seq<byte>, o: nat, n: nat, length: nat)
    requires o + n + length <= |basis|
    ensures OpOutput(basis, Basis(o, n + length)) ==
      OpOutput(basis, Basis(o, n)) + OpOutput(basis, Basis(o + n, length))
  {
  }

  lemma WithBasisMerged(basis: seq<byte>, ops: seq<Op>, offset: nat, length: nat)
    requires offset + length <= |basis| && EndsAt(ops, offset)
    ensures Output(basis, WithBasis(ops, offset, length)) == Output(basis, ops) + OpOutput(basis, Basis(offset, length))
  {
    var last := Last(ops);
    MergedRange(basis, last.offset, last.length, length);
    ReplaceLast(basis, ops, Basis(last.offset, last.length + length), OpOutput(basis, Basis(offset, length)));
  }

  /** Appending a range, merged or not, appends exactly that range to the output. */
  lemma WithBasisMeans(basis: seq<byte>, ops: seq<Op>, offset: nat, length: nat)
    requires offset + length <= |basis|
    ensures Output(basis, WithBasis(ops, offset, length)) == Output(basis, ops) + OpOutput(basis, Basis(offset, length))
  {
    if EndsAt(ops, offset) {
      WithBasisMerged(basis, ops, offset, length);
    } else {
      OutputSnoc(basis, ops, Basis(offset, length));
    }
  }

  /** Appending a literal, merged or not, appends exactly its bytes to the output. */
  lemma WithLiteralMeans(basis: seq<byte>, ops: seq<Op>, contents: seq<byte>)
    ensures Output(basis, WithLiteral(ops, contents)) == Output(basis, ops) + contents
  {
    if ops != [] && Last(ops).Literal? {
      ReplaceLast(basis, ops, Literal(Last(ops).contents + contents), contents);
    } else {
      OutputSnoc(basis, ops, Literal(contents));
    }
  }

  lemma ReplaceLastNormal(ops: seq<Op>, op: Op)
    requires NormalForm(ops) && ops != [] && NonEmpty(op)
    requires op.Basis? == Last(ops).Basis? && (op.Basis? ==> op.offset == Last(ops).offset)
    ensures NormalForm(ops[..|ops| - 1] + [op])
  {
  }

  lemma SnocNormal(ops: seq<Op>, op: Op)
    requires NormalForm(ops) && NonEmpty(op) && (ops != [] ==> !Mergeable(Last(ops), op))
    ensures NormalForm(ops + [op])
  {
  }

  lemma SnocTotals(ops: seq<Op>, op: Op)
    ensures Referenced(ops + [op]) == Referenced(ops) + if op.Basis? then op.length else 0
    ensures Literals(ops + [op]) == Literals(ops) + if op.Literal? then |op.contents| else 0
  {
    assert (ops + [op])[..|ops|] == ops;
  }

  lemma WithBasisNormal(ops: seq<Op>, offset: nat, length: nat, n: nat)
    requires NormalForm(ops) && Inside(ops, n) && length > 0 && offset + length <= n
    ensures NormalForm(WithBasis(ops, offset, length)) && Inside(WithBasis(ops, offset, length), n)
    ensures Referenced(WithBasis(ops, offset, length)) == Referenced(ops) + length
    ensures Literals(WithBasis(ops, offset, length)) == Literals(ops)
  {
    if EndsAt(ops, offset) {
      var merged := Basis(Last(ops).offset, Last(ops).length + length);
      ReplaceLastNormal(ops, merged);
      SnocTotals(ops[..|ops| - 1], merged);
    } else {
      SnocNormal(ops, Basis(offset, length));
      SnocTotals(ops, Basis(offset, length));
    }
  }

  lemma WithLiteralNormal(ops: seq<Op>, contents: seq<byte>, n: nat)
    requires NormalForm(ops) && Inside(ops, n) && contents != []
    ensures NormalForm(WithLiteral(ops, contents)) && Inside(WithLiteral(ops, contents), n)
    ensures Referenced(WithLiteral(ops, contents)) == Referenced(ops)
    ensures Literals(WithLiteral(ops, contents)) == Literals(ops) + |contents|
  {
    if ops != [] && Last(ops).Literal? {
      var merged := Literal(Last(ops).contents + contents);
      ReplaceLastNormal(ops, merged);
      SnocTotals(ops[..|ops| - 1], merged);
    } else {
      SnocNormal(ops, Literal(contents));
      SnocTotals(ops, Literal(contents));
    }
  }

  // ---------------------------------------------------------------- planning

  /** One chunk of the candidate: a reference where the index knows its key, else a literal. */
  function Planned1(H: Hash, x: BasisFileIndex, ops: seq<Op>, c: seq<byte>): seq<Op> {
    match Find(x, Key(H, c))
    case Some(offset) => WithBasis(ops, offset, |c|)
    case None => WithLiteral(ops, c)
  }

  function Planned(H: Hash, x: BasisFileIndex, cs: seq<seq<byte>>): seq<Op> {
    if cs == [] then [] else Planned1(H, x, Planned(H, x, cs[..|cs| - 1]), cs[|cs| - 1])
  }

  /** The bytes of `cs` whose key the index knows, and those whose key it does not know. */
  function Known(H: Hash, x: BasisFileIndex, cs: seq<seq<byte>>): nat {
    if cs == [] then 0
    else Known(H, x, cs[..|cs| - 1]) + if Find(x, Key(H, cs[|cs| - 1])).Some? then |cs[|cs| - 1]| else 0
  }

  function Unknown(H: Hash, x: BasisFileIndex, cs: seq<seq<byte>>): nat {
    if cs == [] then 0
    else Unknown(H, x, cs[..|cs| - 1]) + if Find(x, Key(H, cs[|cs| - 1])).None? then |cs[|cs| - 1]| else 0
  }

  predicate AllNonEmpty(cs: seq<seq<byte>>) {
    forall i :: 0 <= i < |cs| ==> cs[i] != []
  }

  /** Every built plan is in normal form, stays inside the basis, and its totals are the known and
      the unknown bytes of the candidate. */
  lemma {:induction false} PlannedIsNormal(H: Hash, x: BasisFileIndex, cs: seq<seq<byte>>)
    requires ValidIndex(x) && AllNonEmpty(cs)
    ensures var ops := Planned(H, x, cs);
            && NormalForm(ops) && Inside(ops, x.fileBytes)
            && Referenced(ops) == Known(H, x, cs) && Literals(ops) == Unknown(H, x, cs)
  {
    if cs != [] {
      var d, c := cs[..|cs| - 1], cs[|cs| - 1];
      PlannedIsNormal(H, x, d);
      FindIsLeast(x, Key(H, c));
      match Find(x, Key(H, c))
      case Some(offset) => WithBasisNormal(Planned(H, x, d), offset, |c|, x.fileBytes);
      case None => WithLiteralNormal(Planned(H, x, d), c, x.fileBytes);
    }
  }

  lemma {:induction false} KnownAndUnknown(H: Hash, x: BasisFileIndex, cs: seq<seq<byte>>)
    ensures Known(H, x, cs) + Unknown(H, x, cs) == |Concat(cs)|
  {
    if cs != [] {
      var d := cs[..|cs| - 1];
      KnownAndUnknown(H, x, d);
      assert cs == d + [cs[|cs| - 1]];
      ConcatSnoc(d, cs[|cs| - 1]);
    }
  }

  lemma {:induction false} UnknownAppend(H: Hash, x: BasisFileIndex, a: seq<seq<byte>>, b: seq<seq<byte>>)
    ensures Unknown(H, x, a + b) == Unknown(H, x, a) + Unknown(H, x, b)
    decreases |b|
  {
    if b == [] {
      assert a + b == a;
    } else {
      UnknownAppend(H, x, a, b[..|b| - 1]);
      assert (a + b)[..|a + b| - 1] == a + b[..|b| - 1];
    }
  }

  // ---------------------------------------------------------------- a plan rebuilds the candidate

  /** No chunk of the basis and chunk of the candidate of equal length collide. */
  predicate NoCollision(H: Hash, bs: seq<seq<byte>>, cs: seq<seq<byte>>) {
    forall b, c :: b in bs && c in cs && |b| == |c| && H(b) == H(c) ==> b == c
  }

  /** What `find` returns for a candidate chunk is where those very bytes are in the basis. */
  lemma FoundIsThere(H: Hash, x: BasisFileIndex, bs: seq<seq<byte>>, c: seq<byte>)
    requires ValidIndex(x) && x.chunks == IndexChunks(H, bs) && NoCollision(H, bs, [c])
    requires Find(x, Key(H, c)).Some?
    ensures var o := Find(x, Key(H, c)).value; o + |c| <= |Concat(bs)| && Concat(bs)[o..o + |c|] == c
  {
    FindIsLeast(x, Key(H, c));
    var i :| 0 <= i < |x.chunks| && x.chunks[i] == BasisChunk(Find(x, Key(H, c)).value, Key(H, c));
    assert bs[i] in bs && c in [c];
    SliceOfConcat(bs, i);
  }

  lemma ReferenceMeans(basis: seq<byte>, ops: seq<Op>, offset: nat, c: seq<byte>)
    requires offset + |c| <= |basis| && basis[offset..offset + |c|] == c
    ensures Output(basis, WithBasis(ops, offset, |c|)) == Output(basis, ops) + c
  {
    WithBasisMeans(basis, ops, offset, |c|);
  }

  lemma Planned1Means(H: Hash, x: BasisFileIndex, bs: seq<seq<byte>>, ops: seq<Op>, c: seq<byte>)
    requires ValidIndex(x) && x.chunks == IndexChunks(H, bs) && NoCollision(H, bs, [c])
    ensures Output(Concat(bs), Planned1(H, x, ops, c)) == Output(Concat(bs), ops) + c
  {
    match Find(x, Key(H, c))
    case Some(offset) =>
      FoundIsThere(H, x, bs, c);
      ReferenceMeans(Concat(bs), ops, offset, c);
    case None => WithLiteralMeans(Concat(bs), ops, c);
  }

  lemma NoCollisionParts(H: Hash, bs: seq<seq<byte>>, d: seq<seq<byte>>, c: seq<byte>)
    requires NoCollision(H, bs, d + [c])
    ensures NoCollision(H, bs, d) && NoCollision(H, bs, [c])
  {
    assert c in d + [c] && forall e :: e in d ==> e in d + [c];
  }

  lemma {:induction false} PlannedMeans(H: Hash, x: BasisFileIndex, bs: seq<seq<byte>>, cs: seq<seq<byte>>)
    requires ValidIndex(x) && x.chunks == IndexChunks(H, bs) && NoCollision(H, bs, cs)
    ensures Output(Concat(bs), Planned(H, x, cs)) == Concat(cs)
  {
    if cs != [] {
      var d, c := cs[..|cs| - 1], cs[|cs| - 1];
      assert cs == d + [c];
      NoCollisionParts(H, bs, d, c);
      PlannedMeans(H, x, bs, d);
      Planned1Means(H, x, bs, Planned(H, x, d), c);
      ConcatSnoc(d, c);
    }
  }

  /** The normal form in plain terms: nothing empty, no literal next to a literal, and no range that starts where
      the range before it ends. */
  lemma PlannedNeighbours(H: Hash, x: BasisFileIndex, cs: seq<seq<byte>>, i: nat)
    requires ValidIndex(x) && AllNonEmpty(cs) && i < |Planned(H, x, cs)|
    ensures var a := Planned(H, x, cs)[i];
      && (a.Basis? ==> a.length > 0 && a.offset + a.length <= x.fileBytes)
      && (a.Literal? ==> a.contents != [])
      && (i + 1 < |Planned(H, x, cs)| ==>
          var b := Planned(H, x, cs)[i + 1];
          !(a.Literal? && b.Literal?) && !(a.Basis? && b.Basis? && b.offset == a.offset + a.length))
  {
    PlannedIsNormal(H, x, cs);
    var ops := Planned(H, x, cs);
    assert NonEmpty(ops[i]) && OpInside(ops[i], x.fileBytes);
    if i + 1 < |ops| {
      assert !Mergeable(ops[i + 1 - 1], ops[i + 1]);
    }
  }

  /** The file a plan writes, operation by operation. */
  lemma OutputOf(basis: seq<byte>, ops: seq<Op>, offset: nat, length: nat, contents: seq<byte>)
    ensures Output(basis, []) == []
    ensures offset + length <= |basis| ==>
      Output(basis, ops + [Basis(offset, length)]) == Output(basis, ops) + basis[offset..offset + length]
    ensures Output(basis, ops + [Literal(contents)]) == Output(basis, ops) + contents
    ensures Referenced(ops + [Basis(offset, length)]) == Referenced(ops) + length
    ensures Literals(ops + [Literal(contents)]) == Literals(ops) + |contents|
    ensures Referenced(ops + [Literal(contents)]) == Referenced(ops)
    ensures Literals(ops + [Basis(offset, length)]) == Literals(ops)
    ensures Referenced([]) == 0 && Literals([]) == 0
  {
    OutputSnoc(basis, ops, Basis(offset, length));
    OutputSnoc(basis, ops, Literal(contents));
    SnocTotals(ops, Basis(offset, length));
    SnocTotals(ops, Literal(contents));
  }

  /** What is known and what is not, chunk by chunk. */
  lemma KnownChunkByChunk(H: Hash, x: BasisFileIndex, cs: seq<seq<byte>>, c: seq<byte>)
    ensures Find(x, Key(H, c)).Some? ==>
      Known(H, x, cs + [c]) == Known(H, x, cs) + |c| && Unknown(H, x, cs + [c]) == Unknown(H, x, cs)
    ensures Find(x, Key(H, c)).None? ==>
      Known(H, x, cs + [c]) == Known(H, x, cs) && Unknown(H, x, cs + [c]) == Unknown(H, x, cs) + |c|
    ensures Known(H, x, []) == 0 && Unknown(H, x, []) == 0
  {
    assert (cs + [c])[..|cs|] == cs;
  }

  /** The plan for the candidate `s` against the index `x`. */
  function PlanOf(H: Hash, t: GearTable, x: BasisFileIndex, s: seq<byte>): ReconstructionPlan
    requires ValidIndex(x)
  {
    var cs := Chunks(t, FromAverageKib(x.averageKib).value, s);
    ReconstructionPlan(|s|, H(s), Planned(H, x, cs), |cs|, Known(H, x, cs), Unknown(H, x, cs))
  }

  /** Replaying the plan of a candidate against the basis it was planned for gives the candidate,
      unless digests collide among the chunks of the two files. */
  lemma PlanRebuilds(H: Hash, t: GearTable, averageKib: nat, basis: seq<byte>, candidate: seq<byte>)
    requires LegalAverage(averageKib) && |basis| < U64
    requires var cfg := FromAverageKib(averageKib).value;
             NoCollision(H, Chunks(t, cfg, basis), Chunks(t, cfg, candidate))
    ensures ValidIndex(IndexOf(H, t, averageKib, basis))
    ensures var p := PlanOf(H, t, IndexOf(H, t, averageKib, basis), candidate);
            Inside(p.operations, |basis|) && Output(basis, p.operations) == candidate
  {
    var cfg := FromAverageKib(averageKib).value;
    var x := IndexOf(H, t, averageKib, basis);
    var bs, cs := Chunks(t, cfg, basis), Chunks(t, cfg, candidate);
    BuiltIndexIsValid(H, t, averageKib, basis);
    assert AllNonEmpty(cs) by {
      ChunkLengths(t, cfg, candidate);
    }
    PlannedRebuilds(H, x, bs, cs);
    ChunksConcat(t, cfg, basis);
    ChunksConcat(t, cfg, candidate);
    assert PlanOf(H, t, x, candidate).operations == Planned(H, x, cs);
  }

  lemma PlannedRebuilds(H: Hash, x: BasisFileIndex, bs: seq<seq<byte>>, cs: seq<seq<byte>>)
    requires ValidIndex(x) && x.chunks == IndexChunks(H, bs) && NoCollision(H, bs, cs) && AllNonEmpty(cs)
    ensures Inside(Planned(H, x, cs), x.fileBytes) && Output(Concat(bs), Planned(H, x, cs)) == Concat(cs)
  {
    PlannedMeans(H, x, bs, cs);
    PlannedIsNormal(H, x, cs);
  }

  // ---------------------------------------------------------------- cost of an edit

  lemma {:induction false} IndexedIsKnown(H: Hash, x: BasisFileIndex, bs: seq<seq<byte>>, cs: seq<seq<byte>>)
    requires ValidIndex(x) && x.chunks == IndexChunks(H, bs) && forall c :: c in cs ==> c in bs
    ensures Unknown(H, x, cs) == 0
  {
    if cs != [] {
      var c := cs[|cs| - 1];
      assert c in cs;
      var i :| 0 <= i < |bs| && bs[i] == c;
      assert x.chunks[i].key == Key(H, c);
      FindIsLeast(x, Key(H, c));
      IndexedIsKnown(H, x, bs, cs[..|cs| - 1]);
    }
  }

  /** An edit costs at most its own span in literals: if basis `p + m + w` and candidate `p + n + w`
      both have boundaries after `p` and before `w`, the plan's literal bytes are at most `|n|`. */
  lemma EditCost(H: Hash, t: GearTable, averageKib: nat, p: seq<byte>, m: seq<byte>, n: seq<byte>, w: seq<byte>)
    requires LegalAverage(averageKib) && |p + m + w| < U64
    requires var cfg := FromAverageKib(averageKib).value;
             BoundaryAt(t, cfg, p) && BoundaryAt(t, cfg, p + m) && BoundaryAt(t, cfg, p + n)
    ensures ValidIndex(IndexOf(H, t, averageKib, p + m + w))
    ensures PlanOf(H, t, IndexOf(H, t, averageKib, p + m + w), p + n + w).literalBytes <= |n|
  {
    var cfg := FromAverageKib(averageKib).value;
    var x := IndexOf(H, t, averageKib, p + m + w);
    BuiltIndexIsValid(H, t, averageKib, p + m + w);
    var bs := Chunks(t, cfg, p + m + w);
    var head, middle, rest := Closed(t, cfg, p), Closed(t, cfg, n), Chunks(t, cfg, w);
    assert bs == Closed(t, cfg, p) + Closed(t, cfg, m) + Chunks(t, cfg, w) by {
      ChunksAfterBoundary(t, cfg, p + m, w);
      ChunksAfterBoundary(t, cfg, p, m);
    }
    assert Chunks(t, cfg, p + n + w) == head + middle + rest && Concat(middle) == n by {
      ChunksAfterBoundary(t, cfg, p + n, w);
      ChunksAfterBoundary(t, cfg, p, n);
      ClosedConcat(t, cfg, n);
    }
    IndexedIsKnown(H, x, bs, head);
    IndexedIsKnown(H, x, bs, rest);
    UnknownAppend(H, x, head + middle, rest);
    UnknownAppend(H, x, head, middle);
    KnownAndUnknown(H, x, middle);
  }

  // ---------------------------------------------------------------- an unchanged file

  predicate DistinctKeys(H: Hash, cs: seq<seq<byte>>) {
    forall i, j :: 0 <= i < j < |cs| ==> Key(H, cs[i]) != Key(H, cs[j])
  }

  lemma FindsItself(H: Hash, x: BasisFileIndex, cs: seq<seq<byte>>, i: nat)
    requires ValidIndex(x) && x.chunks == IndexChunks(H, cs) && DistinctKeys(H, cs) && i < |cs|
    ensures Find(x, Key(H, cs[i])) == Some(|Concat(cs[..i])|)
  {
    var key := Key(H, cs[i]);
    FindIsLeast(x, key);
    assert x.chunks[i].key == key;
    var j :| 0 <= j < |cs| && x.chunks[j] == BasisChunk(Find(x, key).value, key);
    assert Key(H, cs[j]) == Key(H, cs[i]);
  }

  lemma {:induction false} UnchangedPrefix(H: Hash, x: BasisFileIndex, cs: seq<seq<byte>>, i: nat)
    requires ValidIndex(x) && x.chunks == IndexChunks(H, cs) && DistinctKeys(H, cs) && 0 < i <= |cs|
    ensures Planned(H, x, cs[..i]) == [Basis(0, |Concat(cs[..i])|)]
  {
    assert cs[..i][..i - 1] == cs[..i - 1];
    FindsItself(H, x, cs, i - 1);
    PrefixConcat(cs, i - 1);
    if i > 1 {
      UnchangedPrefix(H, x, cs, i - 1);
    }
  }

  /** A nonempty candidate equal to a basis whose chunk keys are pairwise distinct is planned as one
      range over the whole file. */
  lemma UnchangedIsOneRange(H: Hash, t: GearTable, averageKib: nat, s: seq<byte>)
    requires LegalAverage(averageKib) && 0 < |s| < U64
    requires DistinctKeys(H, Chunks(t, FromAverageKib(averageKib).value, s))
    ensures ValidIndex(IndexOf(H, t, averageKib, s))
    ensures PlanOf(H, t, IndexOf(H, t, averageKib, s), s).operations == [Basis(0, |s|)]
  {
    var cfg := FromAverageKib(averageKib).value;
    var cs := Chunks(t, cfg, s);
    BuiltIndexIsValid(H, t, averageKib, s);
    ChunkCount(t, cfg, s);
    ChunksConcat(t, cfg, s);
    assert cs[..|cs|] == cs;
    UnchangedPrefix(H, IndexOf(H, t, averageKib, s), cs, |cs|);
  }

  // ---------------------------------------------------------------- the builder

  predicate RangeOverflows(ops: seq<Op>, offset: nat, length: nat) {
    && ops != [] && Last(ops).Basis?
    && (|| Last(ops).offset + Last(ops).length >= U64
        || (Last(ops).offset + Last(ops).length == offset && Last(ops).length + length >= U64))
  }

  /** The mutable state of `build_bounded`: the growing operations and the running totals. */
  class PlanBuilder {
    var operations: seq<Op>
    var hashed: seq<byte>
    var referencedBytes: nat
    var literalBytes: nat

    constructor ()
      ensures operations == [] && hashed == [] && referencedBytes == 0 && literalBytes == 0
    {
      operations, hashed, referencedBytes, literalBytes := [], [], 0, 0;
    }

    method AppendBasis(offset: nat, length: nat) returns (r: Result<()>)
      modifies this`operations
      ensures r.Ok? <==> length > 0 && !RangeOverflows(old(operations), offset, length)
      ensures operations == if r.Ok? then WithBasis(old(operations), offset, length) else old(operations)
    {
      if length == 0 {
        return Err(InvalidInput);
      }
      if operations != [] && Last(operations).Basis? {
        var previous := Last(operations);
        if previous.offset + previous.length >= U64 {
          return Err(Overflow);
        }
        if previous.offset + previous.length == offset {
          if previous.length + length >= U64 {
            return Err(Overflow);
          }
          operations := operations[|operations| - 1 := Basis(previous.offset, previous.length + length)];
          return Ok(());
        }
      }
      operations := operations + [Basis(offset, length)];
      r := Ok(());
    }

    method AppendLiteral(contents: seq<byte>) returns (r: Result<()>)
      modifies this`operations
      ensures r.Ok? <==> contents != []
      ensures operations == if r.Ok? then WithLiteral(old(operations), contents) else old(operations)
    {
      if contents == [] {
        return Err(InvalidInput);
      }
      if operations != [] && Last(operations).Literal? {
        var previous := Last(operations);
        operations := operations[|operations| - 1 := Literal(previous.contents + contents)];
        return Ok(());
      }
      operations := operations + [Literal(contents)];
      r := Ok(());
    }

    /** The builder has planned exactly the chunks `cs`. */
    ghost predicate Built(H: Hash, x: BasisFileIndex, cs: seq<seq<byte>>)
      reads this
    {
      && operations == Planned(H, x, cs) && hashed == Concat(cs)
      && referencedBytes == Known(H, x, cs) && literalBytes == Unknown(H, x, cs)
    }

    /** The visitor of `build_bounded`: it plans the chunk, or stops because the literals would
        exceed the bound; nothing else can stop it. */
    method Visit(H: Hash, x: BasisFileIndex, contents: seq<byte>, maximumLiteralBytes: nat, ghost cs: seq<seq<byte>>)
      returns (r: Result<()>)
      requires ValidIndex(x) && Built(H, x, cs) && AllNonEmpty(cs) && contents != []
      requires |Concat(cs)| + |contents| < U64
      modifies this
      ensures r.Ok? <==> Unknown(H, x, cs + [contents]) <= maximumLiteralBytes || Find(x, Key(H, contents)).Some?
      ensures r.Ok? ==> Built(H, x, cs + [contents])
      ensures r.Err? ==> r.error == LiteralLimitExceeded
    {
      ghost var next := cs + [contents];
      assert next[..|next| - 1] == cs;
      ConcatSnoc(cs, contents);
      PlannedIsNormal(H, x, cs);
      KnownAndUnknown(H, x, cs);
      hashed := hashed + contents;
      var key := ChunkKey(H(contents), |contents|);
      FindIsLeast(x, key);
      match Find(x, key)
      case Some(offset) =>
        assert !RangeOverflows(operations, offset, |contents|);
        r := AppendBasis(offset, |contents|);
        assert referencedBytes + |contents| < U64;
        referencedBytes := referencedBytes + |contents|;
      case None =>
        var next := literalBytes + |contents|;
        assert next < U64;
        if next > maximumLiteralBytes {
          return Err(LiteralLimitExceeded);
        }
        r := AppendLiteral(contents);
        literalBytes := next;
    }
  }

  method PlanPieces(H: Hash, x: BasisFileIndex, pieces: seq<Piece>, maximumLiteralBytes: nat, ghost cs: seq<seq<byte>>)
    returns (b: PlanBuilder, r: Result<()>)
    requires ValidIndex(x) && pieces == Placed(cs) && AllNonEmpty(cs) && |Concat(cs)| < U64
    ensures r.Ok? <==> Unknown(H, x, cs) <= maximumLiteralBytes
    ensures r.Ok? ==> b.Built(H, x, cs)
    ensures r.Err? ==> r.error == LiteralLimitExceeded
  {
    b := new PlanBuilder();
    for i := 0 to |pieces|
      invariant b.Built(H, x, cs[..i])
      invariant Unknown(H, x, cs[..i]) <= maximumLiteralBytes
    {
      PrefixConcat(cs, i);
      assert cs == cs[..i + 1] + cs[i + 1..] && cs[..i + 1] == cs[..i] + [cs[i]];
      ConcatAppend(cs[..i + 1], cs[i + 1..]);
      assert cs[..i + 1][..i] == cs[..i];
      r := b.Visit(H, x, pieces[i].contents, maximumLiteralBytes, cs[..i]);
      if r.Err? {
        UnknownAppend(H, x, cs[..i + 1], cs[i + 1..]);
        return;
      }
    }
    assert cs[..|cs|] == cs;
    r := Ok(());
  }

  /** The chunks the planner sees: all of the file, or those closed before its reader failed. */
  function Emitted(t: GearTable, cfg: ChunkConfig, script: seq<Read>): seq<seq<byte>> {
    if ReadFails(script) then Closed(t, cfg, Delivered(script)) else Chunks(t, cfg, Delivered(script))
  }

  lemma EmittedBounds(t: GearTable, cfg: ChunkConfig, script: seq<Read>)
    requires ValidConfig(cfg)
    ensures AllNonEmpty(Emitted(t, cfg, script)) && |Concat(Emitted(t, cfg, script))| <= |Delivered(script)|
  {
    var s := Delivered(script);
    ChunkLengths(t, cfg, s);
    ClosedLengths(t, cfg, s);
    ClosedConcat(t, cfg, s);
    ChunksConcat(t, cfg, s);
  }

  /** `build_bounded` on a candidate file of fewer than 2^64 bytes: it gives up with the literal limit
      exactly when the chunks it saw have more unknown bytes than the bound, and otherwise succeeds
      exactly when the file had the expected length, with the plan of that file. */
  method BuildBounded(H: Hash, t: GearTable, script: seq<Read>, expectedBytes: nat, x: BasisFileIndex,
                      maximumLiteralBytes: nat)
    returns (r: Result<ReconstructionPlan>)
    requires ValidIndex(x) && |Delivered(script)| < U64
    ensures r == Err(LiteralLimitExceeded) <==>
      Unknown(H, x, Emitted(t, FromAverageKib(x.averageKib).value, script)) > maximumLiteralBytes
    ensures r.Ok? <==>
      && !ReadFails(script) && |Delivered(script)| == expectedBytes
      && PlanOf(H, t, x, Delivered(script)).literalBytes <= maximumLiteralBytes
    ensures r.Ok? ==> r.value == PlanOf(H, t, x, Delivered(script))
    ensures r.Ok? ==>
      && r.value.targetBytes == |Delivered(script)| && r.value.targetDigest == H(Delivered(script))
      && r.value.candidateChunks == |Chunks(t, FromAverageKib(x.averageKib).value, Delivered(script))|
      && r.value.referencedBytes == Referenced(r.value.operations)
      && r.value.literalBytes == Literals(r.value.operations) <= maximumLiteralBytes
  {
    var cfg := FromAverageKib(x.averageKib).value;
    var scan := ChunkReader(t, cfg, script);
    ghost var cs := Emitted(t, cfg, script);
    EmittedBounds(t, cfg, script);
    var builder, visited := PlanPieces(H, x, scan.pieces, maximumLiteralBytes, cs);
    if visited.Err? {
      return Err(visited.error);
    }
    if scan.status.Err? {
      return Err(scan.status.error);
    }
    ChunksConcat(t, cfg, Delivered(script));
    StatsTotals(cs);
    KnownAndUnknown(H, x, cs);
    PlannedIsNormal(H, x, cs);
    if scan.stats.bytes != expectedBytes {
      return Err(InvalidData);
    }
    assert builder.referencedBytes + builder.literalBytes == expectedBytes;
    r := Ok(ReconstructionPlan(expectedBytes, H(builder.hashed), builder.operations, scan.stats.chunks,
                               builder.referencedBytes, builder.literalBytes));
  }
}
