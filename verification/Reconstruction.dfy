/** Replaying a plan into a temporary file and swapping it in (src/cdc_reconstruction_bench.rs), and the
    whole pipeline from two files to a third. */
module Reconstruction {

  import opened Bytes
  import opened Chunker
  import opened BasisIndex
  import opened Plan
  import opened PlanWire

  type Path = string

  const RECONSTRUCTION_BUFFER_BYTES: nat := 1024 * 1024

  /** The plan replays to a file of the length and digest it announces. */
  predicate Replays(H: Hash, basis: seq<byte>, p: ReconstructionPlan) {
    && Inside(p.operations, |basis|)
    && |Output(basis, p.operations)| == p.targetBytes
    && H(Output(basis, p.operations)) == p.targetDigest
  }

  /** For a plan the decoder accepts, whose ranges lie inside the basis, the length is right by itself: it is
      the sum of the two byte totals, and only the digest decides whether the plan replays. */
  lemma DigestDecides(H: Hash, basis: seq<byte>, p: ReconstructionPlan)
    requires ValidPlan(p) && Inside(p.operations, |basis|)
    ensures |Output(basis, p.operations)| == p.referencedBytes + p.literalBytes == p.targetBytes
    ensures Replays(H, basis, p) <==> H(Output(basis, p.operations)) == p.targetDigest
  {
    OutputLength(basis, p.operations);
  }

  // ---------------------------------------------------------------- the output file

  /** `out` written from the start of a file of `n` bytes, all zero before. */
  function Filled(n: nat, out: seq<byte>): seq<byte> {
    if |out| < n then out + seq(n - |out|, _ => 0) else out
  }

  /** An open file with a write position, on a device that may fail unless it is `reliable`. */
  class OutputFile {
    var content: seq<byte>
    var position: nat
    const reliable: bool

    constructor (reliable: bool)
      ensures content == [] && position == 0 && this.reliable == reliable
    {
      content, position := [], 0;
      this.reliable := reliable;
    }

    /** `set_len` on the new file, then a seek to the start. */
    method Reset(n: nat)
      requires content == []
      modifies this
      ensures content == Filled(n, []) && position == 0
    {
      content, position := seq(n, _ => 0), 0;
    }

    /** `write_all`: it overwrites from the position on, and extends the file past its end. A failing
        write may leave anything behind. */
    method WriteAll(bytes: seq<byte>, ghost n: nat, ghost out: seq<byte>) returns (ok: bool)
      requires content == Filled(n, out) && position == |out|
      modifies this
      ensures ok ==> content == Filled(n, out + bytes) && position == |out + bytes|
      ensures reliable ==> ok
    {
      var failing: bool := *;
      if failing && !reliable {
        content := *;
        return false;
      }
      var end := position + |bytes|;
      content := content[..position] + bytes + if end < |content| then content[end..] else [];
      position := end;
      ok := true;
    }
  }

  // ---------------------------------------------------------------- replay

  lemma CopiedMore(hashed: seq<byte>, basis: seq<byte>, i: nat, j: nat, k: nat)
    requires i <= j <= k <= |basis|
    ensures hashed + basis[i..j] + basis[j..k] == hashed + basis[i..k]
  {
    SplitSlice(basis, i, j, k);
  }

  /** The copy loop for one basis range, with reads of any size up to the request. */
  method CopyRange(output: OutputFile, basis: seq<byte>, offset: nat, length: nat, hashed: seq<byte>, written: nat,
                   ghost n: nat)
    returns (r: Result<()>, hashed': seq<byte>, written': nat)
    requires offset + length <= |basis| && |basis| < U64
    requires output.content == Filled(n, hashed) && output.position == |hashed| == written < U64
    modifies output
    ensures r.Ok? ==>
      && hashed' == hashed + basis[offset..offset + length]
      && output.content == Filled(n, hashed') && output.position == |hashed'| == written' < U64
    ensures r.Err? ==> (r.error == Fault && !output.reliable) || (r.error == Overflow && written + length >= U64)
  {
    hashed', written' := hashed, written;
    var remaining: nat, at: nat := length, offset;
    while remaining > 0
      invariant at + remaining == offset + length && offset <= at
      invariant hashed' == hashed + basis[offset..at]
      invariant output.content == Filled(n, hashed') && output.position == |hashed'| == written' < U64
    {
      var requested := if remaining <= RECONSTRUCTION_BUFFER_BYTES then remaining else RECONSTRUCTION_BUFFER_BYTES;
      var read: nat :| 0 <= read <= requested && (output.reliable ==> read > 0);
      if read == 0 {
        return Err(Fault), hashed', written';
      }
      var block := basis[at..at + read];
      var ok := output.WriteAll(block, n, hashed');
      if !ok {
        return Err(Fault), hashed', written';
      }
      CopiedMore(hashed, basis, offset, at, at + read);
      hashed' := hashed' + block;
      remaining, at := remaining - read, at + read;
      if written' + read >= U64 {
        return Err(Overflow), hashed', written';
      }
      written' := written' + read;
    }
    r := Ok(());
  }

  lemma OutputPrefix(basis: seq<byte>, ops: seq<Op>, i: nat)
    requires i < |ops|
    ensures Output(basis, ops[..i + 1]) == Output(basis, ops[..i]) + OpOutput(basis, ops[i])
  {
    assert ops[..i + 1] == ops[..i] + [ops[i]];
    OutputSnoc(basis, ops[..i], ops[i]);
  }

  lemma {:induction false} OutputGrows(basis: seq<byte>, ops: seq<Op>, i: nat)
    requires i <= |ops|
    ensures |Output(basis, ops[..i])| <= |Output(basis, ops)|
    decreases |ops| - i
  {
    if i < |ops| {
      OutputPrefix(basis, ops, i);
      OutputGrows(basis, ops, i + 1);
    } else {
      assert ops[..i] == ops;
    }
  }

  /** One operation of the replay. */
  method ReplayOp(output: OutputFile, basis: seq<byte>, op: Op, hashed: seq<byte>, written: nat, ghost n: nat)
    returns (r: Result<()>, hashed': seq<byte>, written': nat)
    requires |basis| < U64
    requires output.content == Filled(n, hashed) && output.position == |hashed| == written < U64
    modifies output
    ensures r.Ok? ==>
      && OpInside(op, |basis|) && hashed' == hashed + OpOutput(basis, op)
      && output.content == Filled(n, hashed') && output.position == |hashed'| == written' < U64
    ensures r.Err? && r.error != Fault ==> !OpInside(op, |basis|) || |hashed| + |OpOutput(basis, op)| >= U64
    ensures r == Err(Fault) ==> !output.reliable
  {
    match op {
      case Basis(offset, length) =>
        if offset + length >= U64 || offset + length > |basis| {
          return Err(InvalidData), hashed, written;
        }
        r, hashed', written' := CopyRange(output, basis, offset, length, hashed, written, n);
      case Literal(contents) =>
        var ok := output.WriteAll(contents, n, hashed);
        if !ok {
          return Err(Fault), hashed, written;
        }
        if written + |contents| >= U64 {
          return Err(Overflow), hashed, written;
        }
        r, hashed', written' := Ok(()), hashed + contents, written + |contents|;
    }
  }

  /** `reconstruct_into`: absent faults it succeeds exactly when the plan replays, and then the file
      holds exactly what the plan means. */
  method ReconstructInto(H: Hash, output: OutputFile, basis: seq<byte>, p: ReconstructionPlan)
    returns (r: Result<Digest>)
    requires |basis| < U64 && p.targetBytes < U64 && output.content == []
    modifies output
    ensures r.Ok? ==> Replays(H, basis, p) && output.content == Output(basis, p.operations) && r.value == p.targetDigest
    ensures r.Err? && r.error != Fault ==> !Replays(H, basis, p)
    ensures r == Err(Fault) ==> !output.reliable
  {
    output.Reset(p.targetBytes);
    ghost var n := p.targetBytes;
    var hashed: seq<byte>, written := [], 0;
    var ops := p.operations;
    for i := 0 to |ops|
      invariant Inside(ops[..i], |basis|) && hashed == Output(basis, ops[..i])
      invariant output.content == Filled(n, hashed) && output.position == |hashed| == written < U64
    {
      OutputPrefix(basis, ops, i);
      OutputGrows(basis, ops, i + 1);
      var step, h, w := ReplayOp(output, basis, ops[i], hashed, written, n);
      if step.Err? {
        return Err(step.error);
      }
      hashed, written := h, w;
    }
    assert ops[..|ops|] == ops;
    var failing: bool := *;
    if failing && !output.reliable {
      return Err(Fault);
    }
    if written != p.targetBytes {
      return Err(InvalidData);
    }
    var digest := H(hashed);
    if digest != p.targetDigest {
      return Err(InvalidData);
    }
    r := Ok(digest);
  }

  // ---------------------------------------------------------------- swapping the file in

  /** The files by path. Any operation on a file system that is not `reliable` may fail. */
  class FileSystem {
    var files: map<Path, seq<byte>>
    const reliable: bool

    constructor (reliable: bool)
      ensures files == map[] && this.reliable == reliable
    {
      files := map[];
      this.reliable := reliable;
    }

    /** Whether some other operation fails now. */
    method Fails() returns (failing: bool)
      ensures failing ==> !reliable
    {
      var b: bool := *;
      failing := b && !reliable;
    }

    /** `windows_file_replace::replace`: atomic, or it fails and changes nothing. */
    method Replace(source: Path, destination: Path) returns (ok: bool)
      requires source in files && source != destination
      modifies this
      ensures files == if ok then old(files)[destination := old(files)[source]] - {source} else old(files)
      ensures reliable ==> ok
    {
      var failing := Fails();
      if failing {
        return false;
      }
      files := files[destination := files[source]] - {source};
      ok := true;
    }
  }

  /** The environment may keep a reconstruction from finishing: the file system can fail, or the temporary
      path is taken. */
  predicate Obstructed(fs: FileSystem, files: map<Path, seq<byte>>, outputPath: Path, suffix: string) {
    !fs.reliable || outputPath + suffix in files
  }

  /** `reconstruct` is all or nothing, also when basis and output are the same path and whatever the
      plan contains: afterwards the file system is unchanged, or the output alone has changed, to a
      file of the announced length and digest. No temporary file is left in either case. */
  method Reconstruct(H: Hash, fs: FileSystem, basisPath: Path, outputPath: Path, suffix: string,
                     expectedBasisBytes: nat, p: ReconstructionPlan) returns (r: Result<Digest>)
    requires suffix != "" && p.targetBytes < U64
    requires basisPath in fs.files ==> |fs.files[basisPath]| < U64
    modifies fs
    ensures
      || fs.files == old(fs.files)
      || (&& basisPath in old(fs.files) && Replays(H, old(fs.files)[basisPath], p)
          && fs.files == old(fs.files)[outputPath := Output(old(fs.files)[basisPath], p.operations)])
    ensures r.Ok? ==>
      && basisPath in old(fs.files) && |old(fs.files)[basisPath]| == expectedBasisBytes
      && Replays(H, old(fs.files)[basisPath], p) && r.value == p.targetDigest
      && fs.files == old(fs.files)[outputPath := Output(old(fs.files)[basisPath], p.operations)]
    ensures r.Err? && r.error != Fault ==>
      && fs.files == old(fs.files) && basisPath in fs.files
      && (|fs.files[basisPath]| != expectedBasisBytes || !Replays(H, fs.files[basisPath], p))
    ensures r == Err(Fault) ==> basisPath !in old(fs.files) || Obstructed(fs, old(fs.files), outputPath, suffix)
  {
    var temporaryPath := outputPath + suffix;
    assert |temporaryPath| > |outputPath|;
    if basisPath !in fs.files {
      return Err(Fault);
    }
    var failing := fs.Fails();
    if failing {
      return Err(Fault);
    }
    var basis := fs.files[basisPath];
    if |basis| != expectedBasisBytes {
      return Err(InvalidData);
    }
    if temporaryPath in fs.files {
      return Err(Fault);
    }
    failing := fs.Fails();
    if failing {
      return Err(Fault);
    }
    var output := new OutputFile(fs.reliable);
    var written := ReconstructInto(H, output, basis, p);
    fs.files := fs.files[temporaryPath := output.content];
    if written.Err? {
      fs.files := fs.files - {temporaryPath};
      assert fs.files == old(fs.files);
      return Err(written.error);
    }
    var replaced := fs.Replace(temporaryPath, outputPath);
    if !replaced {
      fs.files := fs.files - {temporaryPath};
      assert fs.files == old(fs.files);
      return Err(Fault);
    }
    assert fs.files == old(fs.files)[outputPath := output.content];
    failing := fs.Fails();
    if failing {
      return Err(Fault);
    }
    assert |fs.files[outputPath]| == p.targetBytes;
    r := Ok(written.value);
  }

  // ---------------------------------------------------------------- the whole pipeline

  /** A file read in any pieces, without failures. */
  predicate Reads(script: seq<Read>, file: seq<byte>) {
    !ReadFails(script) && Delivered(script) == file
  }

  /** Any cutting of a file into nonempty reads, with interruptions anywhere, reads it. */
  lemma {:induction false} CutsRead(pieces: seq<seq<byte>>)
    requires forall i | 0 <= i < |pieces| :: pieces[i] != []
    ensures Reads(AsReads(pieces), Concat(pieces)) && Reads([Interrupted] + AsReads(pieces), Concat(pieces))
  {
    if pieces != [] {
      CutsRead(pieces[1..]);
      ReadScripts(Data(pieces[0]), AsReads(pieces[1..]));
    } else {
      ReadScripts(Interrupted, []);
    }
    ReadScripts(Interrupted, AsReads(pieces));
  }

  function AsReads(pieces: seq<seq<byte>>): seq<Read> {
    if pieces == [] then [] else [Data(pieces[0])] + AsReads(pieces[1..])
  }

  /** `run`: index the basis, send the index through its codec, plan the candidate, send the plan
      through its codec, replay it. For every pair of stable files it yields exactly the candidate,
      given no digest collision among their chunks; only an obstruction by the environment can stop it.
      Whatever happens, the output is untouched or has the length and digest of the candidate as it
      was read. */
  method Run(H: Hash, t: GearTable, fs: FileSystem, basisPath: Path, candidatePath: Path, outputPath: Path,
             suffix: string, averageKib: nat, basisScript: seq<Read>, candidateScript: seq<Read>)
    returns (r: Result<Digest>)
    requires suffix != "" && basisPath in fs.files && candidatePath in fs.files
    requires |fs.files[basisPath]| < U64 && |fs.files[candidatePath]| < U64 && |Delivered(candidateScript)| < U64
    modifies fs
    ensures fs.files == old(fs.files) || exists content ::
      && fs.files == old(fs.files)[outputPath := content]
      && |content| == |Delivered(candidateScript)| && H(content) == H(Delivered(candidateScript))
    ensures
      var basis, candidate := old(fs.files)[basisPath], old(fs.files)[candidatePath];
      && LegalAverage(averageKib) && |candidate| < 0x8000_0000_0000_0000
      && Reads(basisScript, basis) && Reads(candidateScript, candidate)
      && NoCollision(H, Chunks(t, FromAverageKib(averageKib).value, basis),
                     Chunks(t, FromAverageKib(averageKib).value, candidate))
      ==>
        && (r.Err? ==> r.error == Fault && (!fs.reliable || outputPath + suffix in old(fs.files)))
        && (r.Ok? ==> fs.files == old(fs.files)[outputPath := candidate] && r.value == H(candidate))
  {
    ghost var basis, candidate := fs.files[basisPath], fs.files[candidatePath];
    var receiverIndex := BuildFromReader(H, t, basisScript, |fs.files[basisPath]|, averageKib);
    if receiverIndex.Err? {
      return Err(receiverIndex.error);
    }
    var x := receiverIndex.value;
    WireFits(x);
    var indexWire := EncodeWire(x);
    var decodedIndex := DecodeWire(indexWire.value);
    var senderIndex := decodedIndex.value;
    WireIsInjective(x, senderIndex);
    var built := BuildBounded(H, t, candidateScript, |fs.files[candidatePath]|, senderIndex, U64 - 1);
    BuiltPlanIsValid(H, t, x, Delivered(candidateScript));
    if built.Err? {
      return Err(built.error);
    }
    var senderPlan := built.value;
    if |candidate| < 0x8000_0000_0000_0000 {
      BuiltPlanFits(H, t, x, candidate);
    }
    var planWire := EncodePlan(senderPlan);
    if planWire.Err? {
      return Err(planWire.error);
    }
    var decodedPlan := DecodePlan(planWire.value);
    var receiverPlan := decodedPlan.value;
    WirePlanIsInjective(senderPlan, receiverPlan);
    assert receiverPlan.operations == senderPlan.operations && receiverPlan.targetDigest == senderPlan.targetDigest;
    ghost var cfg := FromAverageKib(averageKib).value;
    if Reads(candidateScript, candidate) && NoCollision(H, Chunks(t, cfg, basis), Chunks(t, cfg, candidate)) {
      PlanRebuilds(H, t, averageKib, basis, candidate);
    }
    r := Reconstruct(H, fs, basisPath, outputPath, suffix, senderIndex.fileBytes, receiverPlan);
  }
}
