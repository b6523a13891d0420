# NetworkCopy Speed Edition, verified core

NetworkCopy moves folders between Windows machines. This project models the parts of its transfer engine
whose correctness is least visible from any one function, in Dafny, and proves what they promise for every
input, every way the environment can split or reorder the work, and every run.

- **Content-defined reuse.** The receiver cuts its old file into chunks where a Gear rolling hash says so
  (`Chunker`), indexes the chunks by digest (`BasisIndex`), and sends the index. The sender cuts the new
  file the same way and answers with a plan of copies and literals (`Plan`, `PlanWire`). The receiver
  replays the plan into a temporary file, checks it and swaps it in (`Reconstruction`). `LaneWire` and
  `Lane` are the two-party negotiation around it, `DedupScan` is the benchmark scanner that must agree
  with the planner.
- **Completion-port copy.** A pool of operations reads and writes chunks while the kernel completes them in
  any order (`IocpLedger` holds the invariant, `IocpCopy` the engine).
- **Payload records.** Raw or chunk-compressed records with a trailing digest, read back with buffers of
  another size (`Payload`).
- **Control plane.** Registration of the connections of a session in any order (`Registration`), the
  FNV-1a fingerprint (`Fingerprint`) and the manifest exchange (`Manifest`; its bytes and what its summary
  tells apart are in `ManifestLaws`).
- **Discovery.** Scores of an agent's addresses (`Affinity`) and the choice of one per agent
  (`Discovery`).

`Bytes` holds the fixed-width integers and the result type they all share. `dafny verify dfyconfig.toml`
checks everything.

## How to read the model

- BLAKE3 is a parameter `H` of type `Hash`, any function from byte strings to 32-byte digests. Where a
  result needs that digests tell chunks apart, that is a hypothesis over the chunks of the two files at
  hand (`Plan.NoCollision`). Zstandard is a pair of functions with the law `Payload.Sound`. The Gear table
  is any 256 words.
- A file read is a script of reads: pieces of any size, interruptions that are retried, failures, the end.
- What the environment may do is a nondeterministic choice in a method body, so every proof covers every
  choice. A fault of the environment is the error `Fault`; the contracts say when it can occur. The kernel
  of the copy engine records in `faulted` whether it ever failed, and a file system has a flag `reliable`
  that rules faults out, so that the positive halves ("it succeeds exactly when ...") can be stated.
- A `ghost` parameter such as `sent` or `p` stands for any value: the contract says what happens if that
  value is what is on the stream. This states the completeness of a decoder without a quantifier. A ghost
  result names the record that was sent or read.
- The eight counters of the lane are kept in three groups (files, file bytes, wire bytes), in the source's order.
- Beside the definitions stand lemmas that say the same in plain terms: the wire formats byte by byte (`WireAt`,
  `PlanAt`, `FrameAt`, `NodeAt`, ...), the limits in numbers (`OffersMean`, `AcceptableMeans`, ...) and the chunker,
  the hash and the scores without their own definitions (`ClosedAreContentDefined`, `OneMoreByte`, `BestPartByPart`).
- Checked additions are written out with the bound `U64`, wrapping arithmetic with `% U64`, and casts that
  can truncate with their range.

Places where the code does less or more than one would expect, all kept as they are:

- `LaneTotals.Merge` stops at the first counter that overflows and leaves the earlier ones merged; balanced
  totals stay balanced nevertheless.
- After the registration loop the checks for a missing data stream and a missing control stream cannot
  fail: `n + 1` accepted connections are already a complete session.
- In the copy engine the overflow checks and the range check of `request_size` cannot fail.
- `send_payload` over an empty range succeeds wherever the range lies, also beyond the end of the file.
- Agent deduplication sorts by printed endpoint and so cannot tell apart two IPv6 endpoints of one agent that
  differ in their flow labels alone: swapping the two answers swaps the choice (`Discovery.FlowLabelsTie`). The
  order of the answers is irrelevant exactly when no agent has two different endpoints that tie for the best
  (`Discovery.OrderIsIrrelevantExactly`). The endpoints that discovery itself builds have no flow label
  (src/management_discovery.rs:855), so there the order never matters (`Discovery.OrderDoesNotMatter`).
- A manifest with a path that cannot be sent is refused only after its beginning has been written; the receiver
  takes no such beginning for a manifest (`Manifest.BrokenOffIsNoManifest`).

## Model

| member | source | states |
|---|---|---|
| `Bytes.FromLEOfLE` | src/cdc_basis_index.rs:413-445 | little-endian encoding of a value in range reads back as the value |
| `Bytes.LEOfFromLE` | src/cdc_basis_index.rs:413-445 | reading bytes little-endian and writing them again gives the same bytes |
| `Bytes.LECons` | src/cdc_basis_index.rs:413-445 | the low byte comes first |
| `Bytes.FromBEOfBE` | src/control_plane.rs:915-953 | big-endian encoding of a value in range reads back as the value |
| `Bytes.BEOfFromBE` | src/control_plane.rs:915-953 | reading bytes big-endian and writing them again gives the same bytes |
| `Bytes.BESnoc` | src/control_plane.rs:915-953 | the low byte comes last |
| `Chunker.FromAverageKib` | src/content_defined_dedup_bench.rs:97-119 | a configuration exists exactly for the legal averages; the minimum is half the average and the maximum twice it, and the logarithm of the minimum is 11 to 21 |
| `Chunker.LegalAveragesAre` | src/content_defined_dedup_bench.rs:242-261 | the legal averages are the powers of two from 4 KiB to 4 MiB |
| `Chunker.MaskIsLow` | src/content_defined_dedup_bench.rs:430-445 | the boundary mask keeps exactly the low bits of the hash |
| `Chunker.GearIsWeighted` | src/content_defined_dedup_bench.rs:553-560 | the hash is the sum of the table words, each weighted by a power of two by its distance from the end, modulo 2^64 |
| `Chunker.GearForgets` | src/content_defined_dedup_bench.rs:553-560 | after n bytes the low n bits of the hash no longer depend on its earlier state |
| `Chunker.CutIsFirst` | src/content_defined_dedup_bench.rs:424-447 | a chunk ends at the first position where the test succeeds, and nowhere before |
| `Chunker.ClosedAreContentDefined` | src/content_defined_dedup_bench.rs:424-447 | a closed chunk ends at the maximum length or, from the minimum on, where the low log2(minimum) bits of its hash are zero, and at no earlier such place; the open rest has no such place |
| `Chunker.ChunksAreContentDefined` | src/content_defined_dedup_bench.rs:424-457 | the same of the chunks of a whole file |
| `Chunker.ClosedAppend` | src/content_defined_dedup_bench.rs:424-447 | chunking what follows depends on the past only through the open chunk |
| `Chunker.StepByte` | src/content_defined_dedup_bench.rs:424-447 | every byte either closes the open chunk or extends it |
| `Chunker.ChunksConcat` | src/content_defined_dedup_bench.rs:394-457 | the chunks of any file concatenate to it |
| `Chunker.ChunkLengths` | src/content_defined_dedup_bench.rs:424-457 | every chunk is nonempty and at most the maximum; all but the last are at least the minimum |
| `Chunker.ChunkCount` | src/content_defined_dedup_bench.rs:424-457 | n chunks of L > 0 bytes satisfy (n-1)*min < L <= n*max |
| `Chunker.ChunksAfterBoundary` | src/content_defined_dedup_bench.rs:424-447 | after a boundary the chunking does not depend on what came before |
| `Chunker.Resynchronise` | src/content_defined_dedup_bench.rs:424-447 | files with a common suffix and a boundary at its start have identical later chunks; boundaries inside a common prefix coincide |
| `Chunker.TestIgnoresHistory` | src/content_defined_dedup_bench.rs:430-445 | the boundary test gives the same answer whatever the hash saw before the chunk |
| `Chunker.TestLooksBack` | src/content_defined_dedup_bench.rs:430-445 | two histories whose last log2(minimum) bytes agree, 11 to 21 of them, give the same boundary test |
| `Chunker.StreamIsClosed` | src/content_defined_dedup_bench.rs:424-447 | the byte-by-byte segmenter, resetting or not, closes exactly the chunks of the definition |
| `Chunker.ResetIsUnobservable` | src/content_defined_dedup_bench.rs:553-569 | a chunker that never resets its hash emits the same chunks |
| `Chunker.StatsMeaning` | src/content_defined_dedup_bench.rs:459-490 | the totals are the byte count, the chunk count and the attained extremes |
| `Chunker.CountChunk` | src/content_defined_dedup_bench.rs:459-490 | emitting one chunk updates the totals to those of the longer list, or reports the overflow |
| `Chunker.ScanByte` | src/content_defined_dedup_bench.rs:424-447 | one byte takes the scan from the state after s to the state after s and that byte |
| `Chunker.ReadScripts` | src/content_defined_dedup_bench.rs:411-422 | interruptions are retried, an empty read ends the file, a failure ends the scan |
| `Chunker.PlacedMeans` | src/content_defined_dedup_bench.rs:434-446 | the emitted pieces lie end to end and each is the part of the file at its offset |
| `Chunker.ChunkReader` | src/content_defined_dedup_bench.rs:394-457 | for any splitting into reads, the emitted chunks are the content-defined chunks of the delivered bytes, each the part of the file at its offset; success is characterised exactly, and a failing read leaves the chunks already closed |
| `BasisIndex.FirstLocationsMeaning` | src/cdc_basis_index.rs:53-92 | the map has exactly the occurring keys, each with its first chunk |
| `BasisIndex.FindIsLeast` | src/cdc_basis_index.rs:114-116 | in a built or decoded index, find gives the least offset of a chunk with the key, inside the file, or none exactly when there is none |
| `BasisIndex.ValidIndexMeans` | src/cdc_basis_index.rs:150-252 | a valid index has a legal average, nonempty chunks end to end over the file, none above twice the average and none but the last below half of it |
| `BasisIndex.ThatIsAValidIndex` | src/cdc_basis_index.rs:150-252 | and that is all the decoder demands |
| `BasisIndex.BuiltIndexIsValid` | src/cdc_basis_index.rs:53-92 | every index built from any file meets everything the decoder validates |
| `BasisIndex.IndexAt` | src/cdc_basis_index.rs:64-72 | each chunk of an index has the offset, length and digest of a chunk of the file |
| `BasisIndex.IndexPieces` | src/cdc_basis_index.rs:60-72 | the visitor records every chunk in order and the first offset of each key |
| `BasisIndex.BuildFromReader` | src/cdc_basis_index.rs:53-92 | it succeeds exactly on a legal average and a reader that delivers the expected length, with the index of those bytes |
| `BasisIndex.WireFits` | src/cdc_basis_index.rs:406-411 | the wire size of a valid index never overflows |
| `BasisIndex.EncodeWire` | src/cdc_basis_index.rs:118-148 | encoding yields the wire format, and fails only when a count cannot be represented |
| `BasisIndex.WireAt` | src/cdc_basis_index.rs:118-148 | the index on the wire byte by byte: magic, average, size, count, then offset, length and digest of each chunk |
| `BasisIndex.DecodeWire` | src/cdc_basis_index.rs:150-252 | a byte string is accepted if and only if it is the wire of a valid index, and that index is returned; a size that overflows has its own error |
| `BasisIndex.WireIsInjective` | src/cdc_basis_index.rs:118-252 | a wire stands for at most one valid index |
| `BasisIndex.DefaultIndexFits` | src/cdc_lane.rs:22-22 | at the default average any basis up to 2 GiB has an index within the 4 MiB limit |
| `Plan.WithBasisMeans` | src/cdc_reconstruction_bench.rs:704-737 | appending a range, merged or not, appends exactly that range to the output |
| `Plan.WithLiteralMeans` | src/cdc_reconstruction_bench.rs:739-774 | appending a literal, merged or not, appends exactly its bytes to the output |
| `Plan.WithBasisNormal` | src/cdc_reconstruction_bench.rs:704-737 | appending a range keeps the normal form and adds its length to the referenced bytes |
| `Plan.WithLiteralNormal` | src/cdc_reconstruction_bench.rs:739-774 | appending a literal keeps the normal form and adds its length to the literal bytes |
| `Plan.PlanBuilder.AppendBasis` | src/cdc_reconstruction_bench.rs:704-737 | the operations become those with the range appended, or stay unchanged when the range is empty or overflows |
| `Plan.PlanBuilder.AppendLiteral` | src/cdc_reconstruction_bench.rs:739-774 | the operations become those with the literal appended, or stay unchanged when it is empty |
| `Plan.PlanBuilder.Visit` | src/cdc_reconstruction_bench.rs:136-174 | one chunk is planned, or the literal limit stops the build; nothing else can |
| `Plan.PlannedIsNormal` | src/cdc_reconstruction_bench.rs:136-174 | every built plan has no mergeable neighbours, stays inside the basis, and its totals are the known and unknown bytes |
| `Plan.PlannedNeighbours` | src/cdc_reconstruction_bench.rs:704-774 | in a built plan nothing is empty, every range lies in the basis, no literal follows a literal and no range continues the one before it |
| `Plan.OutputOf` | src/cdc_reconstruction_bench.rs:880-963 | what a plan writes and counts, operation by operation |
| `Plan.KnownChunkByChunk` | src/cdc_reconstruction_bench.rs:136-174 | a chunk counts as referenced when the index has its key, else as literal |
| `Plan.FoundIsThere` | src/cdc_reconstruction_bench.rs:136-174 | what the index finds for a chunk is where those very bytes are, absent a collision |
| `Plan.PlanRebuilds` | src/cdc_reconstruction_bench.rs:118-214 | the plan of a candidate means exactly the candidate, absent a collision among the chunks |
| `Plan.EditCost` | src/cdc_reconstruction_bench.rs:136-174 | an edit between shared boundaries costs at most its own span in literal bytes |
| `Plan.UnchangedIsOneRange` | src/cdc_reconstruction_bench.rs:136-174 | a candidate equal to a basis with distinct keys is planned as one range over the whole file |
| `Plan.BuildBounded` | src/cdc_reconstruction_bench.rs:118-214 | it reports the literal limit exactly when the literals exceed the bound, and otherwise succeeds exactly when the file had the expected length, with its plan, length, digest, chunk count and totals |
| `DedupScan.IndexBasis` | src/content_defined_dedup_bench.rs:338-357 | the two maps say exactly which key lies at which offset and where each key lies first |
| `DedupScan.ScanCandidate` | src/content_defined_dedup_bench.rs:359-392 | in-place chunks and bytes are those the basis has at the same offset, literal ones those whose key it lacks, each counted by itself; in-place plus moved bytes are the bytes the planner references |
| `DedupScan.ScanAndPlan` | src/content_defined_dedup_bench.rs:338-392 | scanner and bounded planner agree on the totals, the chunk counters are exact, and the planner gives up exactly when the scanner's literal total exceeds the bound |
| `PlanWire.BuiltPlanIsValid` | src/cdc_reconstruction_bench.rs:118-214 | every plan the planner builds is one the decoder accepts |
| `PlanWire.ValidPlanMeans` | src/cdc_reconstruction_bench.rs:298-392 | what the decoder demands of a plan: no empty operation, no overflowing range, and a target that is the sum of both totals |
| `PlanWire.WireSize` | src/cdc_reconstruction_bench.rs:428-454 | the announced size is the length of the encoding, or an overflow |
| `PlanWire.EncodePlan` | src/cdc_reconstruction_bench.rs:216-266 | the encoding is the wire format, unless its size overflows |
| `PlanWire.PlanAt` | src/cdc_reconstruction_bench.rs:216-240 | a plan on the wire byte by byte: magic, target size, digest, count, then the operations |
| `PlanWire.OpsAt` | src/cdc_reconstruction_bench.rs:240-263 | each operation on the wire: tag 0 with offset and length, or tag 1 with length and bytes |
| `PlanWire.ReadFindsIt` | src/cdc_reconstruction_bench.rs:302-372 | the operation that stands at the cursor is the one that is read |
| `PlanWire.ReadStands` | src/cdc_reconstruction_bench.rs:302-372 | what is read stands at the cursor and is valid |
| `PlanWire.DecodeOps` | src/cdc_reconstruction_bench.rs:298-372 | the loop reads exactly the announced operations with their totals, or no valid plan has this wire |
| `PlanWire.DecodePlan` | src/cdc_reconstruction_bench.rs:268-410 | a byte string is accepted if and only if it is the wire of a valid plan, and that plan is returned with its totals |
| `PlanWire.WirePlanIsInjective` | src/cdc_reconstruction_bench.rs:216-410 | a wire stands for at most one plan; only the sender's chunk count is not on it |
| `PlanWire.BuiltPlanFits` | src/cdc_reconstruction_bench.rs:428-454 | the plan of a file below 2^63 bytes always encodes |
| `Reconstruction.CopyRange` | src/cdc_reconstruction_bench.rs:897-941 | with reads of any size the copied range is exactly the range of the basis |
| `Reconstruction.DigestDecides` | src/cdc_reconstruction_bench.rs:960-994 | a decoded plan whose ranges lie inside the basis has the announced length by itself, the sum of its two totals, and only its digest decides |
| `Reconstruction.ReconstructInto` | src/cdc_reconstruction_bench.rs:861-994 | absent faults it succeeds exactly when the plan replays to its length and digest, and the file then holds what the plan means |
| `Reconstruction.FileSystem.Replace` | src/windows_file_replace.rs:9-40 | an assumption about Windows, not a result: the replacement is atomic or changes nothing |
| `Reconstruction.Reconstruct` | src/cdc_reconstruction_bench.rs:785-859 | all or nothing, also when basis and output are one path: files unchanged, or the output alone replaced by content of the announced length and digest, and no temporary left |
| `Reconstruction.CutsRead` | src/cdc_reconstruction_bench.rs:1058-1066 | any cutting of a file into nonempty reads, also after an interruption, reads it |
| `Reconstruction.Run` | src/cdc_reconstruction_bench.rs:592-701 | index, codec, plan, codec and replay yield exactly the candidate for every basis and every candidate below 2^63 bytes, absent a collision; on an unobstructed file system it never fails |
| `LaneWire.Link.ReadFileId` | src/cdc_lane.rs:502-535 | only the file ID under negotiation is accepted |
| `LaneWire.Link.ReadPayload` | src/cdc_lane.rs:464-500 | a payload within the limit is read exactly, and nothing after it |
| `LaneWire.Link.ReadOffer` | src/cdc_lane.rs:105-120 | the sender reads an offer exactly when the stream begins with one, and nothing after it |
| `LaneWire.Link.ReadResponse` | src/cdc_lane.rs:292-318 | the receiver reads a response exactly when the stream begins with one, and nothing after it |
| `LaneWire.MessagesAt` | src/cdc_lane.rs:13-16 | the four messages byte by byte |
| `Lane.LaneTotals.Merge` | src/cdc_lane.rs:41-89 | counter by counter the sum, exactly when every counter fits; otherwise the counters before the first that overflows are merged and no others; balanced totals stay balanced even then |
| `Lane.BoundedPlanFits` | src/cdc_lane.rs:150-195 | a plan within the literal bound always encodes |
| `Lane.AnswerIndex` | src/cdc_lane.rs:145-215 | the sender answers a valid index with the plan when it is worth sending, else with a fallback |
| `Lane.AnswerOffer` | src/cdc_lane.rs:117-215 | only the wire of a valid index of the default average is answered, and the statistics balance |
| `Lane.SenderNegotiate` | src/cdc_lane.rs:98-215 | only an offer of nothing or of a valid index is accepted; the decision, statistics and bytes are determined by the offer and the file; an error writes nothing |
| `Lane.ApplyPlan` | src/cdc_lane.rs:316-379 | whatever the plan bytes are, only the one file changes, to what the one valid plan with those bytes means, of the announced length and digest; an acceptable plan is applied |
| `Lane.MakeOffer` | src/cdc_lane.rs:217-289 | the offer is the index of the old file when there is one worth indexing, within the wire limit, else nothing |
| `Lane.OffersMean` | src/cdc_lane.rs:226-275 | an index is offered exactly when the lane is enabled, the file is at least 1 MiB and not tiny, the old file is regular, nonempty and read in full, and the index is at most 4 MiB |
| `Lane.MessagesAre` | src/cdc_lane.rs:160-193 | the bytes of offer and reply; a plan is sent exactly when its literals are at most 16 MiB, its wire at most 20 MiB, and index and plan are smaller than the file |
| `Lane.ReportedIsBalanced` | src/cdc_lane.rs:297-379 | whatever the receiver reports is balanced, and completion costs less than the file and leaves the digest of the plan |
| `Lane.ReceiverNegotiate` | src/cdc_lane.rs:217-379 | the offer depends on the receiver's own file alone; whatever arrives, it reports a fallback that was read, or the completion of the one plan that was read and applied, balanced, and otherwise changes nothing |
| `Lane.OfferIsAnswered` | src/cdc_lane.rs:98-215 | the sender's plan against an offered index is valid and replays to the source, absent a collision |
| `Lane.Negotiate` | src/cdc_lane.rs:98-379 | both sides finish in lockstep: each consumes exactly what the other wrote, the decision and every counter are given in numbers by the plan, completion means the source's content at a wire cost below its size, and nothing but an obstruction or a collision stops it |
| `IocpLedger.CountIsCeiling` | src/iocp_copy.rs:634-668 | the number of chunks is the length over the chunk size, rounded up |
| `IocpLedger.ChunksDetermine` | src/iocp_copy.rs:634-872 | files that agree on every chunk are equal |
| `IocpLedger.InFlightBound` | src/iocp_copy.rs:634-872 | in every error-free state the in-flight count never exceeds the pool |
| `IocpLedger.BytePartition` | src/iocp_copy.rs:634-872 | every byte below the next offset is in a written chunk or in the range of exactly one operation in flight |
| `IocpLedger.ReadSubmittedClean` | src/iocp_copy.rs:643-668 | submitting a read of the next chunk keeps the ledger |
| `IocpLedger.WriteSubmittedClean` | src/iocp_copy.rs:734-793 | turning a completed read into a write keeps the ledger |
| `IocpLedger.WriteDoneClean` | src/iocp_copy.rs:795-860 | a completed write keeps the ledger and puts the right bytes into the destination |
| `IocpLedger.DrainedIsDone` | src/iocp_copy.rs:680-876 | with nothing in flight and nothing left to submit, the destination is the source |
| `IocpCopy.Wait` | src/iocp_probe.rs:98-142 | an assumption about Windows, not a result: the kernel completes any one pending request, fully, partly or with an error, or the port fails |
| `IocpCopy.SucceedsMeans` | src/iocp_copy.rs:703-826 | a completion succeeds when it has no error, belongs to an operation, has the key of its file and moved all bytes |
| `IocpCopy.EngineInFlight` | src/iocp_copy.rs:680-872 | in every error-free state at most the pool is in flight, and each byte below the next offset is copied or in the range of exactly one operation |
| `IocpCopy.NextRequest` | src/iocp_copy.rs:991-1007 | the request size is that of the next chunk and always fits, so its early returns are unreachable |
| `IocpCopy.ReadBytesFit` | src/iocp_copy.rs:767-769 | the read byte count never overflows |
| `IocpCopy.WrittenBytesFit` | src/iocp_copy.rs:828-830 | the written byte count never overflows |
| `IocpCopy.ChecksAreExact` | src/iocp_copy.rs:734-826 | the key and byte-count checks accept exactly the packets of full success |
| `IocpCopy.Prime` | src/iocp_copy.rs:643-678 | priming fills the pool, submits the whole file, or fails |
| `IocpCopy.OnRead` | src/iocp_copy.rs:734-793 | a completed read becomes a write of the same chunk, or a recorded failure |
| `IocpCopy.OnWrite` | src/iocp_copy.rs:795-860 | a completed write frees its operation, which takes the next chunk if there is one |
| `IocpCopy.Step` | src/iocp_copy.rs:680-872 | every turn keeps the invariant and shrinks the work left; after the first error nothing is submitted and the kernel owns one request less |
| `IocpCopy.Drain` | src/iocp_copy.rs:680-876 | the loop ends, with nothing owned by the kernel unless the port failed |
| `IocpCopy.DrainedIsCopied` | src/iocp_copy.rs:874-915 | an error-free drained run has copied everything, with one read and one write per chunk |
| `IocpCopy.Run` | src/iocp_copy.rs:573-915 | for every completion order, success leaves destination equal to source with reads = writes = ceil(len/chunk); it succeeds exactly when the kernel never failed it, and it ends with nothing in flight unless the port failed |
| `Payload.SenderIsAcceptable` | src/adaptive_compression.rs:111-216 | nothing a sender writes is refused by a receiver whose buffer holds the sender's chunks |
| `Payload.FrameAt` | src/adaptive_compression.rs:183-195 | a frame on the wire: raw length, compressed length, compressed bytes |
| `Payload.RecordAt` | src/adaptive_compression.rs:130-213 | a record on the wire: mode 0 and the bytes, or mode 1 and the frames, then the digest of the bytes |
| `Payload.AcceptableMeans` | src/adaptive_compression.rs:388-407 | the limits of a receiver in numbers: at most 1 MiB and its buffer for the raw bytes, at most 2 MiB compressed |
| `Payload.CutAt` | src/adaptive_compression.rs:141-147 | frame i holds the bytes from i times the limit on, full unless it is the last |
| `Payload.OverlayLength` | src/adaptive_compression.rs:294-305 | a positional write never shortens a file and lengthens it just enough |
| `Payload.OverlayMeans` | src/adaptive_compression.rs:294-305 | a positional write byte by byte: the data in its range, the old content elsewhere, zeros in a gap |
| `Payload.OverlayTwice` | src/adaptive_compression.rs:294-305 | writes at tiling positions amount to one write |
| `Payload.SendChunks` | src/adaptive_compression.rs:136-211 | the chunks sent hold exactly the bytes of the range, full except the last, or the file was too short |
| `Payload.Send` | src/adaptive_compression.rs:75-216 | one record of exactly the range, with its digest; each error under its exact condition |
| `Payload.ReadMode` | src/adaptive_compression.rs:519-533 | exactly the two known modes are accepted |
| `Payload.ReceiveFrame` | src/adaptive_compression.rs:373-437 | exactly the frames within the limits that expand to the announced length are accepted |
| `Payload.ReceiveChunks` | src/adaptive_compression.rs:333-471 | the body is read as one record, hashed, and written at tiling positions |
| `Payload.Receive` | src/adaptive_compression.rs:273-482 | success means the bytes written match the digest received; every byte outside the range is as it was, every byte inside is the data, and nothing beyond the record is read; every acceptable record is received; a failure has written only what a beginning of the stream stands for |
| `Payload.Deliver` | src/adaptive_compression.rs:111-482 | any sequence of records, in any modes and buffers, is read back in order and exactly, and what follows is left alone |
| `Registration.ExpectedCount` | src/control_plane.rs:285-287 | a session has n + 1 connections |
| `Registration.NotComplete` | src/control_plane.rs:302-355 | a foreign or repeated handshake rules out a complete session |
| `Registration.DistinctIsComplete` | src/control_plane.rs:357-374 | n + 1 different handshakes of a session are all of it |
| `Registration.CompleteMeans` | src/control_plane.rs:294-374 | a complete session said without multisets: the control connection and every data ID are among the first n + 1 |
| `Registration.Register` | src/control_plane.rs:280-374 | registration succeeds exactly when the first n + 1 handshakes are, in some order, one control stream and one data stream per ID; the data connections are kept in order of arrival, and the checks after the loop never fail |
| `Fingerprint.TimesUndone` | src/control_plane.rs:781-788 | multiplication by the FNV prime modulo 2^64 has an inverse |
| `Fingerprint.StepIsABijection` | src/control_plane.rs:781-788 | each FNV-1a step is a bijection on 64-bit states |
| `Fingerprint.StepSeparates` | src/control_plane.rs:781-788 | from one state different bytes lead to different states |
| `Fingerprint.FnvAppend` | src/control_plane.rs:781-788 | hashing in pieces is hashing the concatenation |
| `Fingerprint.OneMoreByte` | src/control_plane.rs:781-788 | a byte is combined with the state first, and then the state is multiplied by the prime modulo 2^64 |
| `Fingerprint.XorHalves` | src/control_plane.rs:783-783 | the exclusive or bit by bit |
| `Fingerprint.FnvSeparates` | src/control_plane.rs:781-788 | different states stay different whatever is hashed next |
| `Fingerprint.OneByteIsSeen` | src/control_plane.rs:781-788 | streams of one length that differ in exactly one byte have different fingerprints |
| `Fingerprint.HashBytes` | src/control_plane.rs:781-788 | the loop computes the fingerprint of the bytes |
| `Manifest.HashNode` | src/control_plane.rs:758-779 | an entry contributes its kind, path and metadata, given as bytes, to the hashed stream |
| `Manifest.Summarize` | src/control_plane.rs:719-756 | the counts, the bytes and the fingerprint of the tree, or the exact reason why there is none |
| `Manifest.SummarySeesOneByte` | src/control_plane.rs:719-788 | trees whose hashed streams differ in exactly one byte have different summaries |
| `ManifestLaws.HashedAt` | src/control_plane.rs:758-779 | the hashed bytes of an entry by position: kind, two bytes per unit, then size, time, attributes and class |
| `ManifestLaws.OneByteOfAnEntryIsSeen` | src/control_plane.rs:719-788 | trees of one shape that differ in one byte of one path unit, or of one entry's size, time, attributes or class, have different summaries |
| `ManifestLaws.TotalsAddUp` | src/control_plane.rs:742-753 | the bytes of entries add up, a file has its size and a directory none |
| `Manifest.SendableMeans` | src/control_plane.rs:629-656 | which trees travel: legal tree and paths, one to 1048576 units per path, counts within 64 bits |
| `Manifest.WritePath` | src/control_plane.rs:629-656 | a path goes out exactly when it is legal and of a legal length |
| `Manifest.WriteNode` | src/control_plane.rs:684-701 | an entry goes out in its wire format |
| `ManifestLaws.NodeAt` | src/control_plane.rs:629-701 | an entry on the wire by position |
| `ManifestLaws.ManifestAt` | src/control_plane.rs:514-529 | a manifest on the wire by position: message, counts, bytes, fingerprint, then directories and files |
| `Manifest.WriteNodes` | src/control_plane.rs:523-529 | the entries of a list go out up to the first one refused, which leaves no byte |
| `Manifest.SendManifest` | src/control_plane.rs:507-533 | exactly the trees that can travel are sent, and the result is the wire length; a refused tree leaves nothing, or its manifest up to the first path that cannot be sent |
| `Manifest.ReadPath` | src/control_plane.rs:658-682 | exactly the acceptable paths are read |
| `Manifest.ReadNode` | src/control_plane.rs:688-717 | exactly the acceptable entries are read |
| `Manifest.ReadNodes` | src/control_plane.rs:572-605 | the loop reads exactly the announced entries and tallies their count, bytes and fingerprint |
| `Manifest.ReceiveManifest` | src/control_plane.rs:535-621 | exactly the encodings of trees that can travel are accepted, with their summary and byte count |
| `Manifest.SameNode` | src/control_plane.rs:684-717 | no entry's wire begins another's of the same kind |
| `Manifest.BrokenOffIsNoManifest` | src/control_plane.rs:535-621 | a manifest that breaks off after some entries begins no manifest of any tree |
| `Manifest.Exchange` | src/control_plane.rs:507-621 | a manifest sent arrives as the same tree with equal summary and equal wire count on both sides; what the sender refuses, the receiver rejects |
| `Affinity.CommonPrefixMeans` | src/management_discovery.rs:1126-1132 | the first n bits of two addresses agree exactly when n is not above the score |
| `Affinity.AddressKinds` | src/management_discovery.rs:1056-1066 | the kinds of addresses by their octets: 0.0.0.0, 127/8, 224/4, 255.255.255.255, 169.254/16 |
| `Affinity.NearestMeans` | src/management_discovery.rs:1068-1085 | the loop's best is the lexicographic maximum of prefix and interface rank |
| `Affinity.LocalAffinityMeans` | src/management_discovery.rs:1068-1092 | nothing below eight shared bits; else the longest shared prefix and the best rank among the interfaces that share it |
| `Affinity.ScoreLocal` | src/management_discovery.rs:1068-1092 | the local score, zero below eight common bits |
| `Affinity.ScoreRoutes` | src/management_discovery.rs:1094-1124 | maximum and saturated sum of the prefixes shared with other agents |
| `Affinity.RouteMaximumMeans` | src/management_discovery.rs:1094-1124 | the largest prefix shared with an IPv4 answer of another agent |
| `Affinity.RouteTotalMeans` | src/management_discovery.rs:1094-1124 | the sum over the IPv4 answers of other agents, and of nothing else |
| `Affinity.RoutesPermute` | src/management_discovery.rs:1094-1124 | the route score does not depend on the order of the answers |
| `Affinity.ScorePermutes` | src/management_discovery.rs:1027-1054 | no part of a score depends on the order of the answers |
| `Affinity.ScoreAt` | src/management_discovery.rs:1027-1054 | which quantity each part of the score is |
| `Affinity.ScoreCandidate` | src/management_discovery.rs:1027-1054 | the five-part score of an endpoint, all zero for IPv6 |
| `Discovery.TextIsInjective` | src/management_discovery.rs:971-971 | IPv4 endpoints that print alike are the same |
| `Discovery.TextAt` | src/management_discovery.rs:971-971 | an IPv4 endpoint prints as four octets, dots, a colon and the port |
| `Discovery.DecimalMeans` | src/management_discovery.rs:971-971 | numbers print in decimal without leading zeros |
| `Discovery.AtMostMeans` | src/management_discovery.rs:983-987 | strings are ordered by their first difference, a prefix first |
| `Discovery.SortMeans` | src/management_discovery.rs:971-987 | sorting permutes and orders |
| `Discovery.SortIsStable` | src/management_discovery.rs:971-971 | entries that print alike keep their order |
| `Discovery.Group` | src/management_discovery.rs:959-966 | every agent's answers in the order they came |
| `Discovery.PreferredIndex` | src/management_discovery.rs:992-1025 | the first candidate of maximal score |
| `Discovery.Choose` | src/management_discovery.rs:970-981 | the chosen answer is the earliest whose endpoint has maximal score and the least printed form among the best |
| `Discovery.WinnerIsEarliest` | src/management_discovery.rs:970-981 | the listed answer is the first in the list, among the agent's, with a preferred endpoint |
| `Discovery.BestPartByPart` | src/management_discovery.rs:1003-1025 | a preferred endpoint is not beaten in address rank, then interface rank, then local prefix, then remote maximum, then remote total, then printed form |
| `Discovery.BestPartByPartIsPreferred` | src/management_discovery.rs:1003-1025 | and an endpoint that is not beaten part by part is preferred |
| `Discovery.PreferredPrintAlike` | src/management_discovery.rs:970-1025 | two preferred endpoints of one agent print alike |
| `Discovery.OrderIsIrrelevantExactly` | src/management_discovery.rs:950-990 | the resulting agent and endpoint pairs are the same for every permutation of the list if and only if no agent has two different endpoints of best score and least printed form |
| `Discovery.FlowLabelsTie` | src/management_discovery.rs:950-990 | a two-element list whose reversal changes the choice: one agent, two IPv6 endpoints that differ in the flow label |
| `Discovery.DiscoveredPrintDifferently` | src/management_discovery.rs:855-855 | endpoints as discovery builds them, IPv4 or IPv6, print differently unless they are the same |
| `Discovery.OrderDoesNotMatter` | src/management_discovery.rs:950-990 | over the endpoints discovery builds, the resulting agent and endpoint pairs are unchanged by any permutation of the list |
| `Discovery.DeduplicatedRoutes` | src/management_discovery.rs:950-990 | whatever a deduplication returns, its pairs are those of the earliest preferred answers |
| `Discovery.BestKindOfAddress` | src/management_discovery.rs:1056-1066 | a link-local address (section 2.1 of RFC 3927), an unusable one or an IPv6 one is never chosen when the agent has an ordinary unicast address |
| `Discovery.Deduplicate` | src/management_discovery.rs:950-990 | exactly one entry per identity, the earliest answer with a preferred endpoint, listed by host name and printed endpoint |

## Left out

- `run_read_ahead` and `run_blocking_read` (src/iocp_copy.rs:246-571): the reading half of the copy engine, without writes.
- IocpCopy.Run: the operations and the counters are one value that each step returns, not fields updated in place; an operation is its index in the pool, so pointers into the pool, their stability and the cancellation calls are not captured. The counts of immediately completed submissions and the times are left out.
- IocpCopy.Wait: a packet leads to the operation it belongs to or to none of ours; a pointer to another live operation is not modelled.
- Chunker.ChunkReader: the visitor runs over the emitted chunks after the scan; the visitors of this program do not touch the reader, so the outcome is the same.
- Chunker.ChunkReader: the values of the Gear table; every result holds for every table. The hash object and the other locals of the scan are one value that each byte's step returns.
- Plan.BuildBounded: files of 2^64 bytes or more, which a Windows file cannot have.
- Reconstruction.Run: that a candidate of 2^63 bytes or more is rebuilt, since the wire size of its plan could overflow; a Windows file is shorter.
- Reconstruction.Reconstruct: creation of parent directories, the shape of the temporary name beyond a nonempty suffix, and a failing removal of the temporary file.
- Lane.Negotiate: write faults on the socket and metadata errors other than a missing or irregular file; the two sides take turns, as the protocol makes them.
- Payload.Send: errors of the compressor itself, progress counters, cancellation flags and profilers.
- Payload.Receive: what the target holds after a failure is what some beginning of the stream stands for; that it is the longest such beginning is not stated.
- Manifest.ReceiveManifest: the read-ahead of the 1 MiB buffered reader, which would swallow bytes sent right after a manifest; the protocol sends none before the acknowledgement. The counters are unbounded, since a wire of 2^64 bytes cannot be sent.
- Manifest.Sendable: the scanner's rules for paths and trees are two arbitrary predicates that both sides share.
- Registration.Register: handshakes arrive decoded, and the stream count is the one `validate_data_stream_count` allows, so its cast to 32 bits changes nothing.
- Discovery.Deduplicate: the order of the identity map decides only between entries with equal host name and printed endpoint; the other fields of an agent are carried along and omitted here.
- PlanWire.DecodePlan: the source reserves a vector for the announced number of operations before it reads them, so a 52-byte header that announces 2^60 operations aborts with a capacity overflow where the model returns an error.
- Other allocation failures, and the internals of BLAKE3 and Zstandard.
- The handshake and acknowledgement codecs, discovery packets, the active-binding codec and the other flat field-by-field formats: easier versions of the codecs above.
- Sockets, UDP discovery, interface and route tables, firewall set-up, direct links, the GUI, the command line, printing, timing and throughput.
- Folder, fixed-block and comparison benchmarks, the compression probe, destination layout and inventory, file metadata, the persisted queue and the orchestration around transfers.
