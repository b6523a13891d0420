/** The receiver's index of its old file and its wire format (src/cdc_basis_index.rs). */
module BasisIndex {

  import opened Bytes
  import opened Chunker

  /** "NCI1" */
  const WIRE_MAGIC: seq<byte> := [0x4E, 0x43, 0x49, 0x31]
  const WIRE_HEADER_BYTES: nat := 24
  const WIRE_RECORD_BYTES: nat := 44

  datatype ChunkKey = ChunkKey(digest: Digest, length: nat)

  datatype BasisChunk = BasisChunk(offset: nat, key: ChunkKey)

  datatype BasisFileIndex = BasisFileIndex(averageKib: nat, fileBytes: nat, chunks: seq<BasisChunk>,
                                           firstLocations: map<ChunkKey, nat>)

  function Key(H: Hash, contents: seq<byte>): ChunkKey {
    ChunkKey(H(contents), |contents|)
  }

  // ---------------------------------------------------------------- what an index is

  /** The chunks lie end to end from offset zero. */
  predicate Tiles(chunks: seq<BasisChunk>) {
    forall i :: 0 <= i < |chunks| ==>
      chunks[i].offset == if i == 0 then 0 else chunks[i - 1].offset + chunks[i - 1].key.length
  }

  function End(chunks: seq<BasisChunk>): nat {
    if chunks == [] then 0 else chunks[|chunks| - 1].offset + chunks[|chunks| - 1].key.length
  }

  predicate LegalLengths(cfg: ChunkConfig, chunks: seq<BasisChunk>, count: nat) {
    forall i :: 0 <= i < |chunks| ==>
      && 0 < chunks[i].key.length <= cfg.maximumBytes
      && (i + 1 < count ==> cfg.minimumBytes <= chunks[i].key.length)
  }

  /** The map `entry(key).or_insert(offset)` builds over the chunks in order. */
  function FirstLocations(chunks: seq<BasisChunk>): map<ChunkKey, nat> {
    if chunks == [] then map[]
    else
      var m := FirstLocations(chunks[..|chunks| - 1]);
      var c := chunks[|chunks| - 1];
      if c.key in m then m else m[c.key := c.offset]
  }

  predicate ValidIndex(x: BasisFileIndex) {
    && LegalAverage(x.averageKib)
    && x.fileBytes < U64
    && Tiles(x.chunks) && End(x.chunks) == x.fileBytes
    && LegalLengths(FromAverageKib(x.averageKib).value, x.chunks, |x.chunks|)
    && x.firstLocations == FirstLocations(x.chunks)
  }

  /** What the decoder demands of an index, in plain terms: a power of two between 4 and 4096 for the average,
      nonempty chunks end to end from zero to the end of the file, none above twice the average, and none but
      the last below half of it. */
  lemma ValidIndexMeans(x: BasisFileIndex)
    requires ValidIndex(x)
    ensures 4 <= x.averageKib <= 4096 && IsPowerOfTwo(x.averageKib) && x.fileBytes < U64
    ensures forall i | 0 <= i < |x.chunks| ::
      x.chunks[i].offset == if i == 0 then 0 else x.chunks[i - 1].offset + x.chunks[i - 1].key.length
    ensures forall i | 0 <= i < |x.chunks| ::
      && 0 < x.chunks[i].key.length <= 2048 * x.averageKib
      && (i < |x.chunks| - 1 ==> 512 * x.averageKib <= x.chunks[i].key.length)
    ensures var n := |x.chunks|;
      x.fileBytes == if n == 0 then 0 else x.chunks[n - 1].offset + x.chunks[n - 1].key.length
    ensures x.firstLocations == FirstLocations(x.chunks)
  {
    TilesMean(x.chunks);
    LegalLengthsMean(FromAverageKib(x.averageKib).value, x.chunks);
  }

  /** And nothing more. */
  lemma ThatIsAValidIndex(x: BasisFileIndex)
    requires 4 <= x.averageKib <= 4096 && IsPowerOfTwo(x.averageKib) && x.fileBytes < U64
    requires forall i | 0 <= i < |x.chunks| ::
      x.chunks[i].offset == if i == 0 then 0 else x.chunks[i - 1].offset + x.chunks[i - 1].key.length
    requires forall i | 0 <= i < |x.chunks| ::
      && 0 < x.chunks[i].key.length <= 2048 * x.averageKib
      && (i < |x.chunks| - 1 ==> 512 * x.averageKib <= x.chunks[i].key.length)
    requires var n := |x.chunks|;
      x.fileBytes == if n == 0 then 0 else x.chunks[n - 1].offset + x.chunks[n - 1].key.length
    requires x.firstLocations == FirstLocations(x.chunks)
    ensures ValidIndex(x)
  {
    TilesMean(x.chunks);
    LegalLengthsMean(FromAverageKib(x.averageKib).value, x.chunks);
  }

  lemma TilesMean(chunks: seq<BasisChunk>)
    ensures Tiles(chunks) <==>
      forall i | 0 <= i < |chunks| ::
        chunks[i].offset == if i == 0 then 0 else chunks[i - 1].offset + chunks[i - 1].key.length
  {
  }

  lemma LegalLengthsMean(cfg: ChunkConfig, chunks: seq<BasisChunk>)
    ensures LegalLengths(cfg, chunks, |chunks|) <==>
      forall i | 0 <= i < |chunks| ::
        && 0 < chunks[i].key.length <= cfg.maximumBytes
        && (i < |chunks| - 1 ==> cfg.minimumBytes <= chunks[i].key.length)
  {
  }

  function Find(x: BasisFileIndex, key: ChunkKey): Option<nat> {
    if key in x.firstLocations then Some(x.firstLocations[key]) else None
  }

  lemma {:induction false} FirstLocationsMeaning(chunks: seq<BasisChunk>, key: ChunkKey)
    ensures key in FirstLocations(chunks) <==> exists i :: 0 <= i < |chunks| && chunks[i].key == key
    ensures key in FirstLocations(chunks) ==>
      exists i :: 0 <= i < |chunks| && chunks[i].key == key && chunks[i].offset == FirstLocations(chunks)[key]
               && forall j :: 0 <= j < i ==> chunks[j].key != key
  {
    if chunks != [] {
      var n := |chunks| - 1;
      var d := chunks[..n];
      FirstLocationsMeaning(d, key);
      if key in FirstLocations(d) {
        var i :| 0 <= i < |d| && d[i].key == key && d[i].offset == FirstLocations(d)[key]
              && forall j :: 0 <= j < i ==> d[j].key != key;
        assert chunks[i] == d[i];
        assert forall j :: 0 <= j < i ==> chunks[j] == d[j];
      } else {
        forall j | 0 <= j < n
          ensures chunks[j].key != key
        {
          assert chunks[j] == d[j];
        }
      }
    }
  }

  lemma {:induction false} OffsetsIncrease(chunks: seq<BasisChunk>, i: nat, j: nat)
    requires Tiles(chunks) && i <= j < |chunks|
    ensures chunks[i].offset <= chunks[j].offset
    ensures i < j ==> chunks[i].offset + chunks[i].key.length <= chunks[j].offset
  {
    if i < j {
      OffsetsIncrease(chunks, i, j - 1);
    }
  }

  /** In a valid index `find` answers with the least offset of a chunk with that key, whose range
      lies inside the file, and with nothing exactly when no chunk has the key. */
  lemma FindIsLeast(x: BasisFileIndex, key: ChunkKey)
    requires ValidIndex(x)
    ensures Find(x, key).None? <==> forall i :: 0 <= i < |x.chunks| ==> x.chunks[i].key != key
    ensures Find(x, key).Some? ==>
      && (exists i :: 0 <= i < |x.chunks| && x.chunks[i] == BasisChunk(Find(x, key).value, key))
      && (forall i :: 0 <= i < |x.chunks| && x.chunks[i].key == key ==> Find(x, key).value <= x.chunks[i].offset)
      && Find(x, key).value + key.length <= x.fileBytes
  {
    FirstLocationsMeaning(x.chunks, key);
    if key in x.firstLocations {
      var i :| 0 <= i < |x.chunks| && x.chunks[i].key == key && x.chunks[i].offset == x.firstLocations[key]
            && forall j :: 0 <= j < i ==> x.chunks[j].key != key;
      assert x.chunks[i] == BasisChunk(x.firstLocations[key], key);
      forall j | 0 <= j < |x.chunks| && x.chunks[j].key == key
        ensures x.chunks[i].offset <= x.chunks[j].offset
      {
        OffsetsIncrease(x.chunks, i, j);
      }
      OffsetsIncrease(x.chunks, i, |x.chunks| - 1);
    }
  }

  // ---------------------------------------------------------------- building

  function IndexChunks(H: Hash, cs: seq<seq<byte>>): seq<BasisChunk> {
    seq(|cs|, i requires 0 <= i < |cs| => BasisChunk(|Concat(cs[..i])|, Key(H, cs[i])))
  }

  /** The index of the file `s`. */
  function IndexOf(H: Hash, t: GearTable, averageKib: nat, s: seq<byte>): BasisFileIndex
    requires LegalAverage(averageKib)
  {
    var chunks := IndexChunks(H, Chunks(t, FromAverageKib(averageKib).value, s));
    BasisFileIndex(averageKib, |s|, chunks, FirstLocations(chunks))
  }

  /** The index of a file, chunk by chunk: where it starts, how long it is, and its digest. */
  lemma IndexAt(H: Hash, t: GearTable, averageKib: nat, s: seq<byte>, i: nat)
    requires LegalAverage(averageKib) && i < |Chunks(t, FromAverageKib(averageKib).value, s)|
    ensures var x, cs := IndexOf(H, t, averageKib, s), Chunks(t, FromAverageKib(averageKib).value, s);
      && x.averageKib == averageKib && x.fileBytes == |s| && |x.chunks| == |cs|
      && x.chunks[i].key.digest == H(cs[i]) && x.chunks[i].key.length == |cs[i]|
      && x.chunks[i].offset + |cs[i]| <= |s| && s[x.chunks[i].offset..x.chunks[i].offset + |cs[i]|] == cs[i]
      && x.chunks[i].offset == |Concat(cs[..i])|
  {
    var cs := Chunks(t, FromAverageKib(averageKib).value, s);
    ChunksConcat(t, FromAverageKib(averageKib).value, s);
    SliceOfConcat(cs, i);
  }

  lemma IndexChunksTile(H: Hash, cs: seq<seq<byte>>)
    ensures Tiles(IndexChunks(H, cs)) && End(IndexChunks(H, cs)) == |Concat(cs)|
  {
    var chunks := IndexChunks(H, cs);
    forall i | 0 <= i < |chunks|
      ensures chunks[i].offset == if i == 0 then 0 else chunks[i - 1].offset + chunks[i - 1].key.length
    {
      if i > 0 {
        PrefixConcat(cs, i - 1);
      }
    }
    if cs != [] {
      PrefixConcat(cs, |cs| - 1);
      assert cs[..|cs|] == cs;
    }
  }

  /** Every index built from any file meets everything the decoder validates. */
  lemma BuiltIndexIsValid(H: Hash, t: GearTable, averageKib: nat, s: seq<byte>)
    requires LegalAverage(averageKib) && |s| < U64
    ensures ValidIndex(IndexOf(H, t, averageKib, s))
  {
    var cfg := FromAverageKib(averageKib).value;
    IndexChunksTile(H, Chunks(t, cfg, s));
    ChunksConcat(t, cfg, s);
    ChunkLengths(t, cfg, s);
  }

  lemma FirstLocationsSnoc(chunks: seq<BasisChunk>, c: BasisChunk)
    ensures FirstLocations(chunks + [c]) ==
      if c.key in FirstLocations(chunks) then FirstLocations(chunks) else FirstLocations(chunks)[c.key := c.offset]
  {
    assert (chunks + [c])[..|chunks|] == chunks;
  }

  /** The visitor of `build_from_reader`, over the emitted chunks in order. */
  method IndexPieces(H: Hash, ghost cs: seq<seq<byte>>, pieces: seq<Piece>)
    returns (chunks: seq<BasisChunk>, firstLocations: map<ChunkKey, nat>)
    requires pieces == Placed(cs) && forall i :: 0 <= i < |cs| ==> |cs[i]| < U32
    ensures chunks == IndexChunks(H, cs) && firstLocations == FirstLocations(chunks)
  {
    chunks, firstLocations := [], map[];
    for i := 0 to |pieces|
      invariant chunks == IndexChunks(H, cs)[..i]
      invariant firstLocations == FirstLocations(chunks)
    {
      var piece := pieces[i];
      assert |piece.contents| < U32;
      var key := ChunkKey(H(piece.contents), |piece.contents|);
      FirstLocationsSnoc(chunks, BasisChunk(piece.offset, key));
      chunks := chunks + [BasisChunk(piece.offset, key)];
      if key !in firstLocations {
        firstLocations := firstLocations[key := piece.offset];
      }
    }
  }

  /** `build_from_reader`: it succeeds exactly on a legal average and a reader that delivers the
      expected number of bytes, and then yields the index of those bytes. */
  method BuildFromReader(H: Hash, t: GearTable, script: seq<Read>, expectedBytes: nat, averageKib: nat)
    returns (r: Result<BasisFileIndex>)
    requires expectedBytes < U64
    ensures r.Ok? <==> LegalAverage(averageKib) && !ReadFails(script) && |Delivered(script)| == expectedBytes
    ensures r.Ok? ==> r.value == IndexOf(H, t, averageKib, Delivered(script)) && ValidIndex(r.value)
  {
    var config := FromAverageKib(averageKib);
    if config.Err? {
      return Err(config.error);
    }
    var cfg := config.value;
    var scan := ChunkReader(t, cfg, script);
    if scan.status.Err? {
      return Err(scan.status.error);
    }
    ghost var cs := Chunks(t, cfg, Delivered(script));
    assert forall i :: 0 <= i < |cs| ==> |cs[i]| < U32 by {
      ChunkLengths(t, cfg, Delivered(script));
    }
    var chunks, firstLocations := IndexPieces(H, cs, scan.pieces);
    assert scan.stats.bytes == |Delivered(script)| by {
      StatsTotals(cs);
      ChunksConcat(t, cfg, Delivered(script));
    }
    if scan.stats.bytes != expectedBytes {
      return Err(InvalidData);
    }
    BuiltIndexIsValid(H, t, averageKib, Delivered(script));
    r := Ok(BasisFileIndex(averageKib, scan.stats.bytes, chunks, firstLocations));
  }

  // ---------------------------------------------------------------- the wire format

  function WireRecord(c: BasisChunk): (r: seq<byte>)
    ensures |r| == WIRE_RECORD_BYTES
  {
    LE(c.offset, 8) + LE(c.key.length, 4) + c.key.digest
  }

  lemma {:induction false} WireRecordsLength(chunks: seq<BasisChunk>)
    ensures |Flat(WireRecord, chunks)| == WIRE_RECORD_BYTES * |chunks|
  {
    if chunks != [] {
      WireRecordsLength(chunks[..|chunks| - 1]);
    }
  }

  function WireRecords(chunks: seq<BasisChunk>): (r: seq<byte>)
    ensures |r| == WIRE_RECORD_BYTES * |chunks|
  {
    WireRecordsLength(chunks);
    Flat(WireRecord, chunks)
  }

  function WireHeader(averageKib: nat, fileBytes: nat, count: nat): (r: seq<byte>)
    ensures |r| == WIRE_HEADER_BYTES
  {
    WIRE_MAGIC + LE(averageKib, 4) + LE(fileBytes, 8) + LE(count, 8)
  }

  /** The bytes of an index on the wire. */
  function Wire(x: BasisFileIndex): (r: seq<byte>)
    ensures |r| == WIRE_HEADER_BYTES + WIRE_RECORD_BYTES * |x.chunks|
  {
    WireHeader(x.averageKib, x.fileBytes, |x.chunks|) + WireRecords(x.chunks)
  }

  lemma {:induction false} OffsetGrows(chunks: seq<BasisChunk>, cfg: ChunkConfig, count: nat, i: nat)
    requires Tiles(chunks) && LegalLengths(cfg, chunks, count) && |chunks| <= count && ValidConfig(cfg)
    requires i < |chunks|
    ensures i * 2048 <= chunks[i].offset
  {
    if i > 0 {
      OffsetGrows(chunks, cfg, count, i - 1);
    }
  }

  /** The wire size of a valid index never overflows a 64-bit size, so encoding always succeeds. */
  lemma WireFits(x: BasisFileIndex)
    requires ValidIndex(x)
    ensures |Wire(x)| < U64 && |x.chunks| < U64 && x.averageKib < U32
  {
    if x.chunks != [] {
      OffsetGrows(x.chunks, FromAverageKib(x.averageKib).value, |x.chunks|, |x.chunks| - 1);
    }
  }

  lemma WireRecordsSnoc(chunks: seq<BasisChunk>, c: BasisChunk)
    ensures WireRecords(chunks + [c]) == WireRecords(chunks) + WireRecord(c)
  {
    FlatSnoc(WireRecord, chunks, c);
  }

  method EncodeWire(x: BasisFileIndex) returns (r: Result<seq<byte>>)
    ensures r.Ok? <==> |x.chunks| < U64 && x.averageKib < U32 && |Wire(x)| < U64
    ensures r.Ok? ==> r.value == Wire(x)
  {
    if |x.chunks| >= U64 || x.averageKib >= U32 || |x.chunks| * WIRE_RECORD_BYTES + WIRE_HEADER_BYTES >= U64 {
      return Err(Overflow);
    }
    var encoded := WIRE_MAGIC;
    encoded := encoded + LE(x.averageKib, 4);
    encoded := encoded + LE(x.fileBytes, 8);
    encoded := encoded + LE(|x.chunks|, 8);
    ghost var header := encoded;
    for i := 0 to |x.chunks|
      invariant encoded == header + WireRecords(x.chunks[..i])
    {
      var chunk := x.chunks[i];
      encoded := encoded + LE(chunk.offset, 8);
      encoded := encoded + LE(chunk.key.length, 4);
      encoded := encoded + chunk.key.digest;
      assert x.chunks[..i + 1] == x.chunks[..i] + [chunk];
      WireRecordsSnoc(x.chunks[..i], chunk);
    }
    assert x.chunks[..|x.chunks|] == x.chunks;
    r := Ok(encoded);
  }

  function ParseRecord(w: seq<byte>): BasisChunk
    requires |w| == WIRE_RECORD_BYTES
  {
    BasisChunk(FromLE(w[..8]), ChunkKey(w[12..44], FromLE(w[8..12])))
  }

  function RecordBytes(b: seq<byte>, i: nat): (w: seq<byte>)
    requires WIRE_HEADER_BYTES + WIRE_RECORD_BYTES * (i + 1) <= |b|
    ensures |w| == WIRE_RECORD_BYTES
  {
    b[WIRE_HEADER_BYTES + WIRE_RECORD_BYTES * i..WIRE_HEADER_BYTES + WIRE_RECORD_BYTES * (i + 1)]
  }

  /** The record at position `i` of a wire. */
  function RecordOf(b: seq<byte>, i: nat): BasisChunk
    requires WIRE_HEADER_BYTES + WIRE_RECORD_BYTES * (i + 1) <= |b|
  {
    ParseRecord(RecordBytes(b, i))
  }

  lemma RecordRoundTrip(w: seq<byte>)
    requires |w| == WIRE_RECORD_BYTES
    ensures WireRecord(ParseRecord(w)) == w
  {
    LEOfFromLE(w[..8]);
    LEOfFromLE(w[8..12]);
  }

  lemma ParseOfRecord(c: BasisChunk)
    requires c.offset < U64 && c.key.length < U32
    ensures ParseRecord(WireRecord(c)) == c
  {
    Widths();
    var w := WireRecord(c);
    assert w[..8] == LE(c.offset, 8) && w[8..12] == LE(c.key.length, 4) && w[12..44] == c.key.digest;
    FromLEOfLE(c.offset, 8);
    FromLEOfLE(c.key.length, 4);
  }

  lemma {:induction false} RecordsRoundTrip(b: seq<byte>, chunks: seq<BasisChunk>)
    requires WIRE_HEADER_BYTES + WIRE_RECORD_BYTES * |chunks| <= |b|
    requires forall i :: 0 <= i < |chunks| ==> chunks[i] == RecordOf(b, i)
    ensures WireRecords(chunks) == b[WIRE_HEADER_BYTES..WIRE_HEADER_BYTES + WIRE_RECORD_BYTES * |chunks|]
  {
    if chunks != [] {
      var n := |chunks| - 1;
      RecordsRoundTrip(b, chunks[..n]);
      RecordRoundTrip(RecordBytes(b, n));
    }
  }

  lemma {:induction false} RecordsAt(chunks: seq<BasisChunk>, i: nat)
    requires i < |chunks|
    ensures WireRecords(chunks)[44 * i..44 * (i + 1)] == WireRecord(chunks[i])
  {
    var n := |chunks| - 1;
    if i < n {
      RecordsAt(chunks[..n], i);
    }
  }

  /** The index on the wire, byte by byte: magic, average, file size and count, then 44 bytes per chunk with its
      offset, length and digest; integers low byte first. */
  lemma WireAt(x: BasisFileIndex, i: nat)
    requires i < |x.chunks|
    ensures var b, at := Wire(x), 24 + 44 * i;
      && |b| == 24 + 44 * |x.chunks| && b[..4] == [0x4E, 0x43, 0x49, 0x31]
      && b[4..8] == LE(x.averageKib, 4) && b[8..16] == LE(x.fileBytes, 8) && b[16..24] == LE(|x.chunks|, 8)
      && b[at..at + 8] == LE(x.chunks[i].offset, 8) && b[at + 8..at + 12] == LE(x.chunks[i].key.length, 4)
      && b[at + 12..at + 44] == x.chunks[i].key.digest
  {
    var b, at, c := Wire(x), 24 + 44 * i, x.chunks[i];
    var head := WireHeader(x.averageKib, x.fileBytes, |x.chunks|);
    assert b[..24] == head;
    HeaderAt(b, head, x.averageKib, x.fileBytes, |x.chunks|);
    RecordsAt(x.chunks, i);
    assert b[at..at + 44] == WireRecords(x.chunks)[44 * i..44 * (i + 1)];
    RecordAt(b, at, c);
  }

  lemma HeaderAt(b: seq<byte>, head: seq<byte>, averageKib: nat, fileBytes: nat, count: nat)
    requires head == WireHeader(averageKib, fileBytes, count) && head <= b
    ensures b[..4] == [0x4E, 0x43, 0x49, 0x31] && b[4..8] == LE(averageKib, 4)
    ensures b[8..16] == LE(fileBytes, 8) && b[16..24] == LE(count, 8)
  {
    assert b[..24] == head;
    assert b[..4] == head[..4] && b[4..8] == head[4..8] && b[8..16] == head[8..16] && b[16..24] == head[16..24];
  }

  lemma RecordAt(b: seq<byte>, at: nat, c: BasisChunk)
    requires at + 44 <= |b| && b[at..at + 44] == WireRecord(c)
    ensures b[at..at + 8] == LE(c.offset, 8) && b[at + 8..at + 12] == LE(c.key.length, 4)
    ensures b[at + 12..at + 44] == c.key.digest
  {
    SubSlice(b, at, 44, 0, 8);
    SubSlice(b, at, 44, 8, 12);
    SubSlice(b, at, 44, 12, 44);
  }

  /** Reading back a record of an encoded index gives the chunk. */
  lemma RecordOfWire(x: BasisFileIndex, i: nat)
    requires ValidIndex(x) && i < |x.chunks|
    ensures RecordOf(Wire(x), i) == x.chunks[i]
  {
    RecordsAt(x.chunks, i);
    assert RecordBytes(Wire(x), i) == WireRecords(x.chunks)[44 * i..44 * (i + 1)];
    OffsetsIncrease(x.chunks, i, |x.chunks| - 1);
    ParseOfRecord(x.chunks[i]);
  }

  /** Reading back the header of an encoded index. */
  lemma HeaderOfWire(x: BasisFileIndex)
    requires ValidIndex(x)
    ensures var b := Wire(x);
            && b[..4] == WIRE_MAGIC && FromLE(b[4..8]) == x.averageKib
            && FromLE(b[8..16]) == x.fileBytes && FromLE(b[16..24]) == |x.chunks|
  {
    Widths();
    WireFits(x);
    var b := Wire(x);
    assert b[4..8] == LE(x.averageKib, 4) && b[8..16] == LE(x.fileBytes, 8) && b[16..24] == LE(|x.chunks|, 8);
    FromLEOfLE(x.averageKib, 4);
    FromLEOfLE(x.fileBytes, 8);
    FromLEOfLE(|x.chunks|, 8);
  }

  lemma HeaderRoundTrip(b: seq<byte>)
    requires |b| >= WIRE_HEADER_BYTES && b[..4] == WIRE_MAGIC
    ensures WireHeader(FromLE(b[4..8]), FromLE(b[8..16]), FromLE(b[16..24])) == b[..24]
  {
    LEOfFromLE(b[4..8]);
    LEOfFromLE(b[8..16]);
    LEOfFromLE(b[16..24]);
  }

  /** No valid index has the wire `b`. */
  ghost predicate NotAWire(b: seq<byte>) {
    forall x: BasisFileIndex | ValidIndex(x) :: Wire(x) != b
  }

  /** What the wire forces on any index it could stand for. */
  lemma WireForces(b: seq<byte>, x: BasisFileIndex)
    requires ValidIndex(x) && Wire(x) == b
    ensures |b| == WIRE_HEADER_BYTES + WIRE_RECORD_BYTES * |x.chunks|
    ensures b[..4] == WIRE_MAGIC && FromLE(b[4..8]) == x.averageKib
    ensures FromLE(b[8..16]) == x.fileBytes && FromLE(b[16..24]) == |x.chunks|
    ensures forall i :: 0 <= i < |x.chunks| ==> RecordOf(b, i) == x.chunks[i]
  {
    HeaderOfWire(x);
    forall i | 0 <= i < |x.chunks|
      ensures RecordOf(b, i) == x.chunks[i]
    {
      RecordOfWire(x, i);
    }
  }

  lemma HeaderRejected(b: seq<byte>)
    requires
      || |b| < WIRE_HEADER_BYTES || b[..4] != WIRE_MAGIC || !LegalAverage(FromLE(b[4..8]))
      || |b| != WIRE_HEADER_BYTES + WIRE_RECORD_BYTES * FromLE(b[16..24])
    ensures NotAWire(b)
  {
    forall x: BasisFileIndex | ValidIndex(x)
      ensures Wire(x) != b
    {
      if Wire(x) == b {
        WireForces(b, x);
      }
    }
  }

  /** The size of the records the header announces does not fit a 64-bit size. */
  predicate SizeOverflows(b: seq<byte>)
    requires |b| >= WIRE_HEADER_BYTES
  {
    WIRE_HEADER_BYTES + WIRE_RECORD_BYTES * FromLE(b[16..24]) >= U64
  }

  lemma OverflowRejected(b: seq<byte>)
    requires |b| >= WIRE_HEADER_BYTES && SizeOverflows(b)
    ensures NotAWire(b)
  {
    forall x: BasisFileIndex | ValidIndex(x)
      ensures Wire(x) != b
    {
      WireFits(x);
      if Wire(x) == b {
        WireForces(b, x);
      }
    }
  }

  function EndOf(c: BasisChunk): nat {
    c.offset + c.key.length
  }

  /** The rules `decode_wire` applies to chunk `i` of `count`. */
  predicate ChunkLegal(cfg: ChunkConfig, count: nat, i: nat, c: BasisChunk, expectedOffset: nat) {
    && 0 < c.key.length <= cfg.maximumBytes
    && (i + 1 != count ==> cfg.minimumBytes <= c.key.length)
    && c.offset == expectedOffset
    && expectedOffset + c.key.length < U64
  }

  predicate RecordLegal(b: seq<byte>, cfg: ChunkConfig, count: nat, i: nat)
    requires |b| == WIRE_HEADER_BYTES + WIRE_RECORD_BYTES * count && i < count
  {
    ChunkLegal(cfg, count, i, RecordOf(b, i), if i == 0 then 0 else EndOf(RecordOf(b, i - 1)))
  }

  lemma ValidChunksAreLegal(x: BasisFileIndex, cfg: ChunkConfig, i: nat)
    requires ValidIndex(x) && i < |x.chunks| && FromAverageKib(x.averageKib) == Ok(cfg)
    ensures ChunkLegal(cfg, |x.chunks|, i, x.chunks[i], if i == 0 then 0 else EndOf(x.chunks[i - 1]))
  {
    OffsetsIncrease(x.chunks, i, |x.chunks| - 1);
    assert EndOf(x.chunks[i]) <= End(x.chunks);
  }

  lemma ValidRecordsAreLegal(x: BasisFileIndex, cfg: ChunkConfig, i: nat)
    requires ValidIndex(x) && i < |x.chunks| && FromAverageKib(x.averageKib) == Ok(cfg)
    ensures RecordLegal(Wire(x), cfg, |x.chunks|, i)
  {
    ValidChunksAreLegal(x, cfg, i);
    RecordOfWire(x, i);
    if i > 0 {
      RecordOfWire(x, i - 1);
    }
  }

  /** A record that breaks a rule of the decoder rules out every valid index. */
  lemma RecordRejected(b: seq<byte>, cfg: ChunkConfig, count: nat, i: nat)
    requires |b| == WIRE_HEADER_BYTES + WIRE_RECORD_BYTES * count && FromLE(b[16..24]) == count
    requires FromAverageKib(FromLE(b[4..8])) == Ok(cfg) && i < count
    requires !RecordLegal(b, cfg, count, i)
    ensures NotAWire(b)
  {
    forall x: BasisFileIndex | ValidIndex(x)
      ensures Wire(x) != b
    {
      if Wire(x) == b {
        HeaderOfWire(x);
        ValidRecordsAreLegal(x, cfg, i);
      }
    }
  }

  lemma WireForcesEnd(b: seq<byte>, x: BasisFileIndex, chunks: seq<BasisChunk>)
    requires ValidIndex(x) && Wire(x) == b
    requires |b| == WIRE_HEADER_BYTES + WIRE_RECORD_BYTES * |chunks|
    requires forall i :: 0 <= i < |chunks| ==> chunks[i] == RecordOf(b, i)
    ensures End(chunks) == FromLE(b[8..16])
  {
    WireForces(b, x);
    assert chunks == x.chunks;
  }

  lemma TotalRejected(b: seq<byte>, chunks: seq<BasisChunk>)
    requires |b| == WIRE_HEADER_BYTES + WIRE_RECORD_BYTES * |chunks|
    requires forall i :: 0 <= i < |chunks| ==> chunks[i] == RecordOf(b, i)
    requires End(chunks) != FromLE(b[8..16])
    ensures NotAWire(b)
  {
    forall x: BasisFileIndex | ValidIndex(x)
      ensures Wire(x) != b
    {
      if Wire(x) == b {
        WireForcesEnd(b, x, chunks);
      }
    }
  }

  lemma AppendLegal(cfg: ChunkConfig, count: nat, chunks: seq<BasisChunk>, c: BasisChunk)
    requires Tiles(chunks) && LegalLengths(cfg, chunks, count)
    requires 0 < c.key.length <= cfg.maximumBytes && (|chunks| + 1 != count ==> cfg.minimumBytes <= c.key.length)
    requires c.offset == End(chunks)
    ensures Tiles(chunks + [c]) && LegalLengths(cfg, chunks + [c], count)
    ensures End(chunks + [c]) == End(chunks) + c.key.length
  {
  }

  /** The first records of `b` have been read and are legal. */
  ghost predicate ReadTo(b: seq<byte>, cfg: ChunkConfig, count: nat, chunks: seq<BasisChunk>,
                         firstLocations: map<ChunkKey, nat>, expectedOffset: nat)
    requires |b| == WIRE_HEADER_BYTES + WIRE_RECORD_BYTES * count
  {
    && |chunks| <= count && (forall j :: 0 <= j < |chunks| ==> chunks[j] == RecordOf(b, j))
    && Tiles(chunks) && LegalLengths(cfg, chunks, count) && expectedOffset == End(chunks) < U64
    && firstLocations == FirstLocations(chunks)
  }

  lemma ReadOneMore(b: seq<byte>, cfg: ChunkConfig, count: nat, chunks: seq<BasisChunk>,
                    firstLocations: map<ChunkKey, nat>, expectedOffset: nat, c: BasisChunk)
    requires |b| == WIRE_HEADER_BYTES + WIRE_RECORD_BYTES * count && |chunks| < count
    requires ReadTo(b, cfg, count, chunks, firstLocations, expectedOffset) && c == RecordOf(b, |chunks|)
    requires 0 < c.key.length <= cfg.maximumBytes && (|chunks| + 1 != count ==> cfg.minimumBytes <= c.key.length)
    requires c.offset == expectedOffset && expectedOffset + c.key.length < U64
    ensures ReadTo(b, cfg, count, chunks + [c],
                   if c.key in firstLocations then firstLocations else firstLocations[c.key := c.offset],
                   expectedOffset + c.key.length)
  {
    FirstLocationsSnoc(chunks, c);
    AppendLegal(cfg, count, chunks, c);
  }

  /** The record loop of `decode_wire`. */
  method DecodeRecords(b: seq<byte>, cfg: ChunkConfig, count: nat)
    returns (ok: bool, chunks: seq<BasisChunk>, firstLocations: map<ChunkKey, nat>, expectedOffset: nat)
    requires |b| == WIRE_HEADER_BYTES + WIRE_RECORD_BYTES * count
    ensures ok ==> |chunks| == count && ReadTo(b, cfg, count, chunks, firstLocations, expectedOffset)
    ensures !ok ==> exists i :: 0 <= i < count && !RecordLegal(b, cfg, count, i)
  {
    chunks, firstLocations, expectedOffset := [], map[], 0;
    var cursor := WIRE_HEADER_BYTES;
    for i := 0 to count
      invariant cursor == WIRE_HEADER_BYTES + WIRE_RECORD_BYTES * i
      invariant |chunks| == i && ReadTo(b, cfg, count, chunks, firstLocations, expectedOffset)
    {
      var record := b[cursor..cursor + WIRE_RECORD_BYTES];
      assert record == RecordBytes(b, i);
      var offset, length, digest := FromLE(record[..8]), FromLE(record[8..12]), record[12..44];
      var chunk := BasisChunk(offset, ChunkKey(digest, length));
      assert RecordOf(b, i) == chunk;
      if length == 0 || offset != expectedOffset || length > cfg.maximumBytes
         || (i + 1 != count && length < cfg.minimumBytes) || expectedOffset + length >= U64
      {
        assert !RecordLegal(b, cfg, count, i);
        ok := false;
        return;
      }
      ReadOneMore(b, cfg, count, chunks, firstLocations, expectedOffset, chunk);
      chunks := chunks + [chunk];
      if chunk.key !in firstLocations {
        firstLocations := firstLocations[chunk.key := offset];
      }
      expectedOffset := expectedOffset + length;
      cursor := cursor + WIRE_RECORD_BYTES;
    }
    ok := true;
  }

  lemma Decoded(b: seq<byte>, x: BasisFileIndex)
    requires |b| == WIRE_HEADER_BYTES + WIRE_RECORD_BYTES * |x.chunks| && b[..4] == WIRE_MAGIC
    requires FromLE(b[4..8]) == x.averageKib && FromLE(b[8..16]) == x.fileBytes && FromLE(b[16..24]) == |x.chunks|
    requires forall i :: 0 <= i < |x.chunks| ==> x.chunks[i] == RecordOf(b, i)
    ensures Wire(x) == b
  {
    HeaderRoundTrip(b);
    RecordsRoundTrip(b, x.chunks);
    assert b == b[..24] + b[24..];
  }

  /** `decode_wire` inverts `encode_wire` exactly: it accepts a byte string if and only if it is the
      wire of a valid index, and then returns that index. A chunk count whose wire size overflows is told
      apart from all other faults. */
  method DecodeWire(b: seq<byte>) returns (r: Result<BasisFileIndex>)
    ensures r.Ok? ==> ValidIndex(r.value) && Wire(r.value) == b
    ensures r.Err? ==> NotAWire(b) && r.error in {InvalidData, Overflow}
    ensures r == Err(Overflow) ==> |b| >= WIRE_HEADER_BYTES && SizeOverflows(b)
  {
    if |b| < WIRE_HEADER_BYTES || b[..4] != WIRE_MAGIC {
      HeaderRejected(b);
      return Err(InvalidData);
    }
    var averageKib := FromLE(b[4..8]);
    var config := FromAverageKib(averageKib);
    if config.Err? {
      HeaderRejected(b);
      return Err(InvalidData);
    }
    var fileBytes := FromLE(b[8..16]);
    var count := FromLE(b[16..24]);
    if WIRE_HEADER_BYTES + WIRE_RECORD_BYTES * count >= U64 {
      OverflowRejected(b);
      return Err(Overflow);
    }
    if |b| != WIRE_HEADER_BYTES + WIRE_RECORD_BYTES * count {
      HeaderRejected(b);
      return Err(InvalidData);
    }
    var ok, chunks, firstLocations, expectedOffset := DecodeRecords(b, config.value, count);
    if !ok {
      ghost var i :| 0 <= i < count && !RecordLegal(b, config.value, count, i);
      RecordRejected(b, config.value, count, i);
      return Err(InvalidData);
    }
    if expectedOffset != fileBytes {
      TotalRejected(b, chunks);
      return Err(InvalidData);
    }
    Decoded(b, BasisFileIndex(averageKib, fileBytes, chunks, firstLocations));
    r := Ok(BasisFileIndex(averageKib, fileBytes, chunks, firstLocations));
  }

  /** A wire stands for at most one valid index. */
  lemma WireIsInjective(x: BasisFileIndex, y: BasisFileIndex)
    requires ValidIndex(x) && ValidIndex(y) && Wire(x) == Wire(y)
    ensures x == y
  {
    WireForces(Wire(x), x);
    WireForces(Wire(x), y);
    assert x.chunks == y.chunks;
  }

  lemma DefaultIsLegal()
    ensures LegalAverage(DEFAULT_AVERAGE_KIB) && FromAverageKib(DEFAULT_AVERAGE_KIB).value.minimumBytes == 0x8000
  {
    assert IsPowerOfTwo(8) && IsPowerOfTwo(64);
  }

  /** At the default average a basis of up to 2 GiB has an index of at most 4 MiB. */
  lemma DefaultIndexFits(H: Hash, t: GearTable, s: seq<byte>)
    requires |s| <= 0x8000_0000
    ensures LegalAverage(DEFAULT_AVERAGE_KIB)
    ensures |Wire(IndexOf(H, t, DEFAULT_AVERAGE_KIB, s))| <= 4 * 1024 * 1024
  {
    DefaultIsLegal();
    var cfg := FromAverageKib(DEFAULT_AVERAGE_KIB).value;
    if s != [] {
      ChunkCount(t, cfg, s);
    } else {
      assert Cut(t, cfg, s) == 0;
    }
  }
}
