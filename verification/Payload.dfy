/** Self-checking payload records, raw or compressed chunk by chunk (src/adaptive_compression.rs). The
    sending and the receiving side choose their buffers independently. */
module Payload {

  import opened Bytes
  import opened LaneWire

  const MODE_RAW: byte := 0
  const MODE_ZSTD: byte := 1

  const COMPRESSION_CHUNK_BYTES: nat := 1024 * 1024
  const MAX_COMPRESSED_CHUNK_BYTES: nat := 2 * COMPRESSION_CHUNK_BYTES

  datatype Decision = SendRaw | Compress

  /** The compressor as a pair of functions; `expand` has no value on bytes that are not a frame. */
  datatype Zstd = Zstd(compress: seq<byte> -> seq<byte>, expand: seq<byte> -> Option<seq<byte>>)

  /** What the transfer relies on: a chunk survives compression, and its frame is never empty and never
      larger than twice the largest chunk. */
  ghost predicate Sound(z: Zstd) {
    forall x :: 0 < |x| <= COMPRESSION_CHUNK_BYTES ==>
      0 < |z.compress(x)| <= MAX_COMPRESSED_CHUNK_BYTES && z.expand(z.compress(x)) == Some(x)
  }

  function Limit(buffer: nat): nat {
    if buffer < COMPRESSION_CHUNK_BYTES then buffer else COMPRESSION_CHUNK_BYTES
  }

  // ---------------------------------------------------------------- the wire format

  datatype Frame = Frame(raw: seq<byte>, packed: seq<byte>)

  function FrameWire(f: Frame): seq<byte> {
    BE(|f.raw|, 4) + BE(|f.packed|, 4) + f.packed
  }

  function FramesWire(fs: seq<Frame>): seq<byte> {
    Flat(FrameWire, fs)
  }

  function Expansion(f: Frame): seq<byte> {
    f.raw
  }

  function Expanded(fs: seq<Frame>): seq<byte> {
    Flat(Expansion, fs)
  }

  /** A payload record without its digest: the bytes themselves, or frames. */
  datatype Record = Raw(bytes: seq<byte>) | Packed(frames: seq<Frame>)

  function Data(p: Record): seq<byte> {
    match p
    case Raw(bytes) => bytes
    case Packed(frames) => Expanded(frames)
  }

  function BodyWire(p: Record): seq<byte> {
    match p
    case Raw(bytes) => bytes
    case Packed(frames) => FramesWire(frames)
  }

  function Mode(p: Record): byte {
    if p.Packed? then MODE_ZSTD else MODE_RAW
  }

  function Wire(h: Hash, p: Record): seq<byte> {
    [Mode(p)] + BodyWire(p) + h(Data(p))
  }

  /** What a receiver with this buffer takes as a frame. */
  predicate Acceptable(f: Frame, z: Zstd, buffer: nat) {
    && 0 < |f.raw| <= Limit(buffer)
    && 0 < |f.packed| <= MAX_COMPRESSED_CHUNK_BYTES
    && z.expand(f.packed) == Some(f.raw)
  }

  predicate AllAcceptable(p: Record, z: Zstd, buffer: nat) {
    p.Packed? ==> forall i | 0 <= i < |p.frames| :: Acceptable(p.frames[i], z, buffer)
  }

  /** How a sender cuts: every frame is the compressor's output, every frame but the last is full. */
  predicate CutBySender(p: Record, z: Zstd, limit: nat) {
    p.Packed? ==>
      forall i | 0 <= i < |p.frames| ::
        && p.frames[i].packed == z.compress(p.frames[i].raw)
        && 0 < |p.frames[i].raw| <= limit
        && (i < |p.frames| - 1 ==> |p.frames[i].raw| == limit)
  }

  lemma Snoc(fs: seq<Frame>, f: Frame)
    ensures FramesWire(fs + [f]) == FramesWire(fs) + FrameWire(f)
    ensures Expanded(fs + [f]) == Expanded(fs) + f.raw
  {
    FlatSnoc(FrameWire, fs, f);
    FlatSnoc(Expansion, fs, f);
  }

  lemma FirstFrames(fs: seq<Frame>, i: nat)
    requires i <= |fs|
    ensures FramesWire(fs[..i]) <= FramesWire(fs)
    ensures Expanded(fs[..i]) <= Expanded(fs)
  {
    FlatPrefix(FrameWire, fs, i);
    FlatPrefix(Expansion, fs, i);
  }

  /** Frames are never empty, so a prefix of the frames that already holds all the data is all of them. */
  lemma {:induction false} NoFrameIsEmpty(fs: seq<Frame>, i: nat)
    requires i <= |fs| && forall k | 0 <= k < |fs| :: 0 < |fs[k].raw|
    requires |Expanded(fs[..i])| == |Expanded(fs)|
    ensures i == |fs|
  {
    if i < |fs| {
      Snoc(fs[..i], fs[i]);
      assert fs[..i + 1] == fs[..i] + [fs[i]];
      FirstFrames(fs, i + 1);
    }
  }

  lemma TakeU32(v: nat, s: seq<byte>)
    requires v < U32 && BE(v, 4) <= s
    ensures FromBE(s[..4]) == v
  {
    Widths();
    FromBEOfBE(v, 4);
    assert s[..4] == BE(v, 4);
  }

  lemma FrameShows(f: Frame, s: seq<byte>)
    requires |f.raw| < U32 && |f.packed| < U32 && FrameWire(f) <= s
    ensures 8 + |f.packed| <= |s|
    ensures FromBE(s[..4]) == |f.raw| && FromBE(s[4..][..4]) == |f.packed|
    ensures s[8..][..|f.packed|] == f.packed
  {
    var w := FrameWire(f);
    assert s[..|w|] == w;
    assert s[..4] == w[..4] == BE(|f.raw|, 4);
    assert s[4..][..4] == w[4..8] == BE(|f.packed|, 4);
    TakeU32(|f.raw|, s);
    TakeU32(|f.packed|, s[4..]);
    assert s[8..][..|f.packed|] == w[8..];
  }

  /** A frame on the wire: two lengths, high byte first, then the compressed bytes. */
  lemma FrameAt(f: Frame)
    ensures var w := FrameWire(f);
      && |w| == 8 + |f.packed| && w[..4] == BE(|f.raw|, 4) && w[4..8] == BE(|f.packed|, 4) && w[8..] == f.packed
  {
  }

  /** A record on the wire: the mode, the bytes themselves or the frames, and the digest of the bytes. */
  lemma RecordAt(h: Hash, bytes: seq<byte>, fs: seq<Frame>, f: Frame)
    ensures Wire(h, Raw(bytes)) == [0] + bytes + h(bytes)
    ensures Wire(h, Packed([])) == [1] + h([])
    ensures FramesWire(fs + [f]) == FramesWire(fs) + FrameWire(f) && Expanded(fs + [f]) == Expanded(fs) + f.raw
    ensures Wire(h, Packed(fs)) == [1] + FramesWire(fs) + h(Expanded(fs))
  {
    Snoc(fs, f);
    assert [1] + [] + h([]) == [1] + h([]);
  }

  /** The limits of a receiver in numbers. */
  lemma AcceptableMeans(f: Frame, z: Zstd, buffer: nat)
    ensures Acceptable(f, z, buffer) <==>
      && 0 < |f.raw| <= 1024 * 1024 && |f.raw| <= buffer && 0 < |f.packed| <= 2 * 1024 * 1024
      && z.expand(f.packed) == Some(f.raw)
  {
  }

  /** Where a sender cuts: frame `i` holds the bytes from `i * limit` on, `limit` of them unless it is the
      last. */
  lemma {:induction false} CutAt(p: Record, z: Zstd, limit: nat, i: nat)
    requires p.Packed? && CutBySender(p, z, limit) && i < |p.frames|
    ensures i * limit + |p.frames[i].raw| <= |Data(p)|
    ensures Data(p)[i * limit..i * limit + |p.frames[i].raw|] == p.frames[i].raw
    ensures |p.frames[i].raw| == limit || (i == |p.frames| - 1 && 0 < |p.frames[i].raw| < limit)
    ensures p.frames[i].packed == z.compress(p.frames[i].raw)
  {
    FullFrames(p, z, limit, i);
    var before, f := p.frames[..i], p.frames[i];
    assert p.frames[..i + 1] == before + [f];
    Snoc(before, f);
    FirstFrames(p.frames, i + 1);
    InFront(Expanded(before), f.raw, Data(p));
  }

  lemma InFront(a: seq<byte>, b: seq<byte>, s: seq<byte>)
    requires a + b <= s
    ensures s[|a|..|a| + |b|] == b
  {
    assert s[..|a| + |b|] == a + b;
  }

  lemma {:induction false} FullFrames(p: Record, z: Zstd, limit: nat, i: nat)
    requires p.Packed? && CutBySender(p, z, limit) && i < |p.frames|
    ensures |Expanded(p.frames[..i])| == i * limit
  {
    if i > 0 {
      FullFrames(p, z, limit, i - 1);
      assert p.frames[..i] == p.frames[..i - 1] + [p.frames[i - 1]];
      Snoc(p.frames[..i - 1], p.frames[i - 1]);
    }
  }

  // ---------------------------------------------------------------- files written by position

  /** `content` after writing `data` at `offset`; a gap reads as zeros, and no data changes nothing. */
  function Overlay(content: seq<byte>, offset: nat, data: seq<byte>): (r: seq<byte>)
  {
    if data == [] then content
    else if |content| < offset then content + seq(offset - |content|, _ => 0) + data
    else if |content| <= offset + |data| then content[..offset] + data
    else content[..offset] + data + content[offset + |data|..]
  }

  /** A positional write never shortens a file; it lengthens it just enough to hold the data. */
  lemma OverlayLength(content: seq<byte>, offset: nat, data: seq<byte>)
    ensures data == [] ==> Overlay(content, offset, data) == content
    ensures data != [] ==>
      |Overlay(content, offset, data)| == if |content| < offset + |data| then offset + |data| else |content|
  {
  }

  /** What a positional write means byte by byte. */
  lemma OverlayMeans(content: seq<byte>, offset: nat, data: seq<byte>, i: nat)
    requires i < |Overlay(content, offset, data)|
    ensures data != [] ==> |Overlay(content, offset, data)| >= offset + |data|
    ensures Overlay(content, offset, data)[i] ==
            if offset <= i < offset + |data| then data[i - offset]
            else if i < |content| then content[i] else 0
  {
  }

  /** Writes at tiling positions amount to one write. */
  lemma OverlayTwice(content: seq<byte>, offset: nat, a: seq<byte>, b: seq<byte>)
    ensures Overlay(Overlay(content, offset, a), offset + |a|, b) == Overlay(content, offset, a + b)
  {
    var once := Overlay(content, offset, a + b);
    var twice := Overlay(Overlay(content, offset, a), offset + |a|, b);
    if a == [] || b == [] {
      assert a + b == if a == [] then b else a;
    } else {
      assert |once| == |twice|;
      forall i | 0 <= i < |once|
        ensures once[i] == twice[i]
      {
        OverlayMeans(content, offset, a + b, i);
        OverlayMeans(Overlay(content, offset, a), offset + |a|, b, i);
        if i < offset + |a| {
          OverlayMeans(content, offset, a, i);
        }
      }
      assert once == twice;
    }
  }

  class Target {
    var content: seq<byte>

    constructor (content: seq<byte>)
      ensures this.content == content
    {
      this.content := content;
    }

    method WriteAllAt(chunk: seq<byte>, offset: nat)
      modifies this
      ensures content == Overlay(old(content), offset, chunk)
    {
      content := Overlay(content, offset, chunk);
    }

    /** A write that continues what was written from `start` on, the ghost `written`. */
    method WriteNext(chunk: seq<byte>, offset: nat, ghost base: seq<byte>, ghost start: nat, ghost written: seq<byte>)
      requires offset == start + |written| && content == Overlay(base, start, written)
      modifies this
      ensures content == Overlay(base, start, written + chunk)
    {
      OverlayTwice(base, start, written, chunk);
      WriteAllAt(chunk, offset);
    }
  }

  // ---------------------------------------------------------------- sending

  /** The record one more chunk makes. */
  function Extended(p: Record, z: Zstd, chunk: seq<byte>): Record {
    match p
    case Raw(bytes) => Raw(bytes + chunk)
    case Packed(frames) => Packed(frames + [Frame(chunk, z.compress(chunk))])
  }

  function ChunkWire(packed: bool, z: Zstd, chunk: seq<byte>): seq<byte> {
    if packed then FrameWire(Frame(chunk, z.compress(chunk))) else chunk
  }

  lemma ExtendedMeans(p: Record, z: Zstd, chunk: seq<byte>)
    ensures Data(Extended(p, z, chunk)) == Data(p) + chunk
    ensures BodyWire(Extended(p, z, chunk)) == BodyWire(p) + ChunkWire(p.Packed?, z, chunk)
  {
    if p.Packed? {
      Snoc(p.frames, Frame(chunk, z.compress(chunk)));
    }
  }

  predicate AllFull(p: Record, limit: nat) {
    p.Packed? ==> forall i | 0 <= i < |p.frames| :: |p.frames[i].raw| == limit
  }

  lemma ExtendedCut(p: Record, z: Zstd, limit: nat, chunk: seq<byte>)
    requires CutBySender(p, z, limit) && AllFull(p, limit) && 0 < |chunk| <= limit
    ensures CutBySender(Extended(p, z, chunk), z, limit)
    ensures |chunk| == limit ==> AllFull(Extended(p, z, chunk), limit)
  {
  }

  /** Bytes `start..start + n` of a file; nothing when there is nothing to read. */
  function Part(file: seq<byte>, start: nat, n: nat): seq<byte>
    requires n == 0 || start + n <= |file|
  {
    if n == 0 then [] else file[start..start + n]
  }

  lemma PartGrows(file: seq<byte>, start: nat, n: nat, k: nat)
    requires 0 < k && start + n + k <= |file|
    ensures Part(file, start, n) + file[start + n..start + n + k] == Part(file, start, n + k)
  {
  }

  /** A sender's record holds nothing a receiver would refuse, as long as the receiver's buffer is not
      smaller than the sender's (both capped at one compression chunk). */
  lemma SenderIsAcceptable(p: Record, z: Zstd, sending: nat, receiving: nat)
    requires Sound(z) && CutBySender(p, z, Limit(sending))
    requires p.Packed? ==> Limit(sending) <= receiving
    ensures AllAcceptable(p, z, receiving)
  {
  }

  /** One chunk's bytes on the wire, in the record's mode. The ghosts are the record so far, which went
      out after `begun`, and the record that results. */
  method SendChunk(z: Zstd, link: Link, chunk: seq<byte>, decision: Decision, limit: nat, ghost begun: seq<byte>,
                   ghost sent: Record)
    returns (ghost next: Record)
    requires 0 < |chunk| <= limit
    requires sent.Packed? == decision.Compress? && CutBySender(sent, z, limit) && AllFull(sent, limit)
    requires link.outgoing == begun + BodyWire(sent)
    modifies link`outgoing
    ensures next.Packed? == decision.Compress? && CutBySender(next, z, limit)
    ensures |chunk| == limit ==> AllFull(next, limit)
    ensures Data(next) == Data(sent) + chunk
    ensures link.outgoing == begun + BodyWire(next)
  {
    next := Extended(sent, z, chunk);
    ExtendedMeans(sent, z, chunk);
    ExtendedCut(sent, z, limit, chunk);
    WriteChunk(z, link, chunk, decision);
    Joined(begun, BodyWire(sent), ChunkWire(decision.Compress?, z, chunk));
  }

  lemma Joined(a: seq<byte>, b: seq<byte>, c: seq<byte>)
    ensures a + b + c == a + (b + c)
  {
  }

  method WriteChunk(z: Zstd, link: Link, chunk: seq<byte>, decision: Decision)
    modifies link`outgoing
    ensures link.outgoing == old(link.outgoing) + ChunkWire(decision.Compress?, z, chunk)
  {
    match decision
    case SendRaw =>
      link.WriteAll(chunk);
    case Compress =>
      var packed := z.compress(chunk);
      link.WriteAll(BE(|chunk|, 4));
      link.WriteAll(BE(|packed|, 4));
      link.WriteAll(packed);
  }

  /** The body of the loop of `send_payload`, once the size of the chunk is known. */
  method SendNext(z: Zstd, link: Link, file: seq<byte>, start: nat, transferred: nat, requested: nat, hashed: seq<byte>,
                  decision: Decision, limit: nat, ghost begun: seq<byte>, ghost sent: Record)
    returns (hashed': seq<byte>, ghost next: Record)
    requires 0 < requested <= limit && start + transferred + requested <= |file|
    requires sent.Packed? == decision.Compress? && CutBySender(sent, z, limit) && AllFull(sent, limit)
    requires hashed == Data(sent) == Part(file, start, transferred) && link.outgoing == begun + BodyWire(sent)
    modifies link`outgoing
    ensures next.Packed? == decision.Compress? && CutBySender(next, z, limit)
    ensures requested == limit ==> AllFull(next, limit)
    ensures hashed' == Data(next) == Part(file, start, transferred + requested)
    ensures link.outgoing == begun + BodyWire(next)
  {
    var chunk := file[start + transferred..start + transferred + requested];
    PartGrows(file, start, transferred, requested);
    next := SendChunk(z, link, chunk, decision, limit, begun, sent);
    hashed' := hashed + chunk;
  }

  /** The loop of `send_payload`, over `count` bytes of a file from `start` on. The result is what the
      hasher was fed; the ghost result is the record that went out. */
  method SendChunks(z: Zstd, link: Link, file: seq<byte>, start: nat, count: nat, limit: nat,
                    decision: Decision)
    returns (r: Result<seq<byte>>, ghost sent: Record)
    requires limit > 0
    modifies link`outgoing
    ensures r.Err? <==> count > 0 && |file| < start + count
    ensures r.Err? ==> r.error == UnexpectedEof
    ensures sent.Packed? == decision.Compress? && CutBySender(sent, z, limit)
    ensures link.outgoing == old(link.outgoing) + BodyWire(sent)
    ensures r.Ok? ==> r.value == Data(sent) == Part(file, start, count)
  {
    sent := if decision.Compress? then Packed([]) else Raw([]);
    var hashed, transferred := [], 0;
    while transferred < count
      invariant transferred <= count && (transferred == 0 || start + transferred <= |file|)
      invariant sent.Packed? == decision.Compress? && CutBySender(sent, z, limit)
      invariant transferred < count ==> AllFull(sent, limit)
      invariant hashed == Data(sent) == Part(file, start, transferred)
      invariant link.outgoing == old(link.outgoing) + BodyWire(sent)
    {
      var requested := Min(count - transferred, limit);
      if |file| < start + transferred + requested {
        return Err(UnexpectedEof), sent;
      }
      hashed, sent := SendNext(z, link, file, start, transferred, requested, hashed, decision, limit,
                               old(link.outgoing), sent);
      transferred := transferred + requested;
    }
    r := Ok(hashed);
  }

  lemma Assembled(before: seq<byte>, a: seq<byte>, b: seq<byte>, c: seq<byte>)
    ensures before + a + b + c == before + (a + b + c)
  {
  }

  /** `send_payload` over bytes `start..end` of a file. The ghost result is the record that was sent. A
      range that runs past the end of the file fails, except an empty one, which reads nothing. */
  method Send(h: Hash, z: Zstd, link: Link, file: seq<byte>, start: nat, end: nat, buffer: nat,
              decision: Decision)
    returns (r: Result<bool>, ghost sent: Record)
    modifies link`outgoing
    ensures r == Err(InvalidInput) <==> end < start || buffer == 0
    ensures r == Err(InvalidInput) ==> link.outgoing == old(link.outgoing)
    ensures r == Err(UnexpectedEof) <==> buffer != 0 && start < end && |file| < end
    ensures r.Err? ==> r.error in {InvalidInput, UnexpectedEof}
    ensures r.Ok? ==>
      && r.value == decision.Compress? == sent.Packed?
      && link.outgoing == old(link.outgoing) + Wire(h, sent)
      && Data(sent) == Part(file, start, end - start)
      && CutBySender(sent, z, Limit(buffer))
  {
    sent := Raw([]);
    if end < start || buffer == 0 {
      return Err(InvalidInput), sent;
    }
    link.WriteAll([if decision.Compress? then MODE_ZSTD else MODE_RAW]);
    var hashed;
    hashed, sent := SendChunks(z, link, file, start, end - start, Limit(buffer), decision);
    if hashed.Err? {
      return Err(hashed.error), sent;
    }
    Assembled(old(link.outgoing), [Mode(sent)], BodyWire(sent), h(hashed.value));
    link.WriteAll(h(hashed.value));
    r := Ok(decision.Compress?);
  }

  // ---------------------------------------------------------------- receiving

  /** `got` is the beginning of `sent`. */
  predicate Begins(got: Record, sent: Record) {
    if got.Raw? then sent.Raw? && got.bytes <= sent.bytes
    else sent.Packed? && got.frames <= sent.frames
  }

  lemma BeginsWhole(got: Record, sent: Record, z: Zstd, buffer: nat)
    requires Begins(got, sent) && |Data(got)| == |Data(sent)| && AllAcceptable(sent, z, buffer)
    ensures got == sent
  {
    if got.Packed? {
      assert forall k | 0 <= k < |sent.frames| :: Acceptable(sent.frames[k], z, buffer);
      assert sent.frames[..|got.frames|] == got.frames;
      NoFrameIsEmpty(sent.frames, |got.frames|);
    }
  }

  /** `read_mode`. */
  method ReadMode(link: Link) returns (r: Result<Decision>)
    modifies link`incoming
    ensures old(link.incoming) == [] <==> r == Err(UnexpectedEof)
    ensures r.Err? ==> r.error in {UnexpectedEof, InvalidData}
    ensures r.Ok? ==>
      After(old(link.incoming), [if r.value.Compress? then MODE_ZSTD else MODE_RAW], link.incoming)
    ensures old(link.incoming) != [] ==>
      (r.Ok? <==> old(link.incoming)[0] == MODE_RAW || old(link.incoming)[0] == MODE_ZSTD)
  {
    var mode := link.ReadU8();
    if mode.Err? {
      return Err(mode.error);
    }
    if mode.value == MODE_RAW {
      r := Ok(SendRaw);
    } else if mode.value == MODE_ZSTD {
      r := Ok(Compress);
    } else {
      r := Err(InvalidData);
    }
  }

  method ReadU32(link: Link) returns (r: Result<nat>)
    modifies link`incoming
    ensures |old(link.incoming)| < 4 <==> r.Err?
    ensures r.Err? ==> r == Err(UnexpectedEof)
    ensures r.Ok? ==>
      && r == Ok(FromBE(old(link.incoming)[..4])) && link.incoming == old(link.incoming)[4..]
      && After(old(link.incoming), BE(r.value, 4), link.incoming)
  {
    var bytes := link.ReadExact(4);
    if bytes.Err? {
      return Err(bytes.error);
    }
    BEOfFromBE(bytes.value);
    r := Ok(FromBE(bytes.value));
  }

  /** One compressed chunk: two lengths, both checked before anything is allocated, then a frame that
      must expand to exactly the announced length. Whatever acceptable frame the stream begins with is
      the one that is read, and nothing else is accepted. */
  method ReceiveFrame(z: Zstd, link: Link, remaining: nat, buffer: nat, ghost sent: Frame)
    returns (r: Result<seq<byte>>, ghost got: Frame)
    modifies link`incoming
    ensures r.Ok? ==>
      && Acceptable(got, z, buffer) && |got.raw| <= remaining && r.value == got.raw
      && After(old(link.incoming), FrameWire(got), link.incoming)
    ensures Acceptable(sent, z, buffer) && |sent.raw| <= remaining && FrameWire(sent) <= old(link.incoming) ==>
      r.Ok? && got == sent
    ensures r.Err? ==> r.error in {UnexpectedEof, InvalidData}
  {
    ghost var before := link.incoming;
    if Acceptable(sent, z, buffer) && FrameWire(sent) <= before {
      FrameShows(sent, before);
      assert before[4..][4..] == before[8..];
    }
    got := sent;
    var rawLength := ReadU32(link);
    if rawLength.Err? {
      return Err(rawLength.error), got;
    }
    ghost var second := link.incoming;
    var packedLength := ReadU32(link);
    if packedLength.Err? {
      return Err(packedLength.error), got;
    }
    ghost var third := link.incoming;
    AfterAgain(before, BE(rawLength.value, 4), BE(packedLength.value, 4), second, third);
    if rawLength.value == 0 || rawLength.value > COMPRESSION_CHUNK_BYTES || rawLength.value > buffer
       || rawLength.value > remaining {
      return Err(InvalidData), got;
    }
    if packedLength.value == 0 || packedLength.value > MAX_COMPRESSED_CHUNK_BYTES {
      return Err(InvalidData), got;
    }
    var packed := link.ReadExact(packedLength.value);
    if packed.Err? {
      return Err(packed.error), got;
    }
    AfterAgain(before, BE(rawLength.value, 4) + BE(packedLength.value, 4), packed.value, third, link.incoming);
    var raw := z.expand(packed.value);
    if raw.None? || |raw.value| != rawLength.value {
      return Err(InvalidData), got;
    }
    got := Frame(raw.value, packed.value);
    r := Ok(raw.value);
  }

  /** `stream` holds the body of `sent`, a record this receiver accepts, and `got` is its beginning. */
  ghost predicate OnCourse(stream: seq<byte>, got: Record, sent: Record, z: Zstd, buffer: nat) {
    BodyWire(sent) <= stream && AllAcceptable(sent, z, buffer) && Begins(got, sent)
  }

  function WithFrame(p: Record, f: Frame): Record
    requires p.Packed?
  {
    Packed(p.frames + [f])
  }

  lemma WithFrameMeans(p: Record, f: Frame, z: Zstd, buffer: nat)
    requires p.Packed? && AllAcceptable(p, z, buffer) && Acceptable(f, z, buffer)
    ensures BodyWire(WithFrame(p, f)) == BodyWire(p) + FrameWire(f)
    ensures Data(WithFrame(p, f)) == Data(p) + f.raw
    ensures AllAcceptable(WithFrame(p, f), z, buffer)
  {
    Snoc(p.frames, f);
  }

  lemma MoreFrames(got: Record, sent: Record)
    requires Begins(got, sent) && got.Packed? && |Data(got)| < |Data(sent)|
    ensures |got.frames| < |sent.frames|
  {
    assert got.frames != sent.frames;
  }

  lemma OneFrameOn(gs: seq<Frame>, fs: seq<Frame>)
    requires gs <= fs && |gs| < |fs|
    ensures |Expanded(gs)| + |fs[|gs|].raw| <= |Expanded(fs)|
  {
    assert fs[..|gs| + 1] == gs + [fs[|gs|]];
    FlatPrefix(Expansion, fs, |gs| + 1);
    FlatSnoc(Expansion, gs, fs[|gs|]);
  }

  /** The frame that comes next on a stream that holds more of `sent`. */
  lemma NextFrame(stream: seq<byte>, here: seq<byte>, got: Record, sent: Record, z: Zstd, buffer: nat)
    returns (f: Frame)
    requires OnCourse(stream, got, sent, z, buffer) && got.Packed? && After(stream, BodyWire(got), here)
    requires |Data(got)| < |Data(sent)|
    ensures Acceptable(f, z, buffer) && FrameWire(f) <= here && |Data(got)| + |f.raw| <= |Data(sent)|
    ensures Begins(WithFrame(got, f), sent)
  {
    MoreFrames(got, sent);
    f := sent.frames[|got.frames|];
    OneFrameOn(got.frames, sent.frames);
    NextElement(FrameWire, sent.frames, got.frames, stream, here);
  }

  lemma NextBytes(stream: seq<byte>, here: seq<byte>, got: Record, sent: Record, z: Zstd, buffer: nat, n: nat)
    requires OnCourse(stream, got, sent, z, buffer) && got.Raw? && After(stream, got.bytes, here)
    requires |got.bytes| + n <= |sent.bytes|
    ensures n <= |here| && Begins(Raw(got.bytes + here[..n]), sent)
  {
    var k := |got.bytes|;
    assert stream[..k + n] == sent.bytes[..k + n];
    assert stream[..k + n] == got.bytes + here[..n];
  }

  /** `got` has been read from `stream`, and `here` is what is left of it. */
  ghost predicate Reached(stream: seq<byte>, here: seq<byte>, got: Record, z: Zstd, buffer: nat, decision: Decision) {
    got.Packed? == decision.Compress? && AllAcceptable(got, z, buffer) && After(stream, BodyWire(got), here)
  }

  /** The body of the loop of `receive_payload`: the next bytes, or the next frame. */
  method ReceiveChunk(z: Zstd, link: Link, decision: Decision, remaining: nat, buffer: nat,
                      ghost stream: seq<byte>, ghost got: Record, ghost sent: Record)
    returns (r: Result<seq<byte>>, ghost next: Record)
    requires remaining > 0 && buffer > 0
    requires Reached(stream, link.incoming, got, z, buffer, decision)
    modifies link`incoming
    ensures r.Ok? ==>
      && Reached(stream, link.incoming, next, z, buffer, decision)
      && 0 < |r.value| <= remaining && Data(next) == Data(got) + r.value
    ensures OnCourse(stream, got, sent, z, buffer) && |Data(got)| + remaining == |Data(sent)| ==>
      r.Ok? && OnCourse(stream, next, sent, z, buffer)
    ensures r.Err? ==> r.error in {UnexpectedEof, InvalidData}
  {
    ghost var expected := OnCourse(stream, got, sent, z, buffer) && |Data(got)| + remaining == |Data(sent)|;
    ghost var here := link.incoming;
    next := got;
    match decision
    case SendRaw =>
      var requested := Min(remaining, buffer);
      if expected {
        NextBytes(stream, here, got, sent, z, buffer, requested);
      }
      r := link.ReadExact(requested);
      if r.Ok? {
        next := Raw(got.bytes + r.value);
        AfterAgain(stream, got.bytes, r.value, here, link.incoming);
      }
    case Compress =>
      ghost var f := Frame([], []);
      if expected {
        f := NextFrame(stream, here, got, sent, z, buffer);
      }
      ghost var g;
      r, g := ReceiveFrame(z, link, remaining, buffer, f);
      if r.Ok? {
        next := WithFrame(got, g);
        WithFrameMeans(got, g, z, buffer);
        AfterAgain(stream, BodyWire(got), FrameWire(g), here, link.incoming);
      }
  }

  /** The loop of `receive_payload`: every chunk is hashed and written where the one before it ended. */
  method ReceiveChunks(z: Zstd, link: Link, target: Target, start: nat, count: nat, buffer: nat, decision: Decision,
                       ghost sent: Record)
    returns (r: Result<seq<byte>>, ghost got: Record)
    requires buffer > 0
    modifies link`incoming, target
    ensures got.Packed? == decision.Compress? && AllAcceptable(got, z, buffer) && |Data(got)| <= count
    ensures target.content == Overlay(old(target.content), start, Data(got))
    ensures BodyWire(got) <= old(link.incoming)
    ensures r.Ok? ==>
      r.value == Data(got) && |Data(got)| == count && After(old(link.incoming), BodyWire(got), link.incoming)
    ensures (&& sent.Packed? == decision.Compress? && |Data(sent)| == count
             && AllAcceptable(sent, z, buffer) && BodyWire(sent) <= old(link.incoming)) ==>
      r.Ok? && got == sent
    ensures r.Err? ==> r.error in {UnexpectedEof, InvalidData}
  {
    ghost var stream := link.incoming;
    got := if decision.Compress? then Packed([]) else Raw([]);
    ghost var expected := OnCourse(stream, got, sent, z, buffer) && |Data(sent)| == count;
    var hashed, transferred := [], 0;
    while transferred < count
      invariant transferred == |Data(got)| <= count && hashed == Data(got)
      invariant Reached(stream, link.incoming, got, z, buffer, decision)
      invariant target.content == Overlay(old(target.content), start, Data(got))
      invariant expected ==> OnCourse(stream, got, sent, z, buffer)
    {
      ghost var next;
      var chunk;
      AfterIsPrefix(stream, BodyWire(got), link.incoming);
      chunk, next := ReceiveChunk(z, link, decision, count - transferred, buffer, stream, got, sent);
      if chunk.Err? {
        return Err(chunk.error), got;
      }
      hashed := hashed + chunk.value;
      target.WriteNext(chunk.value, start + transferred, old(target.content), start, Data(got));
      transferred := transferred + |chunk.value|;
      got := next;
    }
    AfterIsPrefix(stream, BodyWire(got), link.incoming);
    if expected {
      BeginsWhole(got, sent, z, buffer);
    }
    r := Ok(hashed);
  }

  lemma WireShows(h: Hash, p: Record, s: seq<byte>)
    requires Wire(h, p) <= s
    ensures s != [] && s[0] == Mode(p) && BodyWire(p) <= s[1..]
  {
    assert s[..|Wire(h, p)|] == Wire(h, p);
    assert s[1..][..|BodyWire(p)|] == Wire(h, p)[1..1 + |BodyWire(p)|];
  }

  /** The record itself: what `Receive` promises, with the file given as one positional write. */
  method ReceiveRecord(h: Hash, z: Zstd, link: Link, target: Target, start: nat, end: nat, buffer: nat,
                       ghost sent: Record)
    returns (r: Result<bool>, ghost got: Record)
    modifies link`incoming, target
    ensures r == Err(InvalidInput) <==> end < start || buffer == 0
    ensures r == Err(InvalidInput) ==> link.incoming == old(link.incoming) && target.content == old(target.content)
    ensures target.content == Overlay(old(target.content), start, Data(got))
    ensures start <= end ==> |Data(got)| <= end - start
    ensures AllAcceptable(got, z, buffer) && (Data(got) != [] ==> [Mode(got)] + BodyWire(got) <= old(link.incoming))
    ensures r.Ok? ==>
      && r.value == got.Packed? && AllAcceptable(got, z, buffer) && |Data(got)| == end - start
      && After(old(link.incoming), Wire(h, got), link.incoming)
    ensures (&& start <= end && buffer > 0 && |Data(sent)| == end - start
             && AllAcceptable(sent, z, buffer) && Wire(h, sent) <= old(link.incoming)) ==>
      r.Ok? && got == sent
    ensures r.Err? ==> r.error in {InvalidInput, UnexpectedEof, InvalidData}
  {
    got := Raw([]);
    if end < start || buffer == 0 {
      return Err(InvalidInput), got;
    }
    ghost var before := link.incoming;
    ghost var expected := |Data(sent)| == end - start && AllAcceptable(sent, z, buffer) && Wire(h, sent) <= before;
    if expected {
      WireShows(h, sent, before);
    }
    var decision := ReadMode(link);
    if decision.Err? {
      return Err(decision.error), got;
    }
    ghost var second := link.incoming;
    var actual;
    actual, got := ReceiveChunks(z, link, target, start, end - start, buffer, decision.value, sent);
    PrefixBehind(before, [Mode(got)], second, BodyWire(got));
    if actual.Err? {
      return Err(actual.error), got;
    }
    ghost var third := link.incoming;
    AfterAgain(before, [Mode(got)], BodyWire(got), second, third);
    if expected {
      PrefixAfter(before, [Mode(got)] + BodyWire(got), h(Data(got)), third);
    }
    var digest := link.ReadExact(32);
    if digest.Err? {
      return Err(digest.error), got;
    }
    if digest.value != h(actual.value) {
      return Err(InvalidData), got;
    }
    AfterAgain(before, [Mode(got)] + BodyWire(got), digest.value, third, link.incoming);
    r := Ok(decision.value.Compress?);
  }

  /** Only the range written changes, and it holds the data. */
  lemma OverlaidOnly(content: seq<byte>, start: nat, data: seq<byte>)
    ensures var r := Overlay(content, start, data);
      && |r| >= |content| && (data != [] ==> start + |data| <= |r|) && (|r| == |content| || |r| == start + |data|)
      && (forall i | 0 <= i < |content| && !(start <= i < start + |data|) :: r[i] == content[i])
      && (forall i | 0 <= i < |data| :: r[start + i] == data[i])
  {
    OverlayLength(content, start, data);
    var r := Overlay(content, start, data);
    forall i | 0 <= i < |r|
      ensures r[i] == if start <= i < start + |data| then data[i - start] else if i < |content| then content[i] else 0
    {
      OverlayMeans(content, start, data, i);
    }
  }

  /** `receive_payload` into bytes `start..end` of a file. Success means the stream began with a record of
      exactly that many bytes whose digest matches them, that the file now holds those bytes and is
      otherwise as it was, and that nothing beyond the record was read. Every record the receiver can
      accept, such as the ghost `sent`, is received. Even a failure has written only a beginning of the
      range, with the bytes that a beginning of the stream stands for. */
  method Receive(h: Hash, z: Zstd, link: Link, target: Target, start: nat, end: nat, buffer: nat, ghost sent: Record)
    returns (r: Result<bool>, ghost got: Record)
    modifies link`incoming, target
    ensures r == Err(InvalidInput) <==> end < start || buffer == 0
    ensures r == Err(InvalidInput) ==> link.incoming == old(link.incoming) && target.content == old(target.content)
    ensures target.content == Overlay(old(target.content), start, Data(got))
    ensures start <= end ==> |Data(got)| <= end - start
    ensures |target.content| >= |old(target.content)| && (Data(got) != [] ==> start + |Data(got)| <= |target.content|)
    ensures |target.content| == |old(target.content)| || |target.content| == start + |Data(got)|
    ensures forall i | 0 <= i < |old(target.content)| && !(start <= i < start + |Data(got)|) ::
      target.content[i] == old(target.content)[i]
    ensures forall i | 0 <= i < |Data(got)| :: target.content[start + i] == Data(got)[i]
    ensures AllAcceptable(got, z, buffer) && (Data(got) != [] ==> [Mode(got)] + BodyWire(got) <= old(link.incoming))
    ensures r.Ok? ==>
      && r.value == got.Packed? && AllAcceptable(got, z, buffer) && |Data(got)| == end - start
      && After(old(link.incoming), Wire(h, got), link.incoming)
    ensures (&& start <= end && buffer > 0 && |Data(sent)| == end - start
             && AllAcceptable(sent, z, buffer) && Wire(h, sent) <= old(link.incoming)) ==>
      r.Ok? && got == sent
    ensures r.Err? ==> r.error in {InvalidInput, UnexpectedEof, InvalidData}
  {
    ghost var before := target.content;
    r, got := ReceiveRecord(h, z, link, target, start, end, buffer, sent);
    OverlaidOnly(before, start, Data(got));
  }

  // ---------------------------------------------------------------- many records on one connection

  /** One transfer: bytes `start..end` of a file, and what each side chose for itself. */
  datatype Item = Item(file: seq<byte>, start: nat, end: nat, decision: Decision, sending: nat, receiving: nat)

  predicate Deliverable(t: Item) {
    && t.start <= t.end && (t.start == t.end || t.end <= |t.file|)
    && t.sending > 0 && t.receiving > 0
    && (t.decision.Compress? ==> Limit(t.sending) <= t.receiving)
  }

  function Contents(t: Item): seq<byte>
    requires Deliverable(t)
  {
    Part(t.file, t.start, t.end - t.start)
  }

  /** `wire` is a record of this item's payload that its receiver accepts. */
  ghost predicate Carries(h: Hash, z: Zstd, t: Item, p: Record, wire: seq<byte>)
    requires Deliverable(t)
  {
    wire == Wire(h, p) && Data(p) == Contents(t) && AllAcceptable(p, z, t.receiving)
  }

  ghost predicate AllCarry(h: Hash, z: Zstd, items: seq<Item>, ps: seq<Record>, wires: seq<seq<byte>>)
    requires forall i | 0 <= i < |items| :: Deliverable(items[i])
  {
    |ps| == |wires| <= |items| && forall i | 0 <= i < |ps| :: Carries(h, z, items[i], ps[i], wires[i])
  }

  lemma OneMoreCarried(h: Hash, z: Zstd, items: seq<Item>, ps: seq<Record>, wires: seq<seq<byte>>, p: Record)
    requires forall i | 0 <= i < |items| :: Deliverable(items[i])
    requires |ps| < |items| && AllCarry(h, z, items, ps, wires)
    requires Carries(h, z, items[|ps|], p, Wire(h, p))
    ensures AllCarry(h, z, items, ps + [p], wires + [Wire(h, p)])
  {
  }

  /** The records of all items, one after the other on a new connection. */
  method SendItems(h: Hash, z: Zstd, items: seq<Item>)
    returns (bytes: seq<byte>, ghost ps: seq<Record>, ghost wires: seq<seq<byte>>)
    requires Sound(z) && forall i | 0 <= i < |items| :: Deliverable(items[i])
    ensures |ps| == |items| && AllCarry(h, z, items, ps, wires) && bytes == Concat(wires)
  {
    var sender := new Link([]);
    ps, wires := [], [];
    for i := 0 to |items|
      invariant |ps| == i && AllCarry(h, z, items, ps, wires) && sender.outgoing == Concat(wires)
    {
      var t := items[i];
      ghost var p := SendItem(h, z, sender, t);
      OneMoreCarried(h, z, items, ps, wires, p);
      ConcatSnoc(wires, Wire(h, p));
      ps, wires := ps + [p], wires + [Wire(h, p)];
    }
    bytes := sender.outgoing;
  }

  method SendItem(h: Hash, z: Zstd, link: Link, t: Item) returns (ghost p: Record)
    requires Sound(z) && Deliverable(t)
    modifies link`outgoing
    ensures Carries(h, z, t, p, Wire(h, p)) && link.outgoing == old(link.outgoing) + Wire(h, p)
  {
    var r;
    r, p := Send(h, z, link, t.file, t.start, t.end, t.sending, t.decision);
    SenderIsAcceptable(p, z, t.sending, t.receiving);
  }

  /** One item off the connection, into a new file. */
  method ReceiveItem(h: Hash, z: Zstd, link: Link, t: Item, ghost p: Record, ghost wire: seq<byte>,
                     ghost rest: seq<byte>)
    returns (bytes: seq<byte>)
    requires Deliverable(t) && Carries(h, z, t, p, wire) && After(link.incoming, wire, rest)
    modifies link`incoming
    ensures bytes == Contents(t) && link.incoming == rest
  {
    var target := new Target([]);
    ghost var before := link.incoming;
    ghost var got;
    var r;
    r, got := Receive(h, z, link, target, 0, t.end - t.start, t.receiving, p);
    AfterIsUnique(before, wire, link.incoming, rest);
    bytes := target.content;
  }

  predicate Delivered(items: seq<Item>, files: seq<seq<byte>>)
    requires forall i | 0 <= i < |items| :: Deliverable(items[i])
  {
    |files| <= |items| && forall i | 0 <= i < |files| :: files[i] == Contents(items[i])
  }

  lemma OneMoreDelivered(items: seq<Item>, files: seq<seq<byte>>, file: seq<byte>)
    requires forall i | 0 <= i < |items| :: Deliverable(items[i])
    requires Delivered(items, files) && |files| < |items| && file == Contents(items[|files|])
    ensures Delivered(items, files + [file])
  {
  }

  /** `rests[i]` is the stream that begins with wire `i`. */
  ghost predicate Chained(rests: seq<seq<byte>>, wires: seq<seq<byte>>) {
    |rests| == |wires| + 1 && forall i | 0 <= i < |wires| :: After(rests[i], wires[i], rests[i + 1])
  }

  lemma {:induction false} Unchain(wires: seq<seq<byte>>, trailing: seq<byte>) returns (rests: seq<seq<byte>>)
    ensures Chained(rests, wires) && rests[0] == Concat(wires) + trailing && rests[|wires|] == trailing
  {
    if wires == [] {
      rests := [trailing];
    } else {
      var later := Unchain(wires[1..], trailing);
      rests := [Concat(wires) + trailing] + later;
      assert After(rests[0], wires[0], later[0]);
    }
  }

  /** Any number of records, in any mixture of modes and buffers, written to one connection and followed
      by anything, are read back in order, each exactly, and what follows them is left alone. */
  method Deliver(h: Hash, z: Zstd, items: seq<Item>, trailing: seq<byte>)
    returns (files: seq<seq<byte>>, rest: seq<byte>)
    requires Sound(z) && forall i | 0 <= i < |items| :: Deliverable(items[i])
    ensures |files| == |items| && Delivered(items, files)
    ensures rest == trailing
  {
    ghost var ps, wires;
    var bytes;
    bytes, ps, wires := SendItems(h, z, items);
    var receiver := new Link(bytes + trailing);
    ghost var rests := Unchain(wires, trailing);
    files := [];
    for i := 0 to |items|
      invariant |files| == i && Delivered(items, files)
      invariant receiver.incoming == rests[i]
    {
      var file := ReceiveItem(h, z, receiver, items[i], ps[i], wires[i], rests[i + 1]);
      OneMoreDelivered(items, files, file);
      files := files + [file];
    }
    rest := receiver.incoming;
  }
}
