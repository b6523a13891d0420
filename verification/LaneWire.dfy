/** The messages of the reuse negotiation and the connection they travel on (src/cdc_lane.rs). */
module LaneWire {

  import opened Bytes

  const MESSAGE_CDC_UNAVAILABLE: byte := 0x38
  const MESSAGE_CDC_INDEX: byte := 0x39
  const MESSAGE_CDC_FALLBACK: byte := 0x3A
  const MESSAGE_CDC_PLAN: byte := 0x3B

  const MAXIMUM_INDEX_WIRE_BYTES: nat := 4 * 1024 * 1024
  const MAXIMUM_PLAN_WIRE_BYTES: nat := 20 * 1024 * 1024

  function Head(message: byte, id: nat): (h: seq<byte>)
    ensures |h| == 9
  {
    [message] + BE(id, 8)
  }

  function Payload(w: seq<byte>): seq<byte> {
    BE(|w|, 8) + w
  }

  function Unavailable(id: nat): seq<byte> {
    Head(MESSAGE_CDC_UNAVAILABLE, id)
  }

  function Fallback(id: nat): seq<byte> {
    Head(MESSAGE_CDC_FALLBACK, id)
  }

  function IndexMessage(id: nat, w: seq<byte>): seq<byte> {
    Head(MESSAGE_CDC_INDEX, id) + Payload(w)
  }

  function PlanMessage(id: nat, w: seq<byte>): seq<byte> {
    Head(MESSAGE_CDC_PLAN, id) + Payload(w)
  }

  /** The four messages byte by byte: the kind, the file ID high byte first, and for an index or a plan its
      length and its bytes. */
  lemma MessagesAt(id: nat, w: seq<byte>)
    ensures Unavailable(id) == [0x38] + BE(id, 8) && Fallback(id) == [0x3A] + BE(id, 8)
    ensures IndexMessage(id, w) == [0x39] + BE(id, 8) + (BE(|w|, 8) + w)
    ensures PlanMessage(id, w) == [0x3B] + BE(id, 8) + (BE(|w|, 8) + w)
  {
  }

  /** `rest` is what remains of `s` after `m`. */
  predicate After(s: seq<byte>, m: seq<byte>, rest: seq<byte>) {
    s == m + rest
  }

  lemma AfterAgain(s: seq<byte>, a: seq<byte>, b: seq<byte>, mid: seq<byte>, rest: seq<byte>)
    requires After(s, a, mid) && After(mid, b, rest)
    ensures After(s, a + b, rest)
  {
  }

  lemma PrefixAfter(s: seq<byte>, a: seq<byte>, b: seq<byte>, mid: seq<byte>)
    requires a + b <= s && After(s, a, mid)
    ensures b <= mid
  {
    assert s[..|a + b|] == a + b;
    assert mid[..|b|] == (a + b)[|a|..];
  }

  lemma PrefixOfPrefix(a: seq<byte>, b: seq<byte>, c: seq<byte>)
    requires a <= b <= c
    ensures a <= c
  {
  }

  lemma AfterIsPrefix(s: seq<byte>, m: seq<byte>, rest: seq<byte>)
    requires After(s, m, rest)
    ensures m <= s
  {
  }

  lemma PrefixBehind(s: seq<byte>, a: seq<byte>, mid: seq<byte>, b: seq<byte>)
    requires After(s, a, mid) && b <= mid
    ensures a + b <= s
  {
  }

  lemma AfterIsUnique(s: seq<byte>, m: seq<byte>, u: seq<byte>, v: seq<byte>)
    requires After(s, m, u) && After(s, m, v)
    ensures u == v
  {
    assert s[|m|..] == u && s[|m|..] == v;
  }

  /** Where the next element of `xs` is found once its first elements, `got`, have been read. */
  lemma NextElement<T>(enc: T -> seq<byte>, xs: seq<T>, got: seq<T>, stream: seq<byte>, here: seq<byte>)
    requires got <= xs && |got| < |xs|
    requires Flat(enc, xs) <= stream && After(stream, Flat(enc, got), here)
    ensures enc(xs[|got|]) <= here && got + [xs[|got|]] <= xs
  {
    var x := xs[|got|];
    assert xs[..|got| + 1] == got + [x];
    FlatPrefix(enc, xs, |got| + 1);
    FlatSnoc(enc, got, x);
    PrefixOfPrefix(Flat(enc, got) + enc(x), Flat(enc, xs), stream);
    PrefixAfter(stream, Flat(enc, got), enc(x), here);
  }

  lemma TakeU64(v: nat, s: seq<byte>)
    requires v < U64 && BE(v, 8) <= s
    ensures FromBE(s[..8]) == v && After(s, BE(v, 8), s[8..])
  {
    Widths();
    FromBEOfBE(v, 8);
    assert s[..8] == BE(v, 8);
  }

  lemma HeadShows(m: byte, id: nat, s: seq<byte>)
    requires Head(m, id) <= s
    ensures s != [] && s[0] == m && BE(id, 8) <= s[1..]
  {
    var h := Head(m, id);
    assert s[..9] == h && h[0] == m && h[1..] == BE(id, 8);
    assert s[1..][..8] == h[1..];
  }

  lemma PayloadShows(w: seq<byte>, s: seq<byte>)
    requires |w| < U64 && Payload(w) <= s
    ensures BE(|w|, 8) <= s && 8 + |w| <= |s| && s[8..][..|w|] == w
  {
    assert s[..8 + |w|] == Payload(w);
    assert s[..8] == BE(|w|, 8);
    assert s[8..][..|w|] == w;
  }

  /** One end of the connection: what has arrived and is not read yet, and what was written. */
  class Link {
    var incoming: seq<byte>
    var outgoing: seq<byte>

    constructor (incoming: seq<byte>)
      ensures this.incoming == incoming && outgoing == []
    {
      this.incoming, outgoing := incoming, [];
    }

    method ReadU8() returns (r: Result<byte>)
      modifies this`incoming
      ensures old(incoming) == [] ==> r == Err(UnexpectedEof) && incoming == old(incoming)
      ensures old(incoming) != [] ==> r == Ok(old(incoming)[0]) && incoming == old(incoming)[1..]
    {
      if incoming == [] {
        return Err(UnexpectedEof);
      }
      r, incoming := Ok(incoming[0]), incoming[1..];
    }

    /** Exactly `n` bytes, or the end of the stream. */
    method ReadExact(n: nat) returns (r: Result<seq<byte>>)
      modifies this`incoming
      ensures |old(incoming)| < n ==> r == Err(UnexpectedEof) && incoming == old(incoming)
      ensures |old(incoming)| >= n ==>
        r == Ok(old(incoming)[..n]) && After(old(incoming), r.value, incoming)
    {
      if |incoming| < n {
        return Err(UnexpectedEof);
      }
      r, incoming := Ok(incoming[..n]), incoming[n..];
    }

    method ReadU64() returns (r: Result<nat>)
      modifies this`incoming
      ensures |old(incoming)| < 8 ==> r == Err(UnexpectedEof) && incoming == old(incoming)
      ensures |old(incoming)| >= 8 ==> r == Ok(FromBE(old(incoming)[..8])) && incoming == old(incoming)[8..]
    {
      if |incoming| < 8 {
        return Err(UnexpectedEof);
      }
      r, incoming := Ok(FromBE(incoming[..8])), incoming[8..];
    }

    /** The file ID every message carries must be the one under negotiation. */
    method ReadFileId(expected: nat) returns (r: Result<()>)
      requires expected < U64
      modifies this`incoming
      ensures BE(expected, 8) <= old(incoming) ==> r.Ok?
      ensures r.Ok? ==> After(old(incoming), BE(expected, 8), incoming)
      ensures r.Err? ==> r.error in {UnexpectedEof, InvalidData}
    {
      ghost var before := incoming;
      if BE(expected, 8) <= before {
        TakeU64(expected, before);
      }
      var id := ReadU64();
      if id.Err? {
        return Err(id.error);
      }
      if id.value != expected {
        return Err(InvalidData);
      }
      BEOfFromBE(before[..8]);
      r := Ok(());
    }

    /** `read_payload`: a length in `1..=maximum`, then that many bytes; no more is read. The ghost `w`
        is any payload: if it is the one on the stream and fits, it is what is read. */
    method ReadPayload(maximum: nat, ghost w: seq<byte>) returns (r: Result<seq<byte>>)
      requires maximum < U64
      modifies this`incoming
      ensures r.Ok? ==> 0 < |r.value| <= maximum && After(old(incoming), Payload(r.value), incoming)
      ensures 0 < |w| <= maximum && Payload(w) <= old(incoming) ==> r == Ok(w)
      ensures r.Err? ==> r.error in {UnexpectedEof, InvalidData}
    {
      ghost var before := incoming;
      if 0 < |w| <= maximum && Payload(w) <= before {
        PayloadShows(w, before);
        TakeU64(|w|, before);
      }
      var size := ReadU64();
      if size.Err? {
        return Err(size.error);
      }
      var n := size.value;
      if n == 0 || n > maximum {
        return Err(InvalidData);
      }
      if |incoming| < n {
        return Err(UnexpectedEof);
      }
      ghost var body := incoming;
      BEOfFromBE(before[..8]);
      assert After(before, BE(n, 8), body);
      assert After(body, body[..n], body[n..]);
      AfterAgain(before, BE(n, 8), body[..n], body, body[n..]);
      r, incoming := Ok(incoming[..n]), incoming[n..];
    }

    method WriteAll(bytes: seq<byte>)
      modifies this`outgoing
      ensures outgoing == old(outgoing) + bytes
    {
      outgoing := outgoing + bytes;
    }

    method WriteHead(message: byte, id: nat)
      modifies this`outgoing
      ensures outgoing == old(outgoing) + Head(message, id)
    {
      WriteAll([message]);
      WriteAll(BE(id, 8));
    }

    method WritePayload(w: seq<byte>)
      modifies this`outgoing
      ensures outgoing == old(outgoing) + Payload(w)
    {
      WriteAll(BE(|w|, 8));
      WriteAll(w);
    }

    /** The sender reads the receiver's offer: none, or an index wire. */
    method ReadOffer(id: nat, ghost w: seq<byte>) returns (r: Result<Option<seq<byte>>>)
      requires id < U64
      modifies this`incoming
      ensures r.Ok? && r.value.Some? ==> 0 < |r.value.value| <= MAXIMUM_INDEX_WIRE_BYTES
      ensures r.Ok? && r.value.Some? ==> After(old(incoming), IndexMessage(id, r.value.value), incoming)
      ensures r == Ok(None) ==> After(old(incoming), Unavailable(id), incoming)
      ensures r.Err? ==> r.error in {UnexpectedEof, InvalidData}
      ensures Unavailable(id) <= old(incoming) ==> r == Ok(None) && After(old(incoming), Unavailable(id), incoming)
      ensures 0 < |w| <= MAXIMUM_INDEX_WIRE_BYTES && IndexMessage(id, w) <= old(incoming) ==>
        r == Ok(Some(w)) && After(old(incoming), IndexMessage(id, w), incoming)
    {
      ghost var before := incoming;
      ghost var offered := IndexMessage(id, w) <= before;
      if Unavailable(id) <= before {
        HeadShows(MESSAGE_CDC_UNAVAILABLE, id, before);
      }
      if offered {
        assert Head(MESSAGE_CDC_INDEX, id) <= before;
        HeadShows(MESSAGE_CDC_INDEX, id, before);
      }
      var message := ReadU8();
      if message.Err? {
        return Err(message.error);
      }
      if message.value != MESSAGE_CDC_UNAVAILABLE && message.value != MESSAGE_CDC_INDEX {
        return Err(InvalidData);
      }
      ghost var second := incoming;
      assert After(before, [message.value], second);
      var checked := ReadFileId(id);
      if checked.Err? {
        return Err(checked.error);
      }
      ghost var third := incoming;
      AfterAgain(before, [message.value], BE(id, 8), second, third);
      if message.value == MESSAGE_CDC_UNAVAILABLE {
        return Ok(None);
      }
      if offered {
        PrefixAfter(before, Head(MESSAGE_CDC_INDEX, id), Payload(w), third);
      }
      var payload := ReadPayload(MAXIMUM_INDEX_WIRE_BYTES, w);
      if payload.Err? {
        return Err(payload.error);
      }
      AfterAgain(before, Head(MESSAGE_CDC_INDEX, id), Payload(payload.value), third, incoming);
      r := Ok(Some(payload.value));
    }

    /** The receiver reads the sender's response: a fallback, or a plan wire. */
    method ReadResponse(id: nat, ghost w: seq<byte>) returns (r: Result<Option<seq<byte>>>)
      requires id < U64
      modifies this`incoming
      ensures r.Ok? && r.value.Some? ==> 0 < |r.value.value| <= MAXIMUM_PLAN_WIRE_BYTES
      ensures r.Ok? && r.value.Some? ==> After(old(incoming), PlanMessage(id, r.value.value), incoming)
      ensures r == Ok(None) ==> After(old(incoming), Fallback(id), incoming)
      ensures r.Err? ==> r.error in {UnexpectedEof, InvalidData}
      ensures Fallback(id) <= old(incoming) ==> r == Ok(None) && After(old(incoming), Fallback(id), incoming)
      ensures 0 < |w| <= MAXIMUM_PLAN_WIRE_BYTES && PlanMessage(id, w) <= old(incoming) ==>
        r == Ok(Some(w)) && After(old(incoming), PlanMessage(id, w), incoming)
    {
      ghost var before := incoming;
      ghost var sent := PlanMessage(id, w) <= before;
      if Fallback(id) <= before {
        HeadShows(MESSAGE_CDC_FALLBACK, id, before);
      }
      if sent {
        assert Head(MESSAGE_CDC_PLAN, id) <= before;
        HeadShows(MESSAGE_CDC_PLAN, id, before);
      }
      var response := ReadU8();
      if response.Err? {
        return Err(response.error);
      }
      ghost var second := incoming;
      assert After(before, [response.value], second);
      var checked := ReadFileId(id);
      if checked.Err? {
        return Err(checked.error);
      }
      ghost var third := incoming;
      AfterAgain(before, [response.value], BE(id, 8), second, third);
      if response.value == MESSAGE_CDC_FALLBACK {
        return Ok(None);
      }
      if response.value != MESSAGE_CDC_PLAN {
        return Err(InvalidData);
      }
      if sent {
        PrefixAfter(before, Head(MESSAGE_CDC_PLAN, id), Payload(w), third);
      }
      var payload := ReadPayload(MAXIMUM_PLAN_WIRE_BYTES, w);
      if payload.Err? {
        return Err(payload.error);
      }
      AfterAgain(before, Head(MESSAGE_CDC_PLAN, id), Payload(payload.value), third, incoming);
      r := Ok(Some(payload.value));
    }
  }
}
