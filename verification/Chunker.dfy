/** Content-defined chunking (src/content_defined_dedup_bench.rs): a Gear rolling hash over the
    current chunk decides where it ends, within a minimum and a maximum length. */
module Chunker {

  import opened Bytes

  const MIN_AVERAGE_KIB: nat := 4
  const MAX_AVERAGE_KIB: nat := 4096
  const DEFAULT_AVERAGE_KIB: nat := 64

  /** The Gear table. The results below hold for every table of 256 words. */
  type GearTable = t: seq<nat> | |t| == 256 && forall i :: 0 <= i < 256 ==> t[i] < U64
    witness seq(256, _ => 0)

  // ---------------------------------------------------------------- powers of two and masks

  function Pow2(k: nat): (p: nat)
    ensures p > k
  {
    if k == 0 then 1 else 2 * Pow2(k - 1)
  }

  predicate IsPowerOfTwo(n: nat) {
    n == 1 || (n > 1 && n % 2 == 0 && IsPowerOfTwo(n / 2))
  }

  function Log2(n: nat): (k: nat)
    requires IsPowerOfTwo(n)
    ensures Pow2(k) == n
  {
    if n == 1 then 0 else 1 + Log2(n / 2)
  }

  /** Bitwise conjunction of two unbounded words. */
  function BitAnd(x: nat, y: nat): nat
    decreases x
  {
    if x == 0 then 0 else (if x % 2 == 1 && y % 2 == 1 then 1 else 0) + 2 * BitAnd(x / 2, y / 2)
  }

  /** The low `k` bits of a word. */
  function Low(x: nat, k: nat): nat {
    if k == 0 then 0 else x % 2 + 2 * Low(x / 2, k - 1)
  }

  /** Masking with `2^k - 1` keeps the low `k` bits. */
  lemma {:induction false} MaskIsLow(v: nat, k: nat)
    ensures BitAnd(v, Pow2(k) - 1) == Low(v, k)
    decreases k
  {
    if k == 0 {
      BitAndZero(v);
    } else if v == 0 {
      LowOfZero(k);
    } else {
      var m := Pow2(k - 1);
      MaskIsLow(v / 2, k - 1);
      assert (2 * m - 1) % 2 == 1 && (2 * m - 1) / 2 == m - 1;
    }
  }

  lemma {:induction false} BitAndZero(v: nat)
    ensures BitAnd(v, 0) == 0
  {
    if v > 0 {
      BitAndZero(v / 2);
    }
  }

  lemma {:induction false} LowOfZero(k: nat)
    ensures Low(0, k) == 0
  {
    if k > 0 {
      LowOfZero(k - 1);
    }
  }

  lemma {:induction false} LowOfSum(a: nat, c: nat, y: nat, k: nat)
    requires Low(a, k) == Low(c, k)
    ensures Low(a + y, k) == Low(c + y, k)
    decreases k
  {
    if k > 0 {
      assert a % 2 == c % 2;
      var carry := (a % 2 + y % 2) / 2;
      LowOfSum(a / 2, c / 2, y / 2 + carry, k - 1);
      assert (a + y) / 2 == a / 2 + (y / 2 + carry) && (c + y) / 2 == c / 2 + (y / 2 + carry);
    }
  }

  lemma MulPow2(q: nat, n: nat)
    requires n > 0
    ensures q * Pow2(n) == 2 * (q * Pow2(n - 1))
  {
  }

  lemma AddTwice(r: nat, m: nat)
    ensures (r + 2 * m) / 2 == r / 2 + m && (r + 2 * m) % 2 == r % 2
  {
  }

  lemma {:induction false} LowOfMultiple(r: nat, q: nat, n: nat, k: nat)
    requires k <= n
    ensures Low(r + q * Pow2(n), k) == Low(r, k)
    decreases k
  {
    if k > 0 {
      var m := q * Pow2(n - 1);
      MulPow2(q, n);
      LowOfMultiple(r / 2, q, n - 1, k - 1);
      AddTwice(r, m);
      assert r + q * Pow2(n) == r + 2 * m;
    }
  }

  lemma Pow2Step(k: nat)
    ensures Pow2(k + 8) == 256 * Pow2(k)
  {
    assert Pow2(k + 2) == 4 * Pow2(k);
    assert Pow2(k + 4) == 4 * Pow2(k + 2);
    assert Pow2(k + 6) == 4 * Pow2(k + 4);
    assert Pow2(k + 8) == 4 * Pow2(k + 6);
  }

  lemma Pow2LargeStep(k: nat)
    ensures Pow2(k + 32) == 0x1_0000_0000 * Pow2(k)
  {
    Pow2Step(k);
    Pow2Step(k + 8);
    Pow2Step(k + 16);
    Pow2Step(k + 24);
  }

  lemma Pow2Is64()
    ensures Pow2(64) == U64
  {
    Pow2LargeStep(0);
    Pow2LargeStep(32);
  }

  lemma LowOfWrapped(x: nat, k: nat)
    requires k <= 64
    ensures Low(x % U64, k) == Low(x, k)
  {
    Pow2Is64();
    LowOfMultiple(x % U64, x / U64, 64, k);
  }

  // ---------------------------------------------------------------- configuration

  datatype ChunkConfig = ChunkConfig(averageBytes: nat, minimumBytes: nat, maximumBytes: nat, boundaryMask: nat)

  /** What every configuration the program builds satisfies. */
  predicate ValidConfig(cfg: ChunkConfig) {
    && IsPowerOfTwo(cfg.minimumBytes)
    && 2048 <= cfg.minimumBytes <= 0x20_0000
    && cfg.averageBytes == 2 * cfg.minimumBytes
    && cfg.maximumBytes == 4 * cfg.minimumBytes
    && cfg.boundaryMask == cfg.minimumBytes - 1
  }

  predicate LegalAverage(averageKib: nat) {
    MIN_AVERAGE_KIB <= averageKib <= MAX_AVERAGE_KIB && IsPowerOfTwo(averageKib)
  }

  /** The legal averages are the powers of two from 4 KiB to 4 MiB. */
  lemma LegalAveragesAre(averageKib: nat)
    ensures LegalAverage(averageKib) <==> exists k | 2 <= k <= 12 :: averageKib == Pow2(k)
  {
    assert Pow2(2) == 4 && Pow2(12) == 4096;
    if LegalAverage(averageKib) {
      var k := Log2(averageKib);
      if k < 2 {
        Pow2Monotone(k, 1);
      } else if k > 12 {
        Pow2Monotone(13, k);
      }
    }
    if exists k | 2 <= k <= 12 :: averageKib == Pow2(k) {
      var k :| 2 <= k <= 12 && averageKib == Pow2(k);
      Pow2Monotone(2, k);
      Pow2Monotone(k, 12);
      PowersAreFound(k);
    }
  }

  lemma {:induction false} PowersAreFound(k: nat)
    ensures IsPowerOfTwo(Pow2(k))
  {
    if k > 0 {
      PowersAreFound(k - 1);
      TimesTwo(Pow2(k - 1));
    }
  }

  /** Exactly the legal averages give a configuration: half the average is the minimum, twice the average the
      maximum, and the history a boundary test looks at is between 11 and 21 bytes. */
  function FromAverageKib(averageKib: nat): (r: Result<ChunkConfig>)
    ensures r.Ok? <==> LegalAverage(averageKib)
    ensures r.Ok? ==> ValidConfig(r.value) && r.value.averageBytes == 1024 * averageKib
    ensures r.Ok? ==> r.value.minimumBytes == 512 * averageKib && r.value.maximumBytes == 2048 * averageKib
    ensures r.Ok? ==> 11 <= Log2(r.value.minimumBytes) <= 21
  {
    if !(MIN_AVERAGE_KIB <= averageKib <= MAX_AVERAGE_KIB) then Err(InvalidInput)
    else if !IsPowerOfTwo(averageKib) then Err(InvalidInput)
    else
      var averageBytes := averageKib * 1024;
      var minimumBytes := averageBytes / 2;
      MinimumIsLegal(averageKib);
      ConfigIsValid(averageKib);
      Ok(ChunkConfig(averageBytes, minimumBytes, averageBytes * 2, minimumBytes - 1))
  }

  lemma TimesTwo(n: nat)
    requires IsPowerOfTwo(n)
    ensures IsPowerOfTwo(2 * n)
  {
    assert 2 * n / 2 == n && 2 * n % 2 == 0;
  }

  lemma TimesEight(n: nat)
    requires IsPowerOfTwo(n)
    ensures IsPowerOfTwo(8 * n)
  {
    TimesTwo(n);
    TimesTwo(2 * n);
    TimesTwo(4 * n);
  }

  lemma ConfigIsValid(averageKib: nat)
    requires LegalAverage(averageKib)
    ensures var minimum := averageKib * 1024 / 2;
      ValidConfig(ChunkConfig(averageKib * 1024, minimum, averageKib * 1024 * 2, minimum - 1))
  {
    MinimumIsLegal(averageKib);
    assert averageKib * 1024 / 2 == 512 * averageKib;
  }

  lemma MinimumIsLegal(averageKib: nat)
    requires LegalAverage(averageKib)
    ensures IsPowerOfTwo(averageKib * 1024 / 2)
    ensures 11 <= Log2(averageKib * 1024 / 2) <= 21
  {
    var minimum := averageKib * 1024 / 2;
    assert minimum == 512 * averageKib;
    Times512(averageKib);
    LogBounds(minimum);
  }

  lemma Times512(n: nat)
    requires IsPowerOfTwo(n)
    ensures IsPowerOfTwo(512 * n)
  {
    TimesEight(n);
    var a := 8 * n;
    TimesEight(a);
    var b := 8 * a;
    TimesEight(b);
    assert 8 * b == 512 * n;
  }

  lemma LogBounds(n: nat)
    requires IsPowerOfTwo(n) && 2048 <= n <= 0x20_0000
    ensures 11 <= Log2(n) <= 21
  {
    var k := Log2(n);
    assert Pow2(10) == 1024 && Pow2(22) == 0x40_0000;
    if k < 11 {
      Pow2Monotone(k, 10);
    } else if k > 21 {
      Pow2Monotone(22, k);
    }
  }

  lemma {:induction false} Pow2Monotone(i: nat, j: nat)
    requires i <= j
    ensures Pow2(i) <= Pow2(j)
  {
    if i < j {
      Pow2Monotone(i, j - 1);
    }
  }

  // ---------------------------------------------------------------- the Gear hash

  /** `wrapping_shl(1)` followed by `wrapping_add` of the table word. */
  function Push(t: GearTable, h: nat, b: byte): (h': nat)
    ensures h' < U64
  {
    (2 * h % U64 + t[b]) % U64
  }

  function GearFrom(t: GearTable, h: nat, s: seq<byte>): nat {
    if s == [] then h else Push(t, GearFrom(t, h, s[..|s| - 1]), s[|s| - 1])
  }

  function Gear(t: GearTable, s: seq<byte>): nat {
    GearFrom(t, 0, s)
  }

  lemma {:induction false} GearFromAppend(t: GearTable, h: nat, p: seq<byte>, s: seq<byte>)
    ensures GearFrom(t, h, p + s) == GearFrom(t, GearFrom(t, h, p), s)
    decreases |s|
  {
    if s == [] {
      assert p + s == p;
    } else {
      GearFromAppend(t, h, p, s[..|s| - 1]);
      assert (p + s)[..|p + s| - 1] == p + s[..|s| - 1];
    }
  }

  /** The sum of the table words of `s`, the last one counted once and every earlier one twice as often as
      the next. */
  function Weighted(t: GearTable, s: seq<byte>): nat {
    if s == [] then 0 else t[s[0]] * Pow2(|s| - 1) + Weighted(t, s[1..])
  }

  lemma {:induction false} WeightedSnoc(t: GearTable, s: seq<byte>, b: byte)
    ensures Weighted(t, s + [b]) == 2 * Weighted(t, s) + t[b]
  {
    if s == [] {
      assert (s + [b])[1..] == [] && Pow2(0) == 1;
    } else {
      WeightedSnoc(t, s[1..], b);
      assert (s + [b])[1..] == s[1..] + [b];
      MulPow2(t[s[0]], |s|);
    }
  }

  /** The hash is that sum modulo 2^64. */
  lemma {:induction false} GearIsWeighted(t: GearTable, s: seq<byte>)
    ensures Gear(t, s) == Weighted(t, s) % U64
  {
    if s != [] {
      var init, last := s[..|s| - 1], s[|s| - 1];
      GearIsWeighted(t, init);
      assert s == init + [last];
      WeightedSnoc(t, init, last);
      GearSnoc(t, init, last);
      DoubleModulo(Weighted(t, init), t[last]);
    }
  }

  lemma DoubleModulo(w: nat, y: nat)
    ensures (2 * (w % U64) % U64 + y) % U64 == (2 * w + y) % U64
  {
    var q, r := w / U64, w % U64;
    assert w == q * U64 + r;
    WrapOnce(2 * r, y);
    Wraps(2 * r + y, 2 * q);
    assert 2 * w + y == 2 * r + y + 2 * q * U64;
  }

  lemma Wraps(x: nat, q: nat)
    ensures (x + q * U64) % U64 == x % U64
  {
  }

  lemma WrapOnce(x: nat, y: nat)
    ensures (x % U64 + y) % U64 == (x + y) % U64
  {
  }

  lemma LowOfPush(t: GearTable, h: nat, b: byte, k: nat)
    requires k < 64
    ensures Low(Push(t, h, b), k + 1) == t[b] % 2 + 2 * Low(h + t[b] / 2, k)
  {
    WrapOnce(2 * h, t[b]);
    LowOfWrapped(2 * h + t[b], k + 1);
    assert (2 * h + t[b]) / 2 == h + t[b] / 2;
  }

  /** Two states that agree on `k` low bits agree on `k + 1` after the same byte. */
  lemma PushShifts(t: GearTable, a: nat, c: nat, b: byte, k: nat)
    requires k < 64 && Low(a, k) == Low(c, k)
    ensures Low(Push(t, a, b), k + 1) == Low(Push(t, c, b), k + 1)
  {
    var y := t[b] / 2;
    LowOfPush(t, a, b, k);
    LowOfPush(t, c, b, k);
    LowOfSum(a, c, y, k);
    assert Low(a + y, k) == Low(c + y, k);
  }

  /** The hash forgets: after `n <= 64` bytes its low `n` bits no longer depend on the state before
      them. */
  lemma {:induction false} GearForgets(t: GearTable, g: nat, h: nat, s: seq<byte>)
    requires |s| <= 64
    ensures Low(GearFrom(t, g, s), |s|) == Low(GearFrom(t, h, s), |s|)
  {
    if s != [] {
      var n := |s| - 1;
      GearForgets(t, g, h, s[..n]);
      PushShifts(t, GearFrom(t, g, s[..n]), GearFrom(t, h, s[..n]), s[n], n);
    }
  }

  lemma GearForgetsPrefix(t: GearTable, g: nat, p: seq<byte>, s: seq<byte>, k: nat)
    requires k <= 64 && k <= |s|
    ensures Low(GearFrom(t, g, p + s), k) == Low(Gear(t, s), k)
  {
    var n := |s| - k;
    assert p + s == (p + s[..n]) + s[n..];
    assert s == s[..n] + s[n..];
    GearFromAppend(t, g, p + s[..n], s[n..]);
    GearFromAppend(t, 0, s[..n], s[n..]);
    GearForgets(t, GearFrom(t, g, p + s[..n]), GearFrom(t, 0, s[..n]), s[n..]);
  }

  // ---------------------------------------------------------------- boundaries

  /** The test `chunk_reader` makes after each byte, on the chunk length and the hash value. */
  predicate BoundaryTest(cfg: ChunkConfig, length: nat, value: nat) {
    length >= cfg.minimumBytes && (BitAnd(value, cfg.boundaryMask) == 0 || length >= cfg.maximumBytes)
  }

  predicate Boundary(t: GearTable, cfg: ChunkConfig, c: seq<byte>) {
    BoundaryTest(cfg, |c|, Gear(t, c))
  }

  /** The length of the first chunk `s` closes, or zero when it closes none. */
  function Cut(t: GearTable, cfg: ChunkConfig, s: seq<byte>): (n: nat)
    ensures n <= |s|
  {
    CutFrom(t, cfg, s, 1)
  }

  function CutFrom(t: GearTable, cfg: ChunkConfig, s: seq<byte>, i: nat): (n: nat)
    requires 0 < i
    ensures n <= |s|
    decreases |s| + 1 - i
  {
    if i > |s| then 0 else if Boundary(t, cfg, s[..i]) then i else CutFrom(t, cfg, s, i + 1)
  }

  lemma {:induction false} CutFromIsFirst(t: GearTable, cfg: ChunkConfig, s: seq<byte>, i: nat)
    requires 0 < i
    ensures var n := CutFrom(t, cfg, s, i);
            && (n > 0 ==> i <= n && Boundary(t, cfg, s[..n]))
            && forall j :: i <= j <= |s| && (n == 0 || j < n) ==> !Boundary(t, cfg, s[..j])
    decreases |s| + 1 - i
  {
    if i <= |s| && !Boundary(t, cfg, s[..i]) {
      CutFromIsFirst(t, cfg, s, i + 1);
    }
  }

  /** `Cut` is the first boundary. */
  lemma CutIsFirst(t: GearTable, cfg: ChunkConfig, s: seq<byte>)
    ensures var n := Cut(t, cfg, s);
            && (n > 0 ==> Boundary(t, cfg, s[..n]))
            && forall i :: 0 < i <= |s| && (n == 0 || i < n) ==> !Boundary(t, cfg, s[..i])
  {
    CutFromIsFirst(t, cfg, s, 1);
  }

  /** The chunks of `s` that a boundary closes. */
  function Closed(t: GearTable, cfg: ChunkConfig, s: seq<byte>): seq<seq<byte>>
    decreases |s|
  {
    var n := Cut(t, cfg, s);
    if n == 0 then [] else [s[..n]] + Closed(t, cfg, s[n..])
  }

  /** What is left of `s` after its last boundary. */
  function Tail(t: GearTable, cfg: ChunkConfig, s: seq<byte>): seq<byte>
    decreases |s|
  {
    var n := Cut(t, cfg, s);
    if n == 0 then s else Tail(t, cfg, s[n..])
  }

  /** The chunks of a whole file: the closed ones, then a nonempty rest. */
  function Chunks(t: GearTable, cfg: ChunkConfig, s: seq<byte>): seq<seq<byte>> {
    Closed(t, cfg, s) + if Tail(t, cfg, s) == [] then [] else [Tail(t, cfg, s)]
  }

  lemma CutIs(t: GearTable, cfg: ChunkConfig, s: seq<byte>, n: nat)
    requires 0 < n <= |s| && Boundary(t, cfg, s[..n])
    requires forall i :: 0 < i < n ==> !Boundary(t, cfg, s[..i])
    ensures Cut(t, cfg, s) == n
  {
    CutIsFirst(t, cfg, s);
  }

  lemma CutOfPrefix(t: GearTable, cfg: ChunkConfig, p: seq<byte>, q: seq<byte>)
    requires Cut(t, cfg, p) > 0
    ensures Cut(t, cfg, p + q) == Cut(t, cfg, p)
  {
    var n := Cut(t, cfg, p);
    CutIsFirst(t, cfg, p);
    forall i | 0 < i <= n
      ensures (p + q)[..i] == p[..i]
    {
    }
    CutIs(t, cfg, p + q, n);
  }

  /** Chunking what follows depends on the past only through the open chunk. */
  lemma {:induction false} ClosedAppend(t: GearTable, cfg: ChunkConfig, p: seq<byte>, q: seq<byte>)
    ensures Closed(t, cfg, p + q) == Closed(t, cfg, p) + Closed(t, cfg, Tail(t, cfg, p) + q)
    ensures Tail(t, cfg, p + q) == Tail(t, cfg, Tail(t, cfg, p) + q)
    decreases |p|
  {
    var n := Cut(t, cfg, p);
    if n > 0 {
      CutOfPrefix(t, cfg, p, q);
      assert (p + q)[..n] == p[..n] && (p + q)[n..] == p[n..] + q;
      ClosedAppend(t, cfg, p[n..], q);
    }
  }

  lemma {:induction false} TailIsOpen(t: GearTable, cfg: ChunkConfig, s: seq<byte>)
    ensures Cut(t, cfg, Tail(t, cfg, s)) == 0
    decreases |s|
  {
    var n := Cut(t, cfg, s);
    if n > 0 {
      TailIsOpen(t, cfg, s[n..]);
    }
  }

  /** One byte of the stream: it either closes the open chunk or extends it. */
  lemma StepByte(t: GearTable, cfg: ChunkConfig, s: seq<byte>, b: byte)
    ensures var c := Tail(t, cfg, s) + [b];
            if Boundary(t, cfg, c)
            then Closed(t, cfg, s + [b]) == Closed(t, cfg, s) + [c] && Tail(t, cfg, s + [b]) == []
            else Closed(t, cfg, s + [b]) == Closed(t, cfg, s) && Tail(t, cfg, s + [b]) == c
  {
    var o := Tail(t, cfg, s);
    var c := o + [b];
    TailIsOpen(t, cfg, s);
    CutIsFirst(t, cfg, o);
    CutIsFirst(t, cfg, c);
    ClosedAppend(t, cfg, s, [b]);
    forall i | 0 < i < |c|
      ensures !Boundary(t, cfg, c[..i])
    {
      assert c[..i] == o[..i];
    }
    assert c[..|c|] == c;
    if Boundary(t, cfg, c) {
      CutIs(t, cfg, c, |c|);
      assert c[|c|..] == [];
      assert Closed(t, cfg, []) == [];
    }
  }

  // ---------------------------------------------------------------- what the chunks are

  lemma {:induction false} ClosedConcat(t: GearTable, cfg: ChunkConfig, s: seq<byte>)
    ensures Concat(Closed(t, cfg, s)) + Tail(t, cfg, s) == s
    decreases |s|
  {
    var n := Cut(t, cfg, s);
    if n > 0 {
      ClosedConcat(t, cfg, s[n..]);
      assert Closed(t, cfg, s)[1..] == Closed(t, cfg, s[n..]);
      assert s == s[..n] + s[n..];
    }
  }

  /** The chunks of a file concatenate to it. */
  lemma ChunksConcat(t: GearTable, cfg: ChunkConfig, s: seq<byte>)
    ensures Concat(Chunks(t, cfg, s)) == s
  {
    ClosedConcat(t, cfg, s);
    if Tail(t, cfg, s) != [] {
      ConcatSnoc(Closed(t, cfg, s), Tail(t, cfg, s));
    } else {
      assert Closed(t, cfg, s) + [] == Closed(t, cfg, s);
    }
  }

  lemma {:induction false} ClosedLengths(t: GearTable, cfg: ChunkConfig, s: seq<byte>)
    requires ValidConfig(cfg)
    ensures forall c :: c in Closed(t, cfg, s) ==> cfg.minimumBytes <= |c| <= cfg.maximumBytes
    ensures |Tail(t, cfg, s)| < cfg.maximumBytes
    decreases |s|
  {
    var n := Cut(t, cfg, s);
    var m := cfg.maximumBytes;
    CutIsFirst(t, cfg, s);
    if m <= |s| {
      assert Boundary(t, cfg, s[..m]);
    }
    if n > 0 {
      ClosedLengths(t, cfg, s[n..]);
    }
  }

  /** The boundary test in plain terms: long enough, and the low bits of the hash are all zero or the chunk
      has reached the maximum. */
  lemma BoundaryMeans(t: GearTable, cfg: ChunkConfig, c: seq<byte>)
    requires ValidConfig(cfg)
    ensures Boundary(t, cfg, c) <==>
      && cfg.minimumBytes <= |c|
      && (Low(Gear(t, c), Log2(cfg.minimumBytes)) == 0 || cfg.maximumBytes <= |c|)
  {
    MaskIsLow(Gear(t, c), Log2(cfg.minimumBytes));
  }

  /** What content-defined chunking is, said of the chunks themselves: a closed chunk ends where the low bits of
      its hash are zero, or at the maximum length; nowhere earlier from the minimum length on are they zero;
      and in the open rest they are zero nowhere from the minimum length on. */
  lemma {:induction false} ClosedAreContentDefined(t: GearTable, cfg: ChunkConfig, s: seq<byte>)
    requires ValidConfig(cfg)
    ensures var k := Log2(cfg.minimumBytes);
      && (forall c <- Closed(t, cfg, s) ::
            && cfg.minimumBytes <= |c| <= cfg.maximumBytes
            && (|c| == cfg.maximumBytes || Low(Gear(t, c), k) == 0)
            && (forall i | cfg.minimumBytes <= i < |c| :: Low(Gear(t, c[..i]), k) != 0))
      && (var rest := Tail(t, cfg, s);
          && |rest| < cfg.maximumBytes
          && (forall i | cfg.minimumBytes <= i <= |rest| :: Low(Gear(t, rest[..i]), k) != 0))
    decreases |s|
  {
    var n := Cut(t, cfg, s);
    ClosedLengths(t, cfg, s);
    FirstChunkIsContentDefined(t, cfg, s);
    if n > 0 {
      ClosedAreContentDefined(t, cfg, s[n..]);
      assert Closed(t, cfg, s) == [s[..n]] + Closed(t, cfg, s[n..]);
      assert s[..n] in Closed(t, cfg, s);
    }
  }

  lemma FirstChunkIsContentDefined(t: GearTable, cfg: ChunkConfig, s: seq<byte>)
    requires ValidConfig(cfg)
    ensures var k, n := Log2(cfg.minimumBytes), Cut(t, cfg, s);
      && (n > 0 ==> Low(Gear(t, s[..n]), k) == 0 || cfg.maximumBytes <= n)
      && (n > 0 ==> forall i | cfg.minimumBytes <= i < n :: Low(Gear(t, s[..n][..i]), k) != 0)
      && (n == 0 ==> forall i | cfg.minimumBytes <= i <= |s| :: Low(Gear(t, s[..i]), k) != 0)
  {
    var n := Cut(t, cfg, s);
    CutIsFirst(t, cfg, s);
    if n > 0 {
      BoundaryMeans(t, cfg, s[..n]);
    }
    forall i | cfg.minimumBytes <= i <= |s| && (n == 0 || i < n)
      ensures Low(Gear(t, s[..i]), Log2(cfg.minimumBytes)) != 0
      ensures n > 0 ==> s[..n][..i] == s[..i]
    {
      BoundaryMeans(t, cfg, s[..i]);
    }
  }

  /** The same of the chunks of a whole file. */
  lemma ChunksAreContentDefined(t: GearTable, cfg: ChunkConfig, s: seq<byte>, j: nat)
    requires ValidConfig(cfg) && j < |Chunks(t, cfg, s)|
    ensures var k, c, last := Log2(cfg.minimumBytes), Chunks(t, cfg, s)[j], j + 1 == |Chunks(t, cfg, s)|;
      && (!last ==> |c| == cfg.maximumBytes || (cfg.minimumBytes <= |c| && Low(Gear(t, c), k) == 0))
      && (forall i | cfg.minimumBytes <= i < |c| :: Low(Gear(t, c[..i]), k) != 0)
  {
    ClosedAreContentDefined(t, cfg, s);
    var closed, rest := Closed(t, cfg, s), Tail(t, cfg, s);
    if j < |closed| {
      assert Chunks(t, cfg, s)[j] == closed[j] && closed[j] in closed;
    } else {
      assert Chunks(t, cfg, s)[j] == rest;
    }
  }

  /** Every chunk is nonempty and at most the maximum long; every chunk but the last is at least the
      minimum long. */
  lemma ChunkLengths(t: GearTable, cfg: ChunkConfig, s: seq<byte>)
    requires ValidConfig(cfg)
    ensures var cs := Chunks(t, cfg, s);
            forall i :: 0 <= i < |cs| ==>
              && 0 < |cs[i]| <= cfg.maximumBytes
              && (i + 1 < |cs| ==> cfg.minimumBytes <= |cs[i]|)
  {
    ClosedLengths(t, cfg, s);
    var cs := Chunks(t, cfg, s);
    forall i | 0 <= i < |Closed(t, cfg, s)|
      ensures cs[i] in Closed(t, cfg, s)
    {
    }
  }

  lemma {:induction false} CountBounds(cs: seq<seq<byte>>, lo: nat, hi: nat)
    requires lo > 0
    requires forall i :: 0 <= i < |cs| ==> 0 < |cs[i]| <= hi && (i + 1 < |cs| ==> lo <= |cs[i]|)
    ensures cs != [] ==> (|cs| - 1) * lo < |Concat(cs)|
    ensures |Concat(cs)| <= |cs| * hi
  {
    if cs != [] {
      var d := cs[1..];
      forall i | 0 <= i < |d|
        ensures 0 < |d[i]| <= hi && (i + 1 < |d| ==> lo <= |d[i]|)
      {
        assert d[i] == cs[i + 1];
      }
      CountBounds(d, lo, hi);
      assert (|d| + 1) * hi == |d| * hi + hi;
      if d == [] {
        assert 0 * lo == 0;
      } else {
        assert |d| * lo == (|d| - 1) * lo + lo;
      }
    }
  }

  /** `n` chunks of a nonempty file of `L` bytes satisfy `(n - 1) * min < L <= n * max`. */
  lemma ChunkCount(t: GearTable, cfg: ChunkConfig, s: seq<byte>)
    requires ValidConfig(cfg) && s != []
    ensures var n := |Chunks(t, cfg, s)|;
            n > 0 && (n - 1) * cfg.minimumBytes < |s| <= n * cfg.maximumBytes
  {
    ChunkLengths(t, cfg, s);
    ChunksConcat(t, cfg, s);
    CountBounds(Chunks(t, cfg, s), cfg.minimumBytes, cfg.maximumBytes);
  }

  // ---------------------------------------------------------------- resynchronisation

  /** A chunk boundary falls exactly at the end of `p`. */
  predicate BoundaryAt(t: GearTable, cfg: ChunkConfig, p: seq<byte>) {
    Tail(t, cfg, p) == []
  }

  /** After a boundary the chunking of the rest of a file does not depend on what came before. */
  lemma ChunksAfterBoundary(t: GearTable, cfg: ChunkConfig, p: seq<byte>, w: seq<byte>)
    requires BoundaryAt(t, cfg, p)
    ensures Chunks(t, cfg, p + w) == Closed(t, cfg, p) + Chunks(t, cfg, w)
    ensures Closed(t, cfg, p + w) == Closed(t, cfg, p) + Closed(t, cfg, w)
    ensures Tail(t, cfg, p + w) == Tail(t, cfg, w)
  {
    ClosedAppend(t, cfg, p, w);
    assert [] + w == w;
  }

  /** Two files that share a suffix and both have a boundary at its start have the same chunks from
      there on; and the chunks a shared prefix closes are the same in both, at the same offsets. */
  lemma Resynchronise(t: GearTable, cfg: ChunkConfig, p: seq<byte>, q: seq<byte>, w: seq<byte>, x: seq<byte>,
                      y: seq<byte>)
    requires BoundaryAt(t, cfg, p) && BoundaryAt(t, cfg, q)
    ensures exists later :: Chunks(t, cfg, p + w) == Closed(t, cfg, p) + later
                         && Chunks(t, cfg, q + w) == Closed(t, cfg, q) + later
    ensures Closed(t, cfg, w) <= Chunks(t, cfg, w + x) && Closed(t, cfg, w) <= Chunks(t, cfg, w + y)
  {
    ChunksAfterBoundary(t, cfg, p, w);
    ChunksAfterBoundary(t, cfg, q, w);
    ClosedAppend(t, cfg, w, x);
    ClosedAppend(t, cfg, w, y);
  }

  // ---------------------------------------------------------------- resetting the hash

  /** The running state of the segmenter: the chunks it closed, the open chunk, the hash value. */
  datatype Segmenter = Segmenter(closed: seq<seq<byte>>, open: seq<byte>, hash: nat)

  /** The segmenter after the bytes `s`, either resetting its hash at each boundary or never. */
  function Stream(t: GearTable, cfg: ChunkConfig, s: seq<byte>, resets: bool): Segmenter {
    if s == [] then Segmenter([], [], 0)
    else
      var m := Stream(t, cfg, s[..|s| - 1], resets);
      var h := Push(t, m.hash, s[|s| - 1]);
      var c := m.open + [s[|s| - 1]];
      if BoundaryTest(cfg, |c|, h)
      then Segmenter(m.closed + [c], [], if resets then 0 else h)
      else Segmenter(m.closed, c, h)
  }

  lemma SameUnderMask(u: nat, v: nat, k: nat, mask: nat)
    requires Low(u, k) == Low(v, k) && mask == Pow2(k) - 1
    ensures BitAnd(u, mask) == BitAnd(v, mask)
  {
    MaskIsLow(u, k);
    MaskIsLow(v, k);
  }

  /** Over a chunk that has reached the minimum length the test gives the same answer whatever bytes
      the hash saw before the chunk. */
  lemma TestIgnoresHistory(t: GearTable, cfg: ChunkConfig, p: seq<byte>, c: seq<byte>)
    requires ValidConfig(cfg)
    ensures BoundaryTest(cfg, |c|, Gear(t, p + c)) <==> Boundary(t, cfg, c)
  {
    if |c| >= cfg.minimumBytes {
      var k := Log2(cfg.minimumBytes);
      LogBounds(cfg.minimumBytes);
      GearForgetsPrefix(t, 0, p, c, k);
      SameUnderMask(Gear(t, p + c), Gear(t, c), k, cfg.boundaryMask);
    }
  }

  /** The test looks back over the last `Log2(minimumBytes)` bytes and no further: two histories that end in
      the same `s` of that length give the same answer. */
  lemma TestLooksBack(t: GearTable, cfg: ChunkConfig, p: seq<byte>, q: seq<byte>, s: seq<byte>, length: nat)
    requires ValidConfig(cfg) && |s| >= Log2(cfg.minimumBytes)
    ensures 11 <= Log2(cfg.minimumBytes) <= 21
    ensures BoundaryTest(cfg, length, Gear(t, p + s)) <==> BoundaryTest(cfg, length, Gear(t, q + s))
  {
    var k := Log2(cfg.minimumBytes);
    LogBounds(cfg.minimumBytes);
    GearForgetsPrefix(t, 0, p, s, k);
    GearForgetsPrefix(t, 0, q, s, k);
    SameUnderMask(Gear(t, p + s), Gear(t, q + s), k, cfg.boundaryMask);
  }

  lemma OpenTestIgnoresHistory(t: GearTable, cfg: ChunkConfig, u: seq<byte>, b: byte)
    requires ValidConfig(cfg)
    ensures var c := Tail(t, cfg, u) + [b];
            BoundaryTest(cfg, |c|, Gear(t, u + [b])) <==> Boundary(t, cfg, c)
  {
    ClosedConcat(t, cfg, u);
    var p := Concat(Closed(t, cfg, u));
    assert u + [b] == p + (Tail(t, cfg, u) + [b]);
    TestIgnoresHistory(t, cfg, p, Tail(t, cfg, u) + [b]);
  }

  lemma GearSnoc(t: GearTable, s: seq<byte>, b: byte)
    ensures Gear(t, s + [b]) == Push(t, Gear(t, s), b)
  {
    assert (s + [b])[..|s|] == s;
  }

  lemma {:induction false} StreamIsClosed(t: GearTable, cfg: ChunkConfig, s: seq<byte>, resets: bool)
    requires ValidConfig(cfg)
    ensures var m := Stream(t, cfg, s, resets);
            && m.closed == Closed(t, cfg, s) && m.open == Tail(t, cfg, s)
            && m.hash == if resets then Gear(t, m.open) else Gear(t, s)
  {
    if s != [] {
      var u, b := s[..|s| - 1], s[|s| - 1];
      assert s == u + [b];
      StreamIsClosed(t, cfg, u, resets);
      StepByte(t, cfg, u, b);
      GearSnoc(t, Tail(t, cfg, u), b);
      GearSnoc(t, u, b);
      OpenTestIgnoresHistory(t, cfg, u, b);
    }
  }

  /** Resetting the hash at each boundary is unobservable: a segmenter that never resets it closes
      the same chunks and holds the same open chunk after every byte of every file. */
  lemma ResetIsUnobservable(t: GearTable, cfg: ChunkConfig, s: seq<byte>)
    requires ValidConfig(cfg)
    ensures Stream(t, cfg, s, true).closed == Stream(t, cfg, s, false).closed
    ensures Stream(t, cfg, s, true).open == Stream(t, cfg, s, false).open
  {
    StreamIsClosed(t, cfg, s, true);
    StreamIsClosed(t, cfg, s, false);
  }

  // ---------------------------------------------------------------- the reader loop

  /** One result of `Read::read`: some bytes (none of them means end of file), an interruption that
      is retried, or a failure. */
  datatype Read = Data(bytes: seq<byte>) | Interrupted | Failed

  /** The bytes the reader delivers before it ends or fails. */
  function Delivered(script: seq<Read>): seq<byte> {
    DeliveredFrom(script, 0)
  }

  function DeliveredFrom(script: seq<Read>, i: nat): seq<byte>
    decreases |script| - i
  {
    if i >= |script| || script[i].Failed? || script[i] == Data([]) then []
    else if script[i].Data? then script[i].bytes + DeliveredFrom(script, i + 1)
    else DeliveredFrom(script, i + 1)
  }

  predicate ReadFails(script: seq<Read>) {
    ReadFailsFrom(script, 0)
  }

  predicate ReadFailsFrom(script: seq<Read>, i: nat)
    decreases |script| - i
  {
    i < |script| && script[i] != Data([]) && (script[i].Failed? || ReadFailsFrom(script, i + 1))
  }

  /** A chunk handed to the visitor. */
  datatype Piece = Piece(offset: nat, contents: seq<byte>)

  /** Chunks at contiguous offsets. */
  function Placed(cs: seq<seq<byte>>): seq<Piece> {
    seq(|cs|, i requires 0 <= i < |cs| => Piece(|Concat(cs[..i])|, cs[i]))
  }

  lemma PlacedSnoc(cs: seq<seq<byte>>, c: seq<byte>)
    ensures Placed(cs + [c]) == Placed(cs) + [Piece(|Concat(cs)|, c)]
  {
    forall i | 0 <= i <= |cs|
      ensures (cs + [c])[..i] == cs[..i]
    {
    }
    assert cs[..|cs|] == cs;
  }

  datatype ChunkingStats = ChunkingStats(bytes: nat, chunks: nat, minimum: nat, maximum: nat)

  /** The totals over a list of chunks. */
  function StatsOf(cs: seq<seq<byte>>): ChunkingStats {
    if cs == [] then ChunkingStats(0, 0, 0, 0)
    else
      var p := StatsOf(cs[..|cs| - 1]);
      var n := |cs[|cs| - 1]|;
      ChunkingStats(p.bytes + n, p.chunks + 1,
                    if |cs| == 1 || n < p.minimum then n else p.minimum,
                    if |cs| == 1 || n > p.maximum then n else p.maximum)
  }

  lemma {:induction false} StatsTotals(cs: seq<seq<byte>>)
    ensures StatsOf(cs).bytes == |Concat(cs)| && StatsOf(cs).chunks == |cs|
  {
    if cs != [] {
      var n := |cs| - 1;
      StatsTotals(cs[..n]);
      assert cs == cs[..n] + [cs[n]];
      ConcatSnoc(cs[..n], cs[n]);
    }
  }

  lemma {:induction false} StatsBound(cs: seq<seq<byte>>, i: nat)
    requires i < |cs|
    ensures StatsOf(cs).minimum <= |cs[i]| <= StatsOf(cs).maximum
  {
    var n := |cs| - 1;
    if i < n {
      StatsBound(cs[..n], i);
    }
  }

  lemma {:induction false} StatsAttained(cs: seq<seq<byte>>) returns (i: nat, j: nat)
    requires cs != []
    ensures i < |cs| && j < |cs| && |cs[i]| == StatsOf(cs).minimum && |cs[j]| == StatsOf(cs).maximum
  {
    var n := |cs| - 1;
    i, j := n, n;
    if n > 0 {
      var a, b := StatsAttained(cs[..n]);
      i := if |cs[n]| < StatsOf(cs[..n]).minimum then n else a;
      j := if |cs[n]| > StatsOf(cs[..n]).maximum then n else b;
    }
  }

  /** The totals are the length of the concatenation, the number of chunks, and the lengths of the
      shortest and the longest chunk. */
  lemma StatsMeaning(cs: seq<seq<byte>>)
    ensures var st := StatsOf(cs);
            && st.bytes == |Concat(cs)| && st.chunks == |cs|
            && (forall i :: 0 <= i < |cs| ==> st.minimum <= |cs[i]| <= st.maximum)
            && (cs != [] ==>
                exists i, j | 0 <= i < |cs| && 0 <= j < |cs| :: |cs[i]| == st.minimum && |cs[j]| == st.maximum)
  {
    StatsTotals(cs);
    forall i | 0 <= i < |cs|
      ensures StatsOf(cs).minimum <= |cs[i]| <= StatsOf(cs).maximum
    {
      StatsBound(cs, i);
    }
    if cs != [] {
      var i, j := StatsAttained(cs);
    }
  }

  /** `emit_chunk` after its visitor: overflow-checked totals and running extremes. */
  method CountChunk(st: ChunkingStats, c: seq<byte>, ghost cs: seq<seq<byte>>) returns (r: Result<ChunkingStats>)
    requires st == StatsOf(cs) && c != [] && st.chunks <= st.bytes
    ensures r == if st.bytes + |c| < U64 then Ok(StatsOf(cs + [c])) else Err(Overflow)
    ensures r.Ok? ==> r.value.chunks <= r.value.bytes == st.bytes + |c|
  {
    assert (cs + [c])[..|cs|] == cs;
    StatsTotals(cs);
    if st.bytes + |c| >= U64 {
      return Err(Overflow);
    }
    assert st.chunks + 1 < U64;
    var n := |c|;
    var chunks := st.chunks + 1;
    var minimum, maximum := n, n;
    if chunks != 1 {
      minimum := if st.minimum <= n then st.minimum else n;
      maximum := if st.maximum >= n then st.maximum else n;
    }
    r := Ok(ChunkingStats(st.bytes + n, chunks, minimum, maximum));
  }

  /** What the scan hands on: every chunk the visitor saw, the totals, and how the scan ended. The
      visitors of this program do not touch the reader, so running them over `pieces` afterwards
      observes the same as running them during the scan. */
  datatype Scan = Scan(pieces: seq<Piece>, stats: ChunkingStats, status: Result<()>)

  /** The local state of the scan loop. */
  datatype ScanState = ScanState(hash: nat, chunk: seq<byte>, chunkStart: nat, stats: ChunkingStats, pieces: seq<Piece>)

  ghost predicate Running(t: GearTable, cfg: ChunkConfig, seen: seq<byte>, m: ScanState) {
    var closed := Closed(t, cfg, seen);
    && m.chunk == Tail(t, cfg, seen) && m.hash == Gear(t, m.chunk)
    && m.pieces == Placed(closed) && m.chunkStart == |Concat(closed)|
    && m.stats == StatsOf(closed) && m.stats.chunks <= m.stats.bytes == m.chunkStart < U64
  }

  /** The body of the byte loop of `chunk_reader`. */
  method ScanByte(t: GearTable, cfg: ChunkConfig, b: byte, m: ScanState, ghost seen: seq<byte>)
    returns (n: ScanState, ok: bool)
    requires Running(t, cfg, seen, m)
    ensures ok ==> Running(t, cfg, seen + [b], n)
    ensures !ok ==> |seen| + 1 >= U64
  {
    var hash := Push(t, m.hash, b);
    var chunk := m.chunk + [b];
    GearSnoc(t, m.chunk, b);
    StepByte(t, cfg, seen, b);
    if !BoundaryTest(cfg, |chunk|, hash) {
      return ScanState(hash, chunk, m.chunkStart, m.stats, m.pieces), true;
    }
    ghost var closed := Closed(t, cfg, seen);
    var pieces := m.pieces + [Piece(m.chunkStart, chunk)];
    PlacedSnoc(closed, chunk);
    ConcatSnoc(closed, chunk);
    var counted := CountChunk(m.stats, chunk, closed);
    if counted.Err? {
      ClosedConcat(t, cfg, seen + [b]);
      return ScanState(hash, chunk, m.chunkStart, m.stats, pieces), false;
    }
    assert m.chunkStart + |chunk| < U64;
    n, ok := ScanState(0, [], m.chunkStart + |chunk|, counted.value, pieces), true;
  }

  method ScanBlock(t: GearTable, cfg: ChunkConfig, block: seq<byte>, m: ScanState, ghost seen: seq<byte>)
    returns (n: ScanState, ok: bool)
    requires Running(t, cfg, seen, m)
    ensures ok ==> Running(t, cfg, seen + block, n)
    ensures !ok ==> |seen| + |block| >= U64
  {
    n := m;
    assert seen + block[..0] == seen;
    for j := 0 to |block|
      invariant Running(t, cfg, seen + block[..j], n)
    {
      n, ok := ScanByte(t, cfg, block[j], n, seen + block[..j]);
      if !ok {
        return;
      }
      assert seen + block[..j + 1] == (seen + block[..j]) + [block[j]];
    }
    assert block[..|block|] == block;
    ok := true;
  }

  /** The last chunk, after the end of the file. */
  method FinishScan(t: GearTable, cfg: ChunkConfig, m: ScanState, ghost seen: seq<byte>) returns (r: Scan)
    requires Running(t, cfg, seen, m)
    ensures |seen| >= U64 ==> r.status == Err(Overflow)
    ensures |seen| < U64 ==>
      && r.status.Ok? && r.pieces == Placed(Chunks(t, cfg, seen)) && r.stats == StatsOf(Chunks(t, cfg, seen))
  {
    ghost var closed := Closed(t, cfg, seen);
    ChunksConcat(t, cfg, seen);
    if m.chunk == [] {
      assert Chunks(t, cfg, seen) == closed;
      return Scan(m.pieces, m.stats, Ok(()));
    }
    var pieces := m.pieces + [Piece(m.chunkStart, m.chunk)];
    PlacedSnoc(closed, m.chunk);
    ConcatSnoc(closed, m.chunk);
    var counted := CountChunk(m.stats, m.chunk, closed);
    if counted.Err? {
      return Scan(pieces, m.stats, Err(Overflow));
    }
    r := Scan(pieces, counted.value, Ok(()));
  }

  lemma StartRunning(t: GearTable, cfg: ChunkConfig)
    ensures Running(t, cfg, [], ScanState(0, [], 0, ChunkingStats(0, 0, 0, 0), []))
  {
  }

  /** The read loop: it stops at the end of the file, at a failing read, or when a total overflows. */
  method ReadLoop(t: GearTable, cfg: ChunkConfig, script: seq<Read>)
    returns (m: ScanState, status: Result<()>, ghost seen: seq<byte>)
    ensures status != Err(Overflow) ==> Running(t, cfg, seen, m) && seen == Delivered(script)
    ensures status.Ok? ==> !ReadFails(script)
    ensures status.Err? ==> status.error == Overflow || (status.error == Fault && ReadFails(script))
    ensures status == Err(Overflow) ==> |Delivered(script)| >= U64
  {
    m := ScanState(0, [], 0, ChunkingStats(0, 0, 0, 0), []);
    seen := [];
    StartRunning(t, cfg);
    var i := 0;
    while i < |script|
      invariant 0 <= i <= |script|
      invariant Delivered(script) == seen + DeliveredFrom(script, i)
      invariant ReadFails(script) == ReadFailsFrom(script, i)
      invariant Running(t, cfg, seen, m)
    {
      var read := script[i];
      if read == Data([]) {
        return m, Ok(()), seen;
      }
      if read.Failed? {
        return m, Err(Fault), seen;
      }
      if read.Data? {
        var n, ok := ScanBlock(t, cfg, read.bytes, m, seen);
        m := n;
        if !ok {
          return m, Err(Overflow), seen;
        }
        seen := seen + read.bytes;
      }
      i := i + 1;
    }
    status := Ok(());
  }

  /** Every piece is the part of the file at its offset, and the pieces lie end to end. */
  lemma PlacedMeans(cs: seq<seq<byte>>, i: nat)
    requires i < |cs|
    ensures |Placed(cs)| == |cs| && Placed(cs)[i].contents == cs[i]
    ensures i == 0 ==> Placed(cs)[i].offset == 0
    ensures i > 0 ==> Placed(cs)[i].offset == Placed(cs)[i - 1].offset + |cs[i - 1]|
    ensures var p := Placed(cs)[i];
      p.offset + |cs[i]| <= |Concat(cs)| && Concat(cs)[p.offset..p.offset + |cs[i]|] == cs[i]
  {
    SliceOfConcat(cs, i);
    if i > 0 {
      PrefixConcat(cs, i - 1);
    }
  }

  /** What a script of reads delivers: interruptions are skipped, an empty read ends the file, and a failure
      ends the script with an error. */
  lemma ReadScripts(r: Read, rest: seq<Read>)
    ensures Delivered([r] + rest) ==
      (if r.Data? && r.bytes != [] then r.bytes + Delivered(rest) else if r.Interrupted? then Delivered(rest) else [])
    ensures ReadFails([r] + rest) <==> r.Failed? || ((r.Interrupted? || r != Data([])) && ReadFails(rest))
    ensures Delivered([]) == [] && !ReadFails([])
  {
    ScriptShift(r, rest, 0);
  }

  lemma {:induction false} ScriptShift(r: Read, rest: seq<Read>, i: nat)
    ensures DeliveredFrom([r] + rest, i + 1) == DeliveredFrom(rest, i)
    ensures ReadFailsFrom([r] + rest, i + 1) == ReadFailsFrom(rest, i)
    decreases |rest| - i
  {
    if i < |rest| {
      assert ([r] + rest)[i + 1] == rest[i];
      ScriptShift(r, rest, i + 1);
    }
  }

  /** For any splitting of the input into reads, the emitted chunks are `Chunks` of the delivered
      bytes at contiguous offsets; a failing read leaves exactly the chunks already closed. */
  method ChunkReader(t: GearTable, cfg: ChunkConfig, script: seq<Read>) returns (r: Scan)
    requires ValidConfig(cfg)
    ensures r.status.Ok? <==> |Delivered(script)| < U64 && !ReadFails(script)
    ensures r.status.Ok? ==> r.pieces == Placed(Chunks(t, cfg, Delivered(script)))
    ensures r.status.Ok? ==> r.stats == StatsOf(Chunks(t, cfg, Delivered(script)))
    ensures r.status.Ok? ==>
      forall j | 0 <= j < |r.pieces| ::
        && PartOf(r.pieces[j], Delivered(script))
        && ContentDefined(t, cfg, r.pieces[j].contents, j + 1 == |r.pieces|)
    ensures r.status == Err(Fault) ==>
      ReadFails(script) && r.pieces == Placed(Closed(t, cfg, Delivered(script)))
    ensures r.status.Err? && r.status.error != Fault ==> r.status.error == Overflow && |Delivered(script)| >= U64
  {
    var m, status, seen := ReadLoop(t, cfg, script);
    if status.Err? {
      return Scan(m.pieces, m.stats, status);
    }
    r := FinishScan(t, cfg, m, seen);
    if r.status.Ok? {
      PiecesAreContentDefined(t, cfg, seen);
    }
  }

  /** The bytes of the file at the piece's offset are the piece. */
  predicate PartOf(p: Piece, s: seq<byte>) {
    p.offset + |p.contents| <= |s| && s[p.offset..p.offset + |p.contents|] == p.contents
  }

  /** Before the end of the file a chunk ends at the maximum length or, from the minimum length on, where the
      low bits of its hash are zero; and these are zero at no earlier such place. */
  ghost predicate ContentDefined(t: GearTable, cfg: ChunkConfig, c: seq<byte>, last: bool)
    requires ValidConfig(cfg)
  {
    var k := Log2(cfg.minimumBytes);
    && (!last ==> |c| == cfg.maximumBytes || (cfg.minimumBytes <= |c| && Low(Gear(t, c), k) == 0))
    && (forall i | cfg.minimumBytes <= i < |c| :: Low(Gear(t, c[..i]), k) != 0)
  }

  lemma PiecesAreContentDefined(t: GearTable, cfg: ChunkConfig, s: seq<byte>)
    requires ValidConfig(cfg)
    ensures var ps := Placed(Chunks(t, cfg, s));
      forall j | 0 <= j < |ps| :: PartOf(ps[j], s) && ContentDefined(t, cfg, ps[j].contents, j + 1 == |ps|)
  {
    var cs := Chunks(t, cfg, s);
    ChunksConcat(t, cfg, s);
    forall j | 0 <= j < |cs|
      ensures var ps := Placed(cs); PartOf(ps[j], s) && ContentDefined(t, cfg, ps[j].contents, j + 1 == |ps|)
    {
      PlacedMeans(cs, j);
      ChunksAreContentDefined(t, cfg, s, j);
    }
  }
}
