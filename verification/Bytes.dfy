/** Bytes, fixed-width integers and results shared by every wire format of the transfer engine. */
module Bytes {

  type byte = x: int | 0 <= x < 256

  const U16: nat := 0x1_0000
  const U32: nat := 0x1_0000_0000
  const U64: nat := 0x1_0000_0000_0000_0000

  /** The error kinds the callers tell apart. `Fault` stands for every failure of the environment: a
      file that cannot be opened, a socket that breaks, a file that changes under the reader. */
  datatype Error =
    | InvalidInput
    | InvalidData
    | UnexpectedEof
    | Overflow
    | LiteralLimitExceeded
    | AlreadyExists
    | NotConnected
    | Fault

  datatype Option<+T> = None | Some(value: T)

  datatype Result<+T> = Ok(value: T) | Err(error: Error)

  /** A BLAKE3 digest. The hash itself is always a parameter, so every result holds for every hash. */
  type Digest = d: seq<byte> | |d| == 32 witness seq(32, _ => 0)

  type Hash = seq<byte> -> Digest

  function Min(a: nat, b: nat): nat {
    if a < b then a else b
  }

  function Pow256(k: nat): (p: nat)
    ensures p > 0
  {
    if k == 0 then 1 else 256 * Pow256(k - 1)
  }

  lemma Widths()
    ensures Pow256(2) == U16 && Pow256(4) == U32 && Pow256(8) == U64
  {
    assert Pow256(2) == 256 * Pow256(1);
    assert Pow256(4) == 256 * (256 * Pow256(2));
    assert Pow256(8) == 256 * (256 * (256 * (256 * Pow256(4))));
  }

  // ---------------------------------------------------------------- little endian

  /** Byte `i` of `v`, counting from the least significant. */
  function Digit(v: nat, i: nat): byte {
    if i == 0 then v % 256 else Digit(v / 256, i - 1)
  }

  /** The low `k` bytes of `v`, least significant first (`to_le_bytes`). */
  function LE(v: nat, k: nat): (s: seq<byte>)
    ensures |s| == k
  {
    seq(k, i requires 0 <= i < k => Digit(v, i))
  }

  function FromLE(s: seq<byte>): (v: nat)
    ensures v < Pow256(|s|)
  {
    if s == [] then 0 else s[0] + 256 * FromLE(s[1..])
  }

  lemma LECons(v: nat, k: nat)
    requires k > 0
    ensures LE(v, k) == [v % 256] + LE(v / 256, k - 1)
  {
  }

  lemma {:induction false} FromLEOfLE(v: nat, k: nat)
    requires v < Pow256(k)
    ensures FromLE(LE(v, k)) == v
  {
    if k > 0 {
      FromLEOfLE(v / 256, k - 1);
      LECons(v, k);
      assert LE(v, k)[1..] == LE(v / 256, k - 1);
    }
  }

  lemma {:induction false} LEOfFromLE(s: seq<byte>)
    ensures LE(FromLE(s), |s|) == s
  {
    if s != [] {
      LEOfFromLE(s[1..]);
      LECons(FromLE(s), |s|);
      assert s == [s[0]] + s[1..];
    }
  }

  // ---------------------------------------------------------------- big endian

  /** The low `k` bytes of `v`, most significant first (`to_be_bytes`). */
  function BE(v: nat, k: nat): (s: seq<byte>)
    ensures |s| == k
  {
    seq(k, i requires 0 <= i < k => Digit(v, k - 1 - i))
  }

  function FromBE(s: seq<byte>): (v: nat)
    ensures v < Pow256(|s|)
  {
    if s == [] then 0 else 256 * FromBE(s[..|s| - 1]) + s[|s| - 1]
  }

  lemma BESnoc(v: nat, k: nat)
    requires k > 0
    ensures BE(v, k) == BE(v / 256, k - 1) + [v % 256]
  {
    var s := BE(v / 256, k - 1) + [v % 256];
    forall i | 0 <= i < k
      ensures BE(v, k)[i] == s[i]
    {
      assert BE(v, k)[i] == Digit(v, k - 1 - i);
      if i < k - 1 {
        assert s[i] == BE(v / 256, k - 1)[i] == Digit(v / 256, k - 2 - i);
      }
    }
  }

  lemma {:induction false} FromBEOfBE(v: nat, k: nat)
    requires v < Pow256(k)
    ensures FromBE(BE(v, k)) == v
  {
    if k > 0 {
      FromBEOfBE(v / 256, k - 1);
      BESnoc(v, k);
      assert BE(v, k)[..k - 1] == BE(v / 256, k - 1);
    }
  }

  lemma {:induction false} BEOfFromBE(s: seq<byte>)
    ensures BE(FromBE(s), |s|) == s
  {
    if s != [] {
      BEOfFromBE(s[..|s| - 1]);
      BESnoc(FromBE(s), |s|);
      assert s == s[..|s| - 1] + [s[|s| - 1]];
    }
  }

  // ---------------------------------------------------------------- concatenation

  function Concat(parts: seq<seq<byte>>): (s: seq<byte>)
  {
    if parts == [] then [] else parts[0] + Concat(parts[1..])
  }

  lemma Associates(a: seq<byte>, b: seq<byte>, c: seq<byte>)
    ensures a + b + c == a + (b + c)
  {
  }

  lemma {:induction false} ConcatAppend(a: seq<seq<byte>>, b: seq<seq<byte>>)
    ensures Concat(a + b) == Concat(a) + Concat(b)
  {
    if a == [] {
      assert a + b == b;
    } else {
      ConcatAppend(a[1..], b);
      assert (a + b)[1..] == a[1..] + b && (a + b)[0] == a[0];
      Associates(a[0], Concat(a[1..]), Concat(b));
    }
  }

  lemma ConcatSnoc(a: seq<seq<byte>>, x: seq<byte>)
    ensures Concat(a + [x]) == Concat(a) + x
  {
    ConcatAppend(a, [x]);
    assert [x][1..] == [];
  }

  lemma PrefixConcat(cs: seq<seq<byte>>, i: nat)
    requires i < |cs|
    ensures Concat(cs[..i + 1]) == Concat(cs[..i]) + cs[i]
  {
    assert cs[..i + 1] == cs[..i] + [cs[i]];
    ConcatSnoc(cs[..i], cs[i]);
  }

  /** Part `i` of a concatenation starts where the parts before it end. */
  lemma SliceOfConcat(cs: seq<seq<byte>>, i: nat)
    requires i < |cs|
    ensures |Concat(cs[..i])| + |cs[i]| <= |Concat(cs)|
    ensures Concat(cs)[|Concat(cs[..i])|..|Concat(cs[..i])| + |cs[i]|] == cs[i]
  {
    PrefixConcat(cs, i);
    assert cs == cs[..i + 1] + cs[i + 1..];
    ConcatAppend(cs[..i + 1], cs[i + 1..]);
  }

  /** The encodings of a list, one after the other. */
  function Flat<T>(enc: T -> seq<byte>, xs: seq<T>): seq<byte> {
    if xs == [] then [] else Flat(enc, xs[..|xs| - 1]) + enc(xs[|xs| - 1])
  }

  lemma FlatSnoc<T>(enc: T -> seq<byte>, xs: seq<T>, x: T)
    ensures Flat(enc, xs + [x]) == Flat(enc, xs) + enc(x)
  {
    assert (xs + [x])[..|xs|] == xs;
  }

  lemma {:induction false} FlatPrefix<T>(enc: T -> seq<byte>, xs: seq<T>, i: nat)
    requires i <= |xs|
    ensures Flat(enc, xs[..i]) <= Flat(enc, xs)
  {
    if i == |xs| {
      assert xs[..i] == xs;
    } else {
      var init := xs[..|xs| - 1];
      FlatPrefix(enc, init, i);
      assert init[..i] == xs[..i];
    }
  }

  lemma {:induction false} FlatAppend<T>(enc: T -> seq<byte>, xs: seq<T>, ys: seq<T>)
    ensures Flat(enc, xs + ys) == Flat(enc, xs) + Flat(enc, ys)
  {
    if ys == [] {
      assert xs + ys == xs;
    } else {
      FlatAppend(enc, xs, ys[..|ys| - 1]);
      assert (xs + ys)[..|xs + ys| - 1] == xs + ys[..|ys| - 1];
    }
  }

  lemma SubSlice(b: seq<byte>, at: nat, n: nat, i: nat, j: nat)
    requires at + n <= |b| && i <= j <= n
    ensures b[at..at + n][i..j] == b[at + i..at + j]
  {
    var u, v := b[at..at + n][i..j], b[at + i..at + j];
    forall k | 0 <= k < j - i
      ensures u[k] == v[k]
    {
    }
  }

  lemma SplitSlice(b: seq<byte>, i: nat, j: nat, k: nat)
    requires i <= j <= k <= |b|
    ensures b[i..k] == b[i..j] + b[j..k]
  {
  }
}
