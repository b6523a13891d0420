/** The 64-bit FNV-1a fingerprint of a manifest (src/control_plane.rs, `hash_bytes`). Every step can be
    undone, so a change of one byte is never lost. */
module Fingerprint {

  import opened Bytes
  import Chunker

  const FNV_OFFSET_BASIS: nat := 0xcbf29ce484222325
  const FNV_PRIME: nat := 0x100000001b3

  /** The inverse of the prime modulo 2^64. */
  const INVERSE: nat := 0xce965057aff6957b

  type Word = w: nat | w < U64

  /** Bitwise exclusive or of two unbounded words. */
  function Xor(a: nat, b: nat): nat
    decreases a + b
  {
    if a + b == 0 then 0 else (if a % 2 == b % 2 then 0 else 1) + 2 * Xor(a / 2, b / 2)
  }

  /** Bit by bit, also where both words are zero. */
  lemma XorHalves(a: nat, b: nat)
    ensures Xor(a, b) / 2 == Xor(a / 2, b / 2)
    ensures Xor(a, b) % 2 == if a % 2 == b % 2 then 0 else 1
  {
    assert Xor(0, 0) == 0;
  }

  lemma {:induction false} XorCommutes(a: nat, b: nat)
    ensures Xor(a, b) == Xor(b, a)
    decreases a + b
  {
    if a + b != 0 {
      XorCommutes(a / 2, b / 2);
    }
  }

  lemma {:induction false} XorOther(a: nat, b: nat)
    ensures Xor(Xor(a, b), a) == b
    decreases a + b
  {
    if a + b != 0 {
      XorOther(a / 2, b / 2);
      XorHalves(a, b);
      XorHalves(Xor(a, b), a);
    }
  }

  lemma XorUndone(a: nat, b: nat)
    ensures Xor(Xor(a, b), b) == a
  {
    XorCommutes(a, b);
    XorOther(b, a);
  }

  lemma {:induction false} XorBelow(a: nat, b: nat, k: nat)
    requires a < Chunker.Pow2(k) && b < Chunker.Pow2(k)
    ensures Xor(a, b) < Chunker.Pow2(k)
  {
    if k > 0 {
      XorBelow(a / 2, b / 2, k - 1);
    }
  }

  lemma XorIsAWord(a: Word, b: byte)
    ensures Xor(a, b) < U64
  {
    Chunker.Pow2Is64();
    XorBelow(a, b, 64);
  }

  function Times(w: Word, k: nat): Word {
    w * k % U64
  }

  /** One step of the hash, and the step that undoes it. */
  function Step(hash: Word, b: byte): Word {
    XorIsAWord(hash, b);
    Times(Xor(hash, b), FNV_PRIME)
  }

  function Unstep(hash: Word, b: byte): Word {
    XorIsAWord(Times(hash, INVERSE), b);
    Xor(Times(hash, INVERSE), b)
  }

  lemma TimesUndone(w: Word)
    ensures Times(Times(w, FNV_PRIME), INVERSE) == w
    ensures Times(Times(w, INVERSE), FNV_PRIME) == w
  {
    Undone(w, FNV_PRIME, INVERSE);
    Undone(w, INVERSE, FNV_PRIME);
  }

  lemma Undone(w: Word, p: nat, i: nat)
    requires p * i == 1 + 0xce9650590f * U64
    ensures Times(Times(w, p), i) == w
  {
    var q := w * p / U64;
    var v := w * p % U64;
    assert v == w * p - q * U64;
    calc {
      v * i;
      (w * p - q * U64) * i;
      w * (p * i) - q * U64 * i;
      w * (1 + 0xce9650590f * U64) - q * U64 * i;
      w + (w * 0xce9650590f - q * i) * U64;
    }
    RemainderIs(v * i, w, w * 0xce9650590f - q * i);
  }

  lemma RemainderIs(x: int, w: Word, t: int)
    requires x == w + t * U64
    ensures x % U64 == w
  {
  }

  /** A step is a bijection of the 64-bit states. */
  lemma StepIsABijection(hash: Word, b: byte)
    ensures Unstep(Step(hash, b), b) == hash
    ensures Step(Unstep(hash, b), b) == hash
  {
    XorIsAWord(hash, b);
    TimesUndone(Xor(hash, b));
    XorUndone(hash, b);
    TimesUndone(hash);
    XorUndone(Times(hash, INVERSE), b);
  }

  /** From one state, different bytes lead to different states. */
  lemma StepSeparates(hash: Word, b: byte, c: byte)
    requires b != c
    ensures Step(hash, b) != Step(hash, c)
  {
    XorIsAWord(hash, b);
    XorIsAWord(hash, c);
    TimesUndone(Xor(hash, b));
    TimesUndone(Xor(hash, c));
    XorOther(hash, b);
    XorOther(hash, c);
  }

  /** The hash of a stream of bytes, from a given state on. */
  function Fnv(hash: Word, s: seq<byte>): Word {
    if s == [] then hash else Step(Fnv(hash, s[..|s| - 1]), s[|s| - 1])
  }

  lemma {:induction false} FnvAppend(hash: Word, s: seq<byte>, t: seq<byte>)
    ensures Fnv(hash, s + t) == Fnv(Fnv(hash, s), t)
  {
    if t == [] {
      assert s + t == s;
    } else {
      FnvAppend(hash, s, t[..|t| - 1]);
      assert (s + t)[..|s + t| - 1] == s + t[..|t| - 1];
    }
  }

  /** One byte more, in plain terms: the byte is combined with the state first, and then the state is multiplied
      (FNV-1a; FNV-1 multiplies first). */
  lemma OneMoreByte(hash: Word, s: seq<byte>, b: byte)
    ensures Fnv(hash, []) == hash
    ensures Fnv(hash, s + [b]) == Xor(Fnv(hash, s), b) * 0x100_0000_01B3 % 0x1_0000_0000_0000_0000
  {
    assert (s + [b])[..|s|] == s;
  }

  /** Whatever is hashed next, different states stay different. */
  lemma {:induction false} FnvSeparates(g: Word, h: Word, s: seq<byte>)
    requires g != h
    ensures Fnv(g, s) != Fnv(h, s)
  {
    if s != [] {
      var init, last := s[..|s| - 1], s[|s| - 1];
      FnvSeparates(g, h, init);
      StepIsABijection(Fnv(g, init), last);
      StepIsABijection(Fnv(h, init), last);
    }
  }

  /** Two streams of one length that differ in exactly one byte have different fingerprints. */
  lemma OneByteIsSeen(hash: Word, s: seq<byte>, t: seq<byte>, i: nat)
    requires i < |s| == |t| && s[i] != t[i]
    requires forall k | 0 <= k < |s| && k != i :: s[k] == t[k]
    ensures Fnv(hash, s) != Fnv(hash, t)
  {
    var before, after := s[..i], s[i + 1..];
    assert s == before + [s[i]] + after;
    assert t == before + [t[i]] + after;
    FnvAppend(hash, before, [s[i]]);
    FnvAppend(hash, before, [t[i]]);
    FnvAppend(hash, before + [s[i]], after);
    FnvAppend(hash, before + [t[i]], after);
    var state := Fnv(hash, before);
    StepSeparates(state, s[i], t[i]);
    FnvOfOne(state, s[i]);
    FnvOfOne(state, t[i]);
    FnvSeparates(Step(state, s[i]), Step(state, t[i]), after);
  }

  lemma FnvOfOne(hash: Word, b: byte)
    ensures Fnv(hash, [b]) == Step(hash, b)
  {
    assert [b][..0] == [];
    assert Fnv(hash, []) == hash;
  }

  /** `hash_bytes`. */
  method HashBytes(hash: Word, bytes: seq<byte>) returns (h: Word)
    ensures h == Fnv(hash, bytes)
  {
    h := hash;
    for i := 0 to |bytes|
      invariant h == Fnv(hash, bytes[..i])
    {
      assert bytes[..i + 1][..i] == bytes[..i];
      XorIsAWord(h, bytes[i]);
      h := Xor(h, bytes[i]) * FNV_PRIME % U64;
    }
    assert bytes[..|bytes|] == bytes;
  }
}
