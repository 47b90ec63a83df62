/**
 The lookup3 hash: a specification on byte strings, the reversibility of its mixing steps, and
 what follows for keys that differ in one block.
 */
module Lookup3 {
  import opened Words

  type Word = x: nat | x < WORD
  type Byte = x: nat | x < 256
  type Bytes = seq<Byte>

  // ---------- 32-bit arithmetic ----------

  function Plus(x: Word, y: Word): Word {
    if x + y < WORD then x + y else x + y - WORD
  }

  function Minus(x: Word, y: Word): Word {
    if y <= x then x - y else x + WORD - y
  }

  function Xor32(x: Word, y: Word): Word {
    Pow2Of32();
    XorOrBound(x, y, 32);
    Xor(x, y)
  }

  // (x << k) | (x >> (32 - k))
  function Rot(x: Word, k: nat): Word
    requires 0 < k < 32
  {
    var lo, hi := (x * Pow2(k)) % WORD, Shr(x, 32 - k);
    Pow2Of32();
    ShrLess(x, 32 - k);
    XorOrBound(lo, hi, 32);
    Or(lo, hi)
  }

  lemma {:induction false} ShrLess(x: nat, k: nat)
    ensures Shr(x, k) <= x
    decreases k
  {
    if k > 0 { ShrLess(x / 2, k - 1); }
  }

  lemma NotNegative(a: int, b: int)
    requires a >= 0 && b >= 0
    ensures a * b >= 0
  {}

  lemma ProductBelow(u: nat, p: nat, q: nat)
    requires u < q
    ensures u * p <= q * p - p
  {
    NotNegative(q - 1 - u, p);
    assert (q - 1 - u) * p == q * p - p - u * p;
  }

  lemma Distribute(v: nat, q: nat, u: nat, p: nat)
    ensures (v * q + u) * p == (q * p) * v + u * p
  {}

  lemma JoinedBelow(u: nat, v: nat, p: nat, q: nat)
    requires u < q && v < p
    ensures u * p + v < q * p
  {
    ProductBelow(u, p, q);
  }

  // Shifting the word up by k drops its top bits.
  lemma LowPart(x: nat, u: nat, v: nat, p: nat, q: nat)
    requires q * p == WORD && u < q && x == v * q + u && p > 0
    ensures (x * p) % WORD == u * p
  {
    Distribute(v, q, u, p);
    JoinedBelow(u, 0, p, q);
    DivisionUnique(x * p, WORD, v, u * p);
  }

  lemma PowersOf32(k: nat)
    requires k <= 32
    ensures Pow2(32 - k) * Pow2(k) == WORD && Pow2(k) * Pow2(32 - k) == WORD
  {
    Pow2Of32();
    Pow2Add(32 - k, k);
    Pow2Add(k, 32 - k);
  }

  /** A rotation swaps the top k bits of the word, v, with the rest, u. */
  lemma RotSwaps(x: Word, u: nat, v: nat, k: nat)
    requires 0 < k < 32 && u < Pow2(32 - k) && v < Pow2(k) && x == v * Pow2(32 - k) + u
    ensures Rot(x, k) == u * Pow2(k) + v
  {
    PowersOf32(k);
    LowPart(x, u, v, Pow2(k), Pow2(32 - k));
    ShrJoined(v, u, 32 - k);
    OrJoined(u, v, k);
  }

  lemma QuotientBelow(x: nat, p: nat, q: nat)
    requires q > 0 && x < p * q
    ensures x == (x / q) * q + x % q && x / q < p
  {
    if x / q >= p { ProductBelow(p - 1, q, x / q); }
  }

  // Every word has such parts.
  lemma Parts(x: Word, k: nat) returns (u: nat, v: nat)
    requires 0 < k < 32
    ensures u < Pow2(32 - k) && v < Pow2(k) && x == v * Pow2(32 - k) + u
  {
    PowersOf32(k);
    u, v := Quotient(x, Pow2(k), Pow2(32 - k));
  }

  lemma Quotient(x: nat, p: nat, q: nat) returns (u: nat, v: nat)
    requires q > 0 && x < p * q
    ensures u < q && v < p && x == v * q + u
  {
    u, v := x % q, x / q;
    QuotientBelow(x, p, q);
  }

  /** Rotating by k and then by 32 - k gives the word back. */
  lemma RotTwice(x: Word, k: nat)
    requires 0 < k < 32
    ensures Rot(Rot(x, k), 32 - k) == x
  {
    var u, v := Parts(x, k);
    RotSwaps(x, u, v, k);
    RotSwaps(Rot(x, k), v, u, 32 - k);
  }

  /** Bit i of a rotated word is bit i - k of the word, counted around. */
  lemma RotBit(x: Word, k: nat, i: nat)
    requires 0 < k < 32 && i < 32
    ensures Bit(Rot(x, k), i) <==> Bit(x, (i + 32 - k) % 32)
  {
    var u, v := Parts(x, k);
    RotSwaps(x, u, v, k);
    BitJoined(u, v, k, i);
    BitJoined(v, u, 32 - k, (i + 32 - k) % 32);
    assert (i + 32 - k) % 32 == if i < k then i + 32 - k else i - k;
  }

  // ---------- mixing ----------

  datatype Triple = Triple(a: Word, b: Word, c: Word)

  // x -= z; x ^= rot(z, k); z += y
  function MixStage(x: Word, y: Word, z: Word, k: nat): (Word, Word)
    requires 0 < k < 32
  {
    (Xor32(Minus(x, z), Rot(z, k)), Plus(z, y))
  }

  function UnmixStage(x: Word, y: Word, z: Word, k: nat): (Word, Word)
    requires 0 < k < 32
  {
    (Plus(Xor32(x, Rot(Minus(z, y), k)), Minus(z, y)), Minus(z, y))
  }

  // x ^= z; x -= rot(z, k)
  function FinalStage(x: Word, z: Word, k: nat): Word
    requires 0 < k < 32
  {
    Minus(Xor32(x, z), Rot(z, k))
  }

  function UnfinalStage(x: Word, z: Word, k: nat): Word
    requires 0 < k < 32
  {
    Xor32(Plus(x, Rot(z, k)), z)
  }

  function Mix(t: Triple): Triple {
    var (a, c) := MixStage(t.a, t.b, t.c, 4);
    var (b, a) := MixStage(t.b, c, a, 6);
    var (c, b) := MixStage(c, a, b, 8);
    var (a, c) := MixStage(a, b, c, 16);
    var (b, a) := MixStage(b, c, a, 19);
    var (c, b) := MixStage(c, a, b, 4);
    Triple(a, b, c)
  }

  function Unmix(t: Triple): Triple {
    var (c, b) := UnmixStage(t.c, t.a, t.b, 4);
    var (b, a) := UnmixStage(b, c, t.a, 19);
    var (a, c) := UnmixStage(a, b, c, 16);
    var (c, b) := UnmixStage(c, a, b, 8);
    var (b, a) := UnmixStage(b, c, a, 6);
    var (a, c) := UnmixStage(a, b, c, 4);
    Triple(a, b, c)
  }

  function Final(t: Triple): Triple {
    var c := FinalStage(t.c, t.b, 14);
    var a := FinalStage(t.a, c, 11);
    var b := FinalStage(t.b, a, 25);
    var c := FinalStage(c, b, 16);
    var a := FinalStage(a, c, 4);
    var b := FinalStage(b, a, 14);
    var c := FinalStage(c, b, 24);
    Triple(a, b, c)
  }

  function Unfinal(t: Triple): Triple {
    var c := UnfinalStage(t.c, t.b, 24);
    var b := UnfinalStage(t.b, t.a, 14);
    var a := UnfinalStage(t.a, c, 4);
    var c := UnfinalStage(c, b, 16);
    var b := UnfinalStage(b, a, 25);
    var a := UnfinalStage(a, c, 11);
    var c := UnfinalStage(c, b, 14);
    Triple(a, b, c)
  }

  lemma MixStageInverse(x: Word, y: Word, z: Word, k: nat)
    requires 0 < k < 32
    ensures var (x', z') := MixStage(x, y, z, k); UnmixStage(x', y, z', k) == (x, z)
    ensures var (x', z') := UnmixStage(x, y, z, k); MixStage(x', y, z', k) == (x, z)
  {
    XorTwice(Minus(x, z), Rot(z, k));
    XorTwice(x, Rot(Minus(z, y), k));
  }

  lemma FinalStageInverse(x: Word, z: Word, k: nat)
    requires 0 < k < 32
    ensures UnfinalStage(FinalStage(x, z, k), z, k) == x
    ensures FinalStage(UnfinalStage(x, z, k), z, k) == x
  {
    XorTwice(x, z);
    XorTwice(Plus(x, Rot(z, k)), z);
  }

  /** mix is a bijection: Unmix undoes it and it undoes Unmix. */
  lemma MixIsBijection(t: Triple)
    ensures Unmix(Mix(t)) == t && Mix(Unmix(t)) == t
  {
    MixForward(t);
    MixBackward(t);
  }

  lemma MixForward(t: Triple)
    ensures Unmix(Mix(t)) == t
  {
    var (a1, c1) := MixStage(t.a, t.b, t.c, 4);
    MixStageInverse(t.a, t.b, t.c, 4);
    var (b1, a2) := MixStage(t.b, c1, a1, 6);
    MixStageInverse(t.b, c1, a1, 6);
    var (c2, b2) := MixStage(c1, a2, b1, 8);
    MixStageInverse(c1, a2, b1, 8);
    var (a3, c3) := MixStage(a2, b2, c2, 16);
    MixStageInverse(a2, b2, c2, 16);
    var (b3, a4) := MixStage(b2, c3, a3, 19);
    MixStageInverse(b2, c3, a3, 19);
    MixStageInverse(c3, a4, b3, 4);
  }

  lemma MixBackward(t: Triple)
    ensures Mix(Unmix(t)) == t
  {
    var (c1, b1) := UnmixStage(t.c, t.a, t.b, 4);
    MixStageInverse(t.c, t.a, t.b, 4);
    var (b2, a1) := UnmixStage(b1, c1, t.a, 19);
    MixStageInverse(b1, c1, t.a, 19);
    var (a2, c2) := UnmixStage(a1, b2, c1, 16);
    MixStageInverse(a1, b2, c1, 16);
    var (c3, b3) := UnmixStage(c2, a2, b2, 8);
    MixStageInverse(c2, a2, b2, 8);
    var (b4, a3) := UnmixStage(b3, c3, a2, 6);
    MixStageInverse(b3, c3, a2, 6);
    MixStageInverse(a3, b4, c3, 4);
  }

  /** final is a bijection. */
  lemma FinalIsBijection(t: Triple)
    ensures Unfinal(Final(t)) == t && Final(Unfinal(t)) == t
  {
    FinalForward(t);
    FinalBackward(t);
  }

  lemma FinalForward(t: Triple)
    ensures Unfinal(Final(t)) == t
  {
    var c1 := FinalStage(t.c, t.b, 14);
    FinalStageInverse(t.c, t.b, 14);
    var a1 := FinalStage(t.a, c1, 11);
    FinalStageInverse(t.a, c1, 11);
    var b1 := FinalStage(t.b, a1, 25);
    FinalStageInverse(t.b, a1, 25);
    var c2 := FinalStage(c1, b1, 16);
    FinalStageInverse(c1, b1, 16);
    var a2 := FinalStage(a1, c2, 4);
    FinalStageInverse(a1, c2, 4);
    var b2 := FinalStage(b1, a2, 14);
    FinalStageInverse(b1, a2, 14);
    FinalStageInverse(c2, b2, 24);
  }

  lemma FinalBackward(t: Triple)
    ensures Final(Unfinal(t)) == t
  {
    var c1 := UnfinalStage(t.c, t.b, 24);
    FinalStageInverse(t.c, t.b, 24);
    var b1 := UnfinalStage(t.b, t.a, 14);
    FinalStageInverse(t.b, t.a, 14);
    var a1 := UnfinalStage(t.a, c1, 4);
    FinalStageInverse(t.a, c1, 4);
    var c2 := UnfinalStage(c1, b1, 16);
    FinalStageInverse(c1, b1, 16);
    var b2 := UnfinalStage(b1, a1, 25);
    FinalStageInverse(b1, a1, 25);
    var a2 := UnfinalStage(a1, c2, 11);
    FinalStageInverse(a1, c2, 11);
    FinalStageInverse(c2, b2, 14);
  }

  // ---------- the hash of a byte string ----------

  // Byte i, or zero past the end.
  function ByteAt(key: Bytes, i: nat): Byte {
    if i < |key| then key[i] else 0
  }

  function Le(b0: Byte, b1: Byte, b2: Byte, b3: Byte): Word {
    b0 + 0x100 * (b1 + 0x100 * (b2 + 0x100 * b3))
  }

  // The little-endian word at byte i of the zero-padded key.
  function WordAt(key: Bytes, i: nat): Word {
    Le(ByteAt(key, i), ByteAt(key, i + 1), ByteAt(key, i + 2), ByteAt(key, i + 3))
  }

  function AddWords(t: Triple, x: Word, y: Word, z: Word): Triple {
    Triple(Plus(t.a, x), Plus(t.b, y), Plus(t.c, z))
  }

  function AddBlock(t: Triple, key: Bytes): Triple {
    AddWords(t, WordAt(key, 0), WordAt(key, 4), WordAt(key, 8))
  }

  // The internal state once the whole key is absorbed.
  function Absorb(t: Triple, key: Bytes): Triple
    decreases |key|
  {
    if |key| > 12 then Absorb(Mix(AddBlock(t, key[..12])), key[12..])
    else if |key| == 0 then t
    else Final(AddBlock(t, key))
  }

  function Start(length: Word, pc: Word, pb: Word): Triple {
    var x := Plus(Plus(0xdeadbeef, length), pc);
    Triple(x, x, Plus(x, pb))
  }

  // The state reached by hashlittle2 with seeds pc and pb; c and b are its two results.
  function HashState(key: Bytes, pc: Word, pb: Word): Triple {
    Absorb(Start(|key| % WORD, pc, pb), key)
  }

  // ---------- keys that differ in one block ----------

  lemma LeInjective(b0: Byte, b1: Byte, b2: Byte, b3: Byte, d0: Byte, d1: Byte, d2: Byte, d3: Byte)
    requires Le(b0, b1, b2, b3) == Le(d0, d1, d2, d3)
    ensures b0 == d0 && b1 == d1 && b2 == d2 && b3 == d3
  {
    DigitsUnique(b0, b1 + 0x100 * (b2 + 0x100 * b3), d0, d1 + 0x100 * (d2 + 0x100 * d3));
    DigitsUnique(b1, b2 + 0x100 * b3, d1, d2 + 0x100 * d3);
    DigitsUnique(b2, b3, d2, d3);
  }

  lemma DigitsUnique(b: Byte, p: nat, d: Byte, q: nat)
    requires b + 0x100 * p == d + 0x100 * q
    ensures b == d && p == q
  {}

  lemma WordInjective(x: Bytes, y: Bytes, i: nat)
    requires |x| == |y| && WordAt(x, i) == WordAt(y, i)
    ensures forall j :: i <= j < i + 4 && j < |x| ==> x[j] == y[j]
  {
    LeInjective(ByteAt(x, i), ByteAt(x, i + 1), ByteAt(x, i + 2), ByteAt(x, i + 3),
                ByteAt(y, i), ByteAt(y, i + 1), ByteAt(y, i + 2), ByteAt(y, i + 3));
    forall j | i <= j < i + 4 && j < |x| ensures x[j] == y[j] {
      assert ByteAt(x, j) == ByteAt(y, j);
    }
  }

  // Different blocks of the same length lead to different states.
  lemma BlockInjective(t: Triple, x: Bytes, y: Bytes)
    requires |x| == |y| <= 12 && AddBlock(t, x) == AddBlock(t, y)
    ensures x == y
  {
    WordInjective(x, y, 0);
    WordInjective(x, y, 4);
    WordInjective(x, y, 8);
  }

  lemma MixInjective(t: Triple, u: Triple)
    requires Mix(t) == Mix(u)
    ensures t == u
  {
    MixForward(t);
    MixForward(u);
  }

  lemma FinalInjective(t: Triple, u: Triple)
    requires Final(t) == Final(u)
    ensures t == u
  {
    FinalForward(t);
    FinalForward(u);
  }

  lemma AddBlockInjective(t: Triple, u: Triple, key: Bytes)
    requires AddBlock(t, key) == AddBlock(u, key)
    ensures t == u
  {}

  // Different states stay different whatever is absorbed.
  lemma {:induction false} AbsorbInjective(t: Triple, u: Triple, key: Bytes)
    requires Absorb(t, key) == Absorb(u, key)
    ensures t == u
    decreases |key|
  {
    if |key| > 12 {
      var bt, bu := AddBlock(t, key[..12]), AddBlock(u, key[..12]);
      AbsorbInjective(Mix(bt), Mix(bu), key[12..]);
      MixInjective(bt, bu);
      AddBlockInjective(t, u, key[..12]);
    } else if |key| > 0 {
      FinalInjective(AddBlock(t, key), AddBlock(u, key));
      AddBlockInjective(t, u, key);
    }
  }

  // x and y differ in the 12-byte block j and nowhere else.
  ghost predicate DifferInBlock(x: Bytes, y: Bytes, j: nat) {
    |x| == |y| && x != y && forall i :: 0 <= i < |x| && !(12 * j <= i < 12 * j + 12) ==> x[i] == y[i]
  }

  lemma ShortKeysInjective(t: Triple, x: Bytes, y: Bytes)
    requires |x| == |y| <= 12 && Absorb(t, x) == Absorb(t, y)
    ensures x == y
  {
    if |x| > 0 {
      FinalInjective(AddBlock(t, x), AddBlock(t, y));
      BlockInjective(t, x, y);
    }
  }

  lemma SameParts(x: Bytes, y: Bytes)
    requires |x| == |y| > 12 && x[..12] == y[..12] && x[12..] == y[12..]
    ensures x == y
  {
    assert x == x[..12] + x[12..] && y == y[..12] + y[12..];
  }

  lemma FirstBlockInjective(t: Triple, x: Bytes, y: Bytes)
    requires |x| == |y| > 12 && x[12..] == y[12..] && Absorb(t, x) == Absorb(t, y)
    ensures x == y
  {
    var u, v := AddBlock(t, x[..12]), AddBlock(t, y[..12]);
    AbsorbInjective(Mix(u), Mix(v), x[12..]);
    MixInjective(u, v);
    BlockInjective(t, x[..12], y[..12]);
    SameParts(x, y);
  }

  /** Two keys of equal length that differ in exactly one block end in different internal states,
      for every length and every starting state. */
  lemma {:induction false} OneBlockDiffers(t: Triple, x: Bytes, y: Bytes, j: nat)
    requires DifferInBlock(x, y, j)
    ensures Absorb(t, x) != Absorb(t, y)
    decreases |x|
  {
    if Absorb(t, x) == Absorb(t, y) {
      if |x| <= 12 {
        ShortKeysInjective(t, x, y);
      } else if j == 0 {
        assert x[12..] == y[12..];
        FirstBlockInjective(t, x, y);
      } else {
        assert x[..12] == y[..12];
        RestDiffers(x, y, j);
        OneBlockDiffers(Mix(AddBlock(t, x[..12])), x[12..], y[12..], j - 1);
      }
    }
  }

  lemma RestDiffers(x: Bytes, y: Bytes, j: nat)
    requires DifferInBlock(x, y, j) && j > 0 && |x| > 12
    ensures DifferInBlock(x[12..], y[12..], j - 1)
  {
    assert x == x[..12] + x[12..] && y == y[..12] + y[12..];
    assert x[..12] == y[..12];
    forall i | 0 <= i < |x| - 12 && !(12 * (j - 1) <= i < 12 * (j - 1) + 12) ensures x[12..][i] == y[12..][i] {
      assert x[i + 12] == y[i + 12];
    }
  }
}
