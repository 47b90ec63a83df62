/**
 The test vectors of lookup3: the values its self-test expects are those of the model.

 Words are taken apart into bytes and rotations into the two parts they swap, so that every step is a sum of constants.
 */
module Lookup3Vectors {
  import opened Words
  import opened Lookup3

  // ---------- exclusive or, from the top bit down ----------

  function Rest(d: nat, t: nat): nat {
    if d >= t then d - t else d
  }

  function Differ(d: nat, e: nat, t: nat): nat {
    if (d >= t) != (e >= t) then t else 0
  }

  function XorByte(d: nat, e: nat): nat {
    var d6, e6 := Rest(d, 128), Rest(e, 128);
    var d5, e5 := Rest(d6, 64), Rest(e6, 64);
    var d4, e4 := Rest(d5, 32), Rest(e5, 32);
    var d3, e3 := Rest(d4, 16), Rest(e4, 16);
    var d2, e2 := Rest(d3, 8), Rest(e3, 8);
    var d1, e1 := Rest(d2, 4), Rest(e2, 4);
    var d0, e0 := Rest(d1, 2), Rest(e1, 2);
    Differ(d, e, 128) + Differ(d6, e6, 64) + Differ(d5, e5, 32) + Differ(d4, e4, 16)
    + Differ(d3, e3, 8) + Differ(d2, e2, 4) + Differ(d1, e1, 2) + Differ(d0, e0, 1)
  }

  lemma XorTop(d: nat, e: nat, k: nat)
    requires d < 2 * Pow2(k) && e < 2 * Pow2(k)
    ensures Xor(d, e) == Differ(d, e, Pow2(k)) + Xor(Rest(d, Pow2(k)), Rest(e, Pow2(k)))
    ensures Rest(d, Pow2(k)) < Pow2(k) && Rest(e, Pow2(k)) < Pow2(k)
  {
    var u, w := if d >= Pow2(k) then 1 else 0, if e >= Pow2(k) then 1 else 0;
    XorJoined(u, Rest(d, Pow2(k)), w, Rest(e, Pow2(k)), k);
    assert Xor(u, w) == if u != w then 1 else 0;
  }

  lemma XorByteOk(d: Byte, e: Byte)
    ensures Xor(d, e) == XorByte(d, e)
  {
    SmallPowers();
    var d6, e6 := Rest(d, 128), Rest(e, 128);
    XorTop(d, e, 7);
    var d5, e5 := Rest(d6, 64), Rest(e6, 64);
    XorTop(d6, e6, 6);
    var d4, e4 := Rest(d5, 32), Rest(e5, 32);
    XorTop(d5, e5, 5);
    var d3, e3 := Rest(d4, 16), Rest(e4, 16);
    XorTop(d4, e4, 4);
    var d2, e2 := Rest(d3, 8), Rest(e3, 8);
    XorTop(d3, e3, 3);
    var d1, e1 := Rest(d2, 4), Rest(e2, 4);
    XorTop(d2, e2, 2);
    XorTop(d1, e1, 1);
    XorTop(Rest(d1, 2), Rest(e1, 2), 0);
  }

  lemma SmallPowers()
    ensures Pow2(0) == 1 && Pow2(1) == 2 && Pow2(2) == 4 && Pow2(3) == 8 && Pow2(4) == 16 && Pow2(5) == 32
    ensures Pow2(6) == 64 && Pow2(7) == 128 && Pow2(8) == 0x100
  {}

  // The powers of two of the rotations.
  lemma Powers()
    ensures Pow2(4) == 0x10 && Pow2(6) == 0x40 && Pow2(7) == 0x80 && Pow2(8) == 0x100 && Pow2(11) == 0x800
    ensures Pow2(13) == 0x2000 && Pow2(14) == 0x4000 && Pow2(16) == 0x1_0000 && Pow2(18) == 0x4_0000
    ensures Pow2(19) == 0x8_0000 && Pow2(21) == 0x20_0000 && Pow2(24) == 0x100_0000 && Pow2(25) == 0x200_0000
    ensures Pow2(26) == 0x400_0000 && Pow2(28) == 0x1000_0000
  {
    assert Pow2(8) == 0x100;
    assert Pow2(16) == 0x1_0000;
    assert Pow2(24) == 0x100_0000;
  }

  // A word by its bytes, from the highest.
  datatype Quad = Quad(b3: Byte, b2: Byte, b1: Byte, b0: Byte)

  function Num(q: Quad): Word {
    Le(q.b0, q.b1, q.b2, q.b3)
  }

  predicate AreXor(d: Quad, r: Quad, q: Quad) {
    && XorByte(d.b0, r.b0) == q.b0 && XorByte(d.b1, r.b1) == q.b1
    && XorByte(d.b2, r.b2) == q.b2 && XorByte(d.b3, r.b3) == q.b3
  }

  lemma XorNextByte(d: Byte, x: nat, e: Byte, y: nat)
    ensures Xor(d + 0x100 * x, e + 0x100 * y) == Xor(d, e) + 0x100 * Xor(x, y)
  {
    SmallPowers();
    XorJoined(x, d, y, e, 8);
  }

  predicate BytesXor(d: Quad, r: Quad, q: Quad) {
    Xor(d.b0, r.b0) == q.b0 && Xor(d.b1, r.b1) == q.b1 && Xor(d.b2, r.b2) == q.b2 && Xor(d.b3, r.b3) == q.b3
  }

  lemma XorOfTwo(d: Quad, r: Quad, q: Quad)
    requires BytesXor(d, r, q)
    ensures Xor(d.b2 + 0x100 * d.b3, r.b2 + 0x100 * r.b3) == q.b2 + 0x100 * q.b3
  {
    XorNextByte(d.b2, d.b3, r.b2, r.b3);
  }

  lemma XorOfThree(d: Quad, r: Quad, q: Quad)
    requires BytesXor(d, r, q)
    ensures Xor(d.b1 + 0x100 * (d.b2 + 0x100 * d.b3), r.b1 + 0x100 * (r.b2 + 0x100 * r.b3)) ==
            q.b1 + 0x100 * (q.b2 + 0x100 * q.b3)
  {
    XorOfTwo(d, r, q);
    XorNextByte(d.b1, d.b2 + 0x100 * d.b3, r.b1, r.b2 + 0x100 * r.b3);
  }

  lemma XorOfFour(d: Quad, r: Quad, q: Quad)
    requires BytesXor(d, r, q)
    ensures Xor(Num(d), Num(r)) == Num(q)
  {
    XorOfThree(d, r, q);
    XorNextByte(d.b0, d.b1 + 0x100 * (d.b2 + 0x100 * d.b3), r.b0, r.b1 + 0x100 * (r.b2 + 0x100 * r.b3));
  }

  lemma XorBytes(d: Quad, r: Quad, q: Quad)
    requires AreXor(d, r, q)
    ensures BytesXor(d, r, q)
  {
    XorByteOk(d.b0, r.b0);
    XorByteOk(d.b1, r.b1);
    XorByteOk(d.b2, r.b2);
    XorByteOk(d.b3, r.b3);
  }

  lemma XorIs(d: Quad, r: Quad, q: Quad)
    requires AreXor(d, r, q)
    ensures Xor32(Num(d), Num(r)) == Num(q)
  {
    XorBytes(d, r, q);
    XorOfFour(d, r, q);
  }

  // ---------- one step ----------

  // r is z rotated by k: z is the k bits of v and the 32 - k bits of u.
  predicate AreRot(z: Quad, k: nat, u: nat, v: nat, r: Quad) {
    && 0 < k < 32 && u < Pow2(32 - k) && v < Pow2(k)
    && Num(z) == v * Pow2(32 - k) + u && Num(r) == u * Pow2(k) + v
  }

  lemma RotIs(z: Quad, k: nat, u: nat, v: nat, r: Quad)
    requires AreRot(z, k, u, v, r)
    ensures Rot(Num(z), k) == Num(r)
  {
    RotSwaps(Num(z), u, v, k);
  }

  predicate Reads(q: Quad, b3: Byte, b2: Byte, b1: Byte, b0: Byte) {
    q.b3 == b3 && q.b2 == b2 && q.b1 == b1 && q.b0 == b0
  }

  // One step of mix: u and v are the parts of z, r is z rotated, d is x - z.
  lemma MixStep(x: Quad, y: Quad, z: Quad, k: nat, u: nat, v: nat, r: Quad, d: Quad,
      q3: Byte, q2: Byte, q1: Byte, q0: Byte, s3: Byte, s2: Byte, s1: Byte, s0: Byte) returns (q: Quad, s: Quad)
    requires AreRot(z, k, u, v, r) && Minus(Num(x), Num(z)) == Num(d) && AreXor(d, r, Quad(q3, q2, q1, q0))
    requires Plus(Num(z), Num(y)) == Le(s0, s1, s2, s3)
    ensures MixStage(Num(x), Num(y), Num(z), k) == (Num(q), Num(s))
    ensures Reads(q, q3, q2, q1, q0) && Reads(s, s3, s2, s1, s0)
  {
    q, s := Quad(q3, q2, q1, q0), Quad(s3, s2, s1, s0);
    RotIs(z, k, u, v, r);
    XorIs(d, r, q);
  }

  // One step of final: u and v are the parts of z, r is z rotated, d is x ^ z.
  lemma FinalStep(x: Quad, z: Quad, k: nat, u: nat, v: nat, r: Quad, d: Quad,
      q3: Byte, q2: Byte, q1: Byte, q0: Byte) returns (q: Quad)
    requires AreRot(z, k, u, v, r) && AreXor(x, z, d) && Minus(Num(d), Num(r)) == Le(q0, q1, q2, q3)
    ensures FinalStage(Num(x), Num(z), k) == Num(q) && Reads(q, q3, q2, q1, q0)
  {
    q := Quad(q3, q2, q1, q0);
    RotIs(z, k, u, v, r);
    XorIs(x, z, d);
  }

  function Nums(a: Quad, b: Quad, c: Quad): Triple {
    Triple(Num(a), Num(b), Num(c))
  }

  // ---------- the vectors ----------

  lemma First1(x: Quad, y: Quad, z: Quad) returns (q: Quad, s: Quad)
    requires Reads(x, 0x51, 0x23, 0x2e, 0x53) && Reads(y, 0x4e, 0x11, 0x32, 0x2d) && Reads(z, 0x3f, 0xce, 0x24, 0x7f)
    ensures MixStage(Num(x), Num(y), Num(z), 4) == (Num(q), Num(s))
    ensures Reads(q, 0xed, 0xb7, 0x4e, 0x27) && Reads(s, 0x8d, 0xdf, 0x56, 0xac)
  {
    Powers();
    q, s := MixStep(x, y, z, 4, 0xfce247f, 0x3, Quad(0xfc, 0xe2, 0x47, 0xf3), Quad(0x11, 0x55, 0x09, 0xd4),
      0xed, 0xb7, 0x4e, 0x27, 0x8d, 0xdf, 0x56, 0xac);
  }

  lemma First2(x: Quad, y: Quad, z: Quad) returns (q: Quad, s: Quad)
    requires Reads(x, 0x4e, 0x11, 0x32, 0x2d) && Reads(y, 0x8d, 0xdf, 0x56, 0xac) && Reads(z, 0xed, 0xb7, 0x4e, 0x27)
    ensures MixStage(Num(x), Num(y), Num(z), 6) == (Num(q), Num(s))
    ensures Reads(q, 0x0d, 0x8a, 0x6d, 0xfd) && Reads(s, 0x7b, 0x96, 0xa4, 0xd3)
  {
    Powers();
    q, s := MixStep(x, y, z, 6, 0x1b74e27, 0x3b, Quad(0x6d, 0xd3, 0x89, 0xfb), Quad(0x60, 0x59, 0xe4, 0x06),
      0x0d, 0x8a, 0x6d, 0xfd, 0x7b, 0x96, 0xa4, 0xd3);
  }

  lemma First3(x: Quad, y: Quad, z: Quad) returns (q: Quad, s: Quad)
    requires Reads(x, 0x8d, 0xdf, 0x56, 0xac) && Reads(y, 0x7b, 0x96, 0xa4, 0xd3) && Reads(z, 0x0d, 0x8a, 0x6d, 0xfd)
    ensures MixStage(Num(x), Num(y), Num(z), 8) == (Num(q), Num(s))
    ensures Reads(q, 0x0a, 0x39, 0x15, 0xa2) && Reads(s, 0x89, 0x21, 0x12, 0xd0)
  {
    Powers();
    q, s := MixStep(x, y, z, 8, 0x8a6dfd, 0xd, Quad(0x8a, 0x6d, 0xfd, 0x0d), Quad(0x80, 0x54, 0xe8, 0xaf),
      0x0a, 0x39, 0x15, 0xa2, 0x89, 0x21, 0x12, 0xd0);
  }

  lemma First4(x: Quad, y: Quad, z: Quad) returns (q: Quad, s: Quad)
    requires Reads(x, 0x7b, 0x96, 0xa4, 0xd3) && Reads(y, 0x89, 0x21, 0x12, 0xd0) && Reads(z, 0x0a, 0x39, 0x15, 0xa2)
    ensures MixStage(Num(x), Num(y), Num(z), 16) == (Num(q), Num(s))
    ensures Reads(q, 0x64, 0xff, 0x85, 0x08) && Reads(s, 0x93, 0x5a, 0x28, 0x72)
  {
    Powers();
    q, s := MixStep(x, y, z, 16, 0x15a2, 0xa39, Quad(0x15, 0xa2, 0x0a, 0x39), Quad(0x71, 0x5d, 0x8f, 0x31),
      0x64, 0xff, 0x85, 0x08, 0x93, 0x5a, 0x28, 0x72);
  }

  lemma First5(x: Quad, y: Quad, z: Quad) returns (q: Quad, s: Quad)
    requires Reads(x, 0x89, 0x21, 0x12, 0xd0) && Reads(y, 0x93, 0x5a, 0x28, 0x72) && Reads(z, 0x64, 0xff, 0x85, 0x08)
    ensures MixStage(Num(x), Num(y), Num(z), 19) == (Num(q), Num(s))
    ensures Reads(q, 0x0c, 0x62, 0xaa, 0x34) && Reads(s, 0xf8, 0x59, 0xad, 0x7a)
  {
    Powers();
    q, s := MixStep(x, y, z, 19, 0x508, 0x327fc, Quad(0x28, 0x43, 0x27, 0xfc), Quad(0x24, 0x21, 0x8d, 0xc8),
      0x0c, 0x62, 0xaa, 0x34, 0xf8, 0x59, 0xad, 0x7a);
  }

  lemma First6(x: Quad, y: Quad, z: Quad) returns (q: Quad, s: Quad)
    requires Reads(x, 0x93, 0x5a, 0x28, 0x72) && Reads(y, 0xf8, 0x59, 0xad, 0x7a) && Reads(z, 0x0c, 0x62, 0xaa, 0x34)
    ensures MixStage(Num(x), Num(y), Num(z), 4) == (Num(q), Num(s))
    ensures Reads(q, 0x40, 0xdd, 0xdd, 0x7e) && Reads(s, 0x04, 0xbc, 0x57, 0xae)
  {
    Powers();
    q, s := MixStep(x, y, z, 4, 0xc62aa34, 0x0, Quad(0xc6, 0x2a, 0xa3, 0x40), Quad(0x86, 0xf7, 0x7e, 0x3e),
      0x40, 0xdd, 0xdd, 0x7e, 0x04, 0xbc, 0x57, 0xae);
  }

  lemma FirstBlock(a: Quad, b: Quad, c: Quad) returns (x: Quad, y: Quad, z: Quad)
    requires Reads(a, 0x51, 0x23, 0x2e, 0x53) && Reads(b, 0x4e, 0x11, 0x32, 0x2d) && Reads(c, 0x3f, 0xce, 0x24, 0x7f)
    ensures Mix(Nums(a, b, c)) == Nums(x, y, z)
    ensures Reads(x, 0xf8, 0x59, 0xad, 0x7a) && Reads(y, 0x04, 0xbc, 0x57, 0xae) && Reads(z, 0x40, 0xdd, 0xdd, 0x7e)
  {
    var a1, c1 := First1(a, b, c);
    var b1, a2 := First2(b, c1, a1);
    var c2, b2 := First3(c1, a2, b1);
    var a3, c3 := First4(a2, b2, c2);
    var b3, a4 := First5(b2, c3, a3);
    var c4, b4 := First6(c3, a4, b3);
    x, y, z := a4, b4, c4;
  }

  lemma Second1(x: Quad, y: Quad, z: Quad) returns (q: Quad, s: Quad)
    requires Reads(x, 0x6b, 0x7a, 0x11, 0xe8) && Reads(y, 0x73, 0x21, 0xce, 0x13) && Reads(z, 0xa2, 0x43, 0x56, 0x9e)
    ensures MixStage(Num(x), Num(y), Num(z), 4) == (Num(q), Num(s))
    ensures Reads(q, 0xed, 0x03, 0xd2, 0xa0) && Reads(s, 0x15, 0x65, 0x24, 0xb1)
  {
    Powers();
    q, s := MixStep(x, y, z, 4, 0x243569e, 0xa, Quad(0x24, 0x35, 0x69, 0xea), Quad(0xc9, 0x36, 0xbb, 0x4a),
      0xed, 0x03, 0xd2, 0xa0, 0x15, 0x65, 0x24, 0xb1);
  }

  lemma Second2(x: Quad, y: Quad, z: Quad) returns (q: Quad, s: Quad)
    requires Reads(x, 0x73, 0x21, 0xce, 0x13) && Reads(y, 0x15, 0x65, 0x24, 0xb1) && Reads(z, 0xed, 0x03, 0xd2, 0xa0)
    ensures MixStage(Num(x), Num(y), Num(z), 6) == (Num(q), Num(s))
    ensures Reads(q, 0xc6, 0xe9, 0x53, 0x48) && Reads(s, 0x02, 0x68, 0xf7, 0x51)
  {
    Powers();
    q, s := MixStep(x, y, z, 6, 0x103d2a0, 0x3b, Quad(0x40, 0xf4, 0xa8, 0x3b), Quad(0x86, 0x1d, 0xfb, 0x73),
      0xc6, 0xe9, 0x53, 0x48, 0x02, 0x68, 0xf7, 0x51);
  }

  lemma Second3(x: Quad, y: Quad, z: Quad) returns (q: Quad, s: Quad)
    requires Reads(x, 0x15, 0x65, 0x24, 0xb1) && Reads(y, 0x02, 0x68, 0xf7, 0x51) && Reads(z, 0xc6, 0xe9, 0x53, 0x48)
    ensures MixStage(Num(x), Num(y), Num(z), 8) == (Num(q), Num(s))
    ensures Reads(q, 0xa7, 0x28, 0x99, 0xaf) && Reads(s, 0xc9, 0x52, 0x4a, 0x99)
  {
    Powers();
    q, s := MixStep(x, y, z, 8, 0xe95348, 0xc6, Quad(0xe9, 0x53, 0x48, 0xc6), Quad(0x4e, 0x7b, 0xd1, 0x69),
      0xa7, 0x28, 0x99, 0xaf, 0xc9, 0x52, 0x4a, 0x99);
  }

  lemma Second4(x: Quad, y: Quad, z: Quad) returns (q: Quad, s: Quad)
    requires Reads(x, 0x02, 0x68, 0xf7, 0x51) && Reads(y, 0xc9, 0x52, 0x4a, 0x99) && Reads(z, 0xa7, 0x28, 0x99, 0xaf)
    ensures MixStage(Num(x), Num(y), Num(z), 16) == (Num(q), Num(s))
    ensures Reads(q, 0xc2, 0xef, 0xfa, 0x8a) && Reads(s, 0x70, 0x7a, 0xe4, 0x48)
  {
    Powers();
    q, s := MixStep(x, y, z, 16, 0x99af, 0xa728, Quad(0x99, 0xaf, 0xa7, 0x28), Quad(0x5b, 0x40, 0x5d, 0xa2),
      0xc2, 0xef, 0xfa, 0x8a, 0x70, 0x7a, 0xe4, 0x48);
  }

  lemma Second5(x: Quad, y: Quad, z: Quad) returns (q: Quad, s: Quad)
    requires Reads(x, 0xc9, 0x52, 0x4a, 0x99) && Reads(y, 0x70, 0x7a, 0xe4, 0x48) && Reads(z, 0xc2, 0xef, 0xfa, 0x8a)
    ensures MixStage(Num(x), Num(y), Num(z), 19) == (Num(q), Num(s))
    ensures Reads(q, 0xd2, 0x34, 0x47, 0x70) && Reads(s, 0x33, 0x6a, 0xde, 0xd2)
  {
    Powers();
    q, s := MixStep(x, y, z, 19, 0x1a8a, 0x6177f, Quad(0xd4, 0x56, 0x17, 0x7f), Quad(0x06, 0x62, 0x50, 0x0f),
      0xd2, 0x34, 0x47, 0x70, 0x33, 0x6a, 0xde, 0xd2);
  }

  lemma Second6(x: Quad, y: Quad, z: Quad) returns (q: Quad, s: Quad)
    requires Reads(x, 0x70, 0x7a, 0xe4, 0x48) && Reads(y, 0x33, 0x6a, 0xde, 0xd2) && Reads(z, 0xd2, 0x34, 0x47, 0x70)
    ensures MixStage(Num(x), Num(y), Num(z), 4) == (Num(q), Num(s))
    ensures Reads(q, 0xbd, 0x02, 0xeb, 0xd5) && Reads(s, 0x05, 0x9f, 0x26, 0x42)
  {
    Powers();
    q, s := MixStep(x, y, z, 4, 0x2344770, 0xd, Quad(0x23, 0x44, 0x77, 0x0d), Quad(0x9e, 0x46, 0x9c, 0xd8),
      0xbd, 0x02, 0xeb, 0xd5, 0x05, 0x9f, 0x26, 0x42);
  }

  lemma SecondBlock(a: Quad, b: Quad, c: Quad) returns (x: Quad, y: Quad, z: Quad)
    requires Reads(a, 0x6b, 0x7a, 0x11, 0xe8) && Reads(b, 0x73, 0x21, 0xce, 0x13) && Reads(c, 0xa2, 0x43, 0x56, 0x9e)
    ensures Mix(Nums(a, b, c)) == Nums(x, y, z)
    ensures Reads(x, 0x33, 0x6a, 0xde, 0xd2) && Reads(y, 0x05, 0x9f, 0x26, 0x42) && Reads(z, 0xbd, 0x02, 0xeb, 0xd5)
  {
    var a1, c1 := Second1(a, b, c);
    var b1, a2 := Second2(b, c1, a1);
    var c2, b2 := Second3(c1, a2, b1);
    var a3, c3 := Second4(a2, b2, c2);
    var b3, a4 := Second5(b2, c3, a3);
    var c4, b4 := Second6(c3, a4, b3);
    x, y, z := a4, b4, c4;
  }

  lemma Last1(x: Quad, z: Quad) returns (q: Quad)
    requires Reads(x, 0xbd, 0x02, 0xeb, 0xd5) && Reads(z, 0x05, 0x9f, 0x95, 0xa9)
    ensures FinalStage(Num(x), Num(z), 14) == Num(q) && Reads(q, 0xd3, 0x33, 0x3d, 0x15)
  {
    Powers();
    q := FinalStep(x, z, 14, 0x395a9, 0x167, Quad(0xe5, 0x6a, 0x41, 0x67), Quad(0xb8, 0x9d, 0x7e, 0x7c),
      0xd3, 0x33, 0x3d, 0x15);
  }

  lemma Last2(x: Quad, z: Quad) returns (q: Quad)
    requires Reads(x, 0x94, 0x8b, 0x52, 0x44) && Reads(z, 0xd3, 0x33, 0x3d, 0x15)
    ensures FinalStage(Num(x), Num(z), 11) == Num(q) && Reads(q, 0xad, 0xcf, 0xc0, 0xb8)
  {
    Powers();
    q := FinalStep(x, z, 11, 0x133d15, 0x699, Quad(0x99, 0xe8, 0xae, 0x99), Quad(0x47, 0xb8, 0x6f, 0x51),
      0xad, 0xcf, 0xc0, 0xb8);
  }

  lemma Last3(x: Quad, z: Quad) returns (q: Quad)
    requires Reads(x, 0x05, 0x9f, 0x95, 0xa9) && Reads(z, 0xad, 0xcf, 0xc0, 0xb8)
    ensures FinalStage(Num(x), Num(z), 25) == Num(q) && Reads(q, 0x36, 0xf4, 0xb5, 0x90)
  {
    Powers();
    q := FinalStep(x, z, 25, 0x38, 0x15b9f81, Quad(0x71, 0x5b, 0x9f, 0x81), Quad(0xa8, 0x50, 0x55, 0x11),
      0x36, 0xf4, 0xb5, 0x90);
  }

  lemma Last4(x: Quad, z: Quad) returns (q: Quad)
    requires Reads(x, 0xd3, 0x33, 0x3d, 0x15) && Reads(z, 0x36, 0xf4, 0xb5, 0x90)
    ensures FinalStage(Num(x), Num(z), 16) == Num(q) && Reads(q, 0x30, 0x37, 0x51, 0x91)
  {
    Powers();
    q := FinalStep(x, z, 16, 0xb590, 0x36f4, Quad(0xb5, 0x90, 0x36, 0xf4), Quad(0xe5, 0xc7, 0x88, 0x85),
      0x30, 0x37, 0x51, 0x91);
  }

  lemma Last5(x: Quad, z: Quad) returns (q: Quad)
    requires Reads(x, 0xad, 0xcf, 0xc0, 0xb8) && Reads(z, 0x30, 0x37, 0x51, 0x91)
    ensures FinalStage(Num(x), Num(z), 4) == Num(q) && Reads(q, 0x9a, 0x83, 0x78, 0x16)
  {
    Powers();
    q := FinalStep(x, z, 4, 0x375191, 0x3, Quad(0x03, 0x75, 0x19, 0x13), Quad(0x9d, 0xf8, 0x91, 0x29),
      0x9a, 0x83, 0x78, 0x16);
  }

  lemma Last6(x: Quad, z: Quad) returns (q: Quad)
    requires Reads(x, 0x36, 0xf4, 0xb5, 0x90) && Reads(z, 0x9a, 0x83, 0x78, 0x16)
    ensures FinalStage(Num(x), Num(z), 14) == Num(q) && Reads(q, 0xce, 0x72, 0x26, 0xe6)
  {
    Powers();
    q := FinalStep(x, z, 14, 0x37816, 0x26a0, Quad(0xde, 0x05, 0xa6, 0xa0), Quad(0xac, 0x77, 0xcd, 0x86),
      0xce, 0x72, 0x26, 0xe6);
  }

  lemma Last7(x: Quad, z: Quad) returns (q: Quad)
    requires Reads(x, 0x30, 0x37, 0x51, 0x91) && Reads(z, 0xce, 0x72, 0x26, 0xe6)
    ensures FinalStage(Num(x), Num(z), 24) == Num(q) && Reads(q, 0x17, 0x77, 0x05, 0x51)
  {
    Powers();
    q := FinalStep(x, z, 24, 0xe6, 0xce7226, Quad(0xe6, 0xce, 0x72, 0x26), Quad(0xfe, 0x45, 0x77, 0x77),
      0x17, 0x77, 0x05, 0x51);
  }

  lemma LastBlock(a: Quad, b: Quad, c: Quad) returns (x: Quad, y: Quad, z: Quad)
    requires Reads(a, 0x94, 0x8b, 0x52, 0x44) && Reads(b, 0x05, 0x9f, 0x95, 0xa9) && Reads(c, 0xbd, 0x02, 0xeb, 0xd5)
    ensures Final(Nums(a, b, c)) == Nums(x, y, z)
    ensures Reads(x, 0x9a, 0x83, 0x78, 0x16) && Reads(y, 0xce, 0x72, 0x26, 0xe6) && Reads(z, 0x17, 0x77, 0x05, 0x51)
  {
    var c1 := Last1(c, b);
    var a1 := Last2(a, c1);
    var b1 := Last3(b, a1);
    var c2 := Last4(c1, b1);
    var a2 := Last5(a1, c2);
    var b2 := Last6(b1, a2);
    var c3 := Last7(c2, b2);
    x, y, z := a2, b2, c3;
  }

  predicate Spells(key: Bytes, text: string) {
    |key| == |text| && forall i :: 0 <= i < |key| ==> key[i] == text[i] as int
  }

  // The words of the key.
  predicate ReadsKey(key: Bytes) {
    && |key| == 30
    && WordAt(key, 0) == 0x72756f46 && WordAt(key, 4) == 0x6f637320 && WordAt(key, 8) == 0x61206572
    && WordAt(key, 12) == 0x7320646e && WordAt(key, 16) == 0x6e657665 && WordAt(key, 20) == 0x61657920
    && WordAt(key, 24) == 0x61207372 && WordAt(key, 28) == 0x00006f67
  }

  lemma SpellsKey(key: Bytes)
    requires Spells(key, "Four score and seven years ago")
    ensures ReadsKey(key)
  {
    var text := "Four score and seven years ago";
    assert text[0] as int == 0x46 && text[1] as int == 0x6f && text[2] as int == 0x75;
    assert text[3] as int == 0x72 && text[4] as int == 0x20 && text[5] as int == 0x73;
    assert text[6] as int == 0x63 && text[7] as int == 0x6f && text[8] as int == 0x72;
    assert text[9] as int == 0x65 && text[10] as int == 0x20 && text[11] as int == 0x61;
    assert text[12] as int == 0x6e && text[13] as int == 0x64 && text[14] as int == 0x20;
    assert text[15] as int == 0x73 && text[16] as int == 0x65 && text[17] as int == 0x76;
    assert text[18] as int == 0x65 && text[19] as int == 0x6e && text[20] as int == 0x20;
    assert text[21] as int == 0x79 && text[22] as int == 0x65 && text[23] as int == 0x61;
    assert text[24] as int == 0x72 && text[25] as int == 0x73 && text[26] as int == 0x20;
    assert text[27] as int == 0x61 && text[28] as int == 0x67 && text[29] as int == 0x6f;
  }

  lemma FirstAdd(key: Bytes) returns (a: Quad, b: Quad, c: Quad)
    requires ReadsKey(key)
    ensures AddBlock(Start(30, 0, 0), key[..12]) == Nums(a, b, c)
    ensures Reads(a, 0x51, 0x23, 0x2e, 0x53) && Reads(b, 0x4e, 0x11, 0x32, 0x2d) && Reads(c, 0x3f, 0xce, 0x24, 0x7f)
  {
    a, b, c := Quad(0x51, 0x23, 0x2e, 0x53), Quad(0x4e, 0x11, 0x32, 0x2d), Quad(0x3f, 0xce, 0x24, 0x7f);
  }

  lemma SecondAdd(key: Bytes, x: Quad, y: Quad, z: Quad) returns (a: Quad, b: Quad, c: Quad)
    requires ReadsKey(key)
    requires Reads(x, 0xf8, 0x59, 0xad, 0x7a) && Reads(y, 0x04, 0xbc, 0x57, 0xae) && Reads(z, 0x40, 0xdd, 0xdd, 0x7e)
    ensures AddBlock(Nums(x, y, z), key[12..][..12]) == Nums(a, b, c)
    ensures Reads(a, 0x6b, 0x7a, 0x11, 0xe8) && Reads(b, 0x73, 0x21, 0xce, 0x13) && Reads(c, 0xa2, 0x43, 0x56, 0x9e)
  {
    a, b, c := Quad(0x6b, 0x7a, 0x11, 0xe8), Quad(0x73, 0x21, 0xce, 0x13), Quad(0xa2, 0x43, 0x56, 0x9e);
  }

  lemma LastAdd(key: Bytes, x: Quad, y: Quad, z: Quad) returns (a: Quad, b: Quad, c: Quad)
    requires ReadsKey(key)
    requires Reads(x, 0x33, 0x6a, 0xde, 0xd2) && Reads(y, 0x05, 0x9f, 0x26, 0x42) && Reads(z, 0xbd, 0x02, 0xeb, 0xd5)
    ensures AddBlock(Nums(x, y, z), key[24..]) == Nums(a, b, c)
    ensures Reads(a, 0x94, 0x8b, 0x52, 0x44) && Reads(b, 0x05, 0x9f, 0x95, 0xa9) && Reads(c, 0xbd, 0x02, 0xeb, 0xd5)
  {
    a, b, c := Quad(0x94, 0x8b, 0x52, 0x44), Quad(0x05, 0x9f, 0x95, 0xa9), Quad(0xbd, 0x02, 0xeb, 0xd5);
  }

  lemma InBlocks(key: Bytes, t: Triple)
    requires |key| == 30
    ensures Absorb(t, key) == Final(AddBlock(Mix(AddBlock(Mix(AddBlock(t, key[..12])), key[12..][..12])), key[24..]))
  {
    var t1 := Mix(AddBlock(t, key[..12]));
    assert Absorb(t, key) == Absorb(t1, key[12..]);
    assert key[12..][12..] == key[24..];
  }

  /** hashlittle2 of "Four score and seven years ago" with seeds 0 and 0 gives 17770551 and ce7226e6. */
  lemma FourScoreVector(key: Bytes)
    requires Spells(key, "Four score and seven years ago")
    ensures HashState(key, 0, 0).c == 0x17770551 && HashState(key, 0, 0).b == 0xce7226e6
  {
    SpellsKey(key);
    InBlocks(key, Start(30, 0, 0));
    var a, b, c := FirstAdd(key);
    a, b, c := FirstBlock(a, b, c);
    a, b, c := SecondAdd(key, a, b, c);
    a, b, c := SecondBlock(a, b, c);
    a, b, c := LastAdd(key, a, b, c);
    a, b, c := LastBlock(a, b, c);
  }

  /** The empty key: deadbeef and deadbeef; with a second seed of deadbeef, bd5b7dde and deadbeef; with both, 9c093ccd
      and bd5b7dde. */
  lemma EmptyVectors()
    ensures HashState([], 0, 0).c == 0xdeadbeef && HashState([], 0, 0).b == 0xdeadbeef
    ensures HashState([], 0, 0xdeadbeef).c == 0xbd5b7dde && HashState([], 0, 0xdeadbeef).b == 0xdeadbeef
    ensures HashState([], 0xdeadbeef, 0xdeadbeef).c == 0x9c093ccd
    ensures HashState([], 0xdeadbeef, 0xdeadbeef).b == 0xbd5b7dde
  {}
}
