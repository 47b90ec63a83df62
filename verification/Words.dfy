/**
 Machine words as natural numbers: powers of two, single bits, bitwise operations,
 and the power-of-two rounding that sizes every ring and hash table of the runtime.
 */
module Words {

  function Pow2(k: nat): (p: nat)
    ensures p > 0
  {
    if k == 0 then 1 else 2 * Pow2(k - 1)
  }

  const WORD: nat := 0x1_0000_0000

  // The value of a machine integer in an int32, which keeps its low 32 bits.
  function Wrap32(x: int): int {
    (x + 0x8000_0000) % WORD - 0x8000_0000
  }

  // Bit k of x.
  predicate Bit(x: nat, k: nat) {
    if k == 0 then x % 2 == 1 else Bit(x / 2, k - 1)
  }

  // x | y
  function Or(x: nat, y: nat): (r: nat)
  {
    if x == 0 then y
    else if y == 0 then x
    else 2 * Or(x / 2, y / 2) + (if x % 2 == 1 || y % 2 == 1 then 1 else 0)
  }

  // x ^ y
  function Xor(x: nat, y: nat): (r: nat)
    decreases x + y
  {
    if x == 0 then y
    else if y == 0 then x
    else 2 * Xor(x / 2, y / 2) + (if x % 2 != y % 2 then 1 else 0)
  }

  // x & y
  function And(x: nat, y: nat): (r: nat)
  {
    if x == 0 || y == 0 then 0
    else 2 * And(x / 2, y / 2) + (if x % 2 == 1 && y % 2 == 1 then 1 else 0)
  }

  // x & ~y
  function AndNot(x: nat, y: nat): (r: nat)
  {
    if x == 0 then 0
    else 2 * AndNot(x / 2, y / 2) + (if x % 2 == 1 && y % 2 == 0 then 1 else 0)
  }

  // x >> k
  function Shr(x: nat, k: nat): (r: nat) {
    if k == 0 then x else Shr(x / 2, k - 1)
  }

  lemma XorHalves(x: nat, y: nat)
    ensures Xor(x, y) / 2 == Xor(x / 2, y / 2)
    ensures Xor(x, y) % 2 == if x % 2 != y % 2 then 1 else 0
  {}

  lemma {:induction false} XorTwice(x: nat, y: nat)
    ensures Xor(Xor(x, y), y) == x
    decreases x + y
  {
    if x + y > 0 {
      XorHalves(x, y);
      XorHalves(Xor(x, y), y);
      XorTwice(x / 2, y / 2);
    }
  }

  lemma {:induction false} XorOrBound(x: nat, y: nat, k: nat)
    requires x < Pow2(k) && y < Pow2(k)
    ensures Xor(x, y) < Pow2(k) && Or(x, y) < Pow2(k)
    decreases k
  {
    if x != 0 && y != 0 { XorOrBound(x / 2, y / 2, k - 1); }
  }

  lemma {:induction false} BitZero(k: nat)
    ensures !Bit(0, k)
  {
    if k > 0 { BitZero(k - 1); }
  }

  lemma {:induction false} BitOr(x: nat, y: nat, k: nat)
    ensures Bit(Or(x, y), k) <==> Bit(x, k) || Bit(y, k)
    decreases k
  {
    BitZero(k);
    if x != 0 && y != 0 && k > 0 { BitOr(x / 2, y / 2, k - 1); }
  }

  lemma {:induction false} BitXor(x: nat, y: nat, k: nat)
    ensures Bit(Xor(x, y), k) <==> Bit(x, k) != Bit(y, k)
    decreases k
  {
    XorHalves(x, y);
    if k > 0 { BitXor(x / 2, y / 2, k - 1); }
  }

  lemma {:induction false} BitAndNot(x: nat, y: nat, k: nat)
    ensures Bit(AndNot(x, y), k) <==> Bit(x, k) && !Bit(y, k)
    decreases k
  {
    BitZero(k);
    if x != 0 && k > 0 { BitAndNot(x / 2, y / 2, k - 1); }
  }

  lemma {:induction false} BitShr(x: nat, m: nat, k: nat)
    ensures Bit(Shr(x, m), k) <==> Bit(x, m + k)
    decreases m
  {
    if m > 0 { BitShr(x / 2, m - 1, k); }
  }

  lemma {:induction false} BitPow2(j: nat, k: nat)
    ensures Bit(Pow2(j), k) <==> j == k
    decreases k
  {
    if k == 0 {
    } else if j == 0 {
      BitZero(k - 1);
    } else {
      BitPow2(j - 1, k - 1);
    }
  }

  lemma {:induction false} Pow2Monotone(j: nat, k: nat)
    requires j <= k
    ensures Pow2(j) <= Pow2(k)
    decreases k
  {
    if j < k { Pow2Monotone(j, k - 1); }
  }

  lemma {:induction false} Pow2Add(j: nat, k: nat)
    ensures Pow2(j + k) == Pow2(j) * Pow2(k)
  {
    if j > 0 {
      Pow2Add(j - 1, k);
      MulDouble(Pow2(j - 1), Pow2(k));
    }
  }

  lemma MulDouble(a: int, b: int)
    ensures (2 * a) * b == 2 * (a * b) && a * (2 * b) == 2 * (a * b)
  {}

  // Division by 2p from the division of the half by p.
  lemma ModDouble(x: nat, p: nat)
    requires p > 0
    ensures x % (2 * p) == 2 * ((x / 2) % p) + x % 2
  {
    var a, b := (x / 2) / p, (x / 2) % p;
    assert x / 2 == p * a + b;
    assert x == (2 * p) * a + (2 * b + x % 2);
    DivisionUnique(x, 2 * p, a, 2 * b + x % 2);
  }

  lemma DivisionUnique(x: nat, m: nat, q: nat, r: nat)
    requires r < m && x == m * q + r
    ensures x % m == r
  {
    var d := x / m - q;
    assert x == m * (x / m) + x % m;
    assert m * (x / m) == m * q + m * d;
    assert m * d == r - x % m;
    ScaleBound(m, d);
  }

  lemma ScaleBound(m: int, d: int)
    requires m > 0
    ensures d >= 1 ==> m * d >= m
    ensures d <= -1 ==> m * d <= 0 - m
  {}

  // u shifted up by k and v below it, halved.
  lemma HalveJoined(u: nat, v: nat, k: nat)
    requires k > 0
    ensures (u * Pow2(k) + v) / 2 == u * Pow2(k - 1) + v / 2 && (u * Pow2(k) + v) % 2 == v % 2
  {
    MulDouble(u, Pow2(k - 1));
  }

  lemma {:induction false} ShrJoined(u: nat, v: nat, k: nat)
    requires v < Pow2(k)
    ensures Shr(u * Pow2(k) + v, k) == u
    decreases k
  {
    if k > 0 {
      HalveJoined(u, v, k);
      ShrJoined(u, v / 2, k - 1);
    }
  }

  lemma {:induction false} OrJoined(u: nat, v: nat, k: nat)
    requires v < Pow2(k)
    ensures Or(u * Pow2(k), v) == u * Pow2(k) + v
    decreases k
  {
    if k > 0 {
      HalveJoined(u, 0, k);
      HalveJoined(u, v, k);
      OrJoined(u, v / 2, k - 1);
    }
  }

  lemma {:induction false} XorJoined(u: nat, v: nat, w: nat, z: nat, k: nat)
    requires v < Pow2(k) && z < Pow2(k)
    ensures Xor(u * Pow2(k) + v, w * Pow2(k) + z) == Xor(u, w) * Pow2(k) + Xor(v, z)
    decreases k
  {
    if k > 0 {
      XorHalves(u * Pow2(k) + v, w * Pow2(k) + z);
      XorHalves(v, z);
      HalveJoined(u, v, k);
      HalveJoined(w, z, k);
      XorJoined(u, v / 2, w, z / 2, k - 1);
      HalveJoined(Xor(u, w), Xor(v, z), k);
    }
  }

  lemma {:induction false} BitJoined(u: nat, v: nat, k: nat, i: nat)
    requires v < Pow2(k)
    ensures Bit(u * Pow2(k) + v, i) <==> if i < k then Bit(v, i) else Bit(u, i - k)
    decreases k
  {
    if k > 0 {
      HalveJoined(u, v, k);
      if i > 0 { BitJoined(u, v / 2, k - 1, i - 1); }
    }
  }

  /** Masking with a power of two less one is the remainder by that power of two. */
  lemma {:induction false} AndMask(x: nat, k: nat)
    ensures And(x, Pow2(k) - 1) == x % Pow2(k)
    decreases k
  {
    if k > 0 {
      var p := Pow2(k - 1);
      AndMask(x / 2, k - 1);
      ModDouble(x, p);
      assert (2 * p - 1) / 2 == p - 1 && (2 * p - 1) % 2 == 1;
    }
  }

  // The number of significant bits.
  function Width(x: nat): (k: nat)
    ensures x < Pow2(k)
    ensures x > 0 ==> k > 0 && Pow2(k - 1) <= x
  {
    if x == 0 then 0 else 1 + Width(x / 2)
  }

  // Widths order numbers: x has at most k significant bits exactly when x < 2^k.
  lemma WidthBound(x: nat, k: nat)
    ensures Width(x) <= k <==> x < Pow2(k)
  {
    if Width(x) <= k { Pow2Monotone(Width(x), k); }
    else { Pow2Monotone(k, Width(x) - 1); }
  }

  lemma {:induction false} TopBit(x: nat)
    requires x > 0
    ensures Bit(x, Width(x) - 1)
  {
    if x > 1 { TopBit(x / 2); }
  }

  lemma {:induction false} NoBitAbove(x: nat, k: nat)
    requires Width(x) <= k
    ensures !Bit(x, k)
    decreases k
  {
    if k > 0 { NoBitAbove(x / 2, k - 1); }
  }

  // A k-bit number with all k bits set is 2^k - 1.
  lemma {:induction false} AllOnes(x: nat, k: nat)
    requires forall i: nat :: Bit(x, i) <==> i < k
    ensures x == Pow2(k) - 1
    decreases k
  {
    if k == 0 {
      if x > 0 { TopBit(x); }
    } else {
      assert Bit(x, 0);
      forall i: nat ensures Bit(x / 2, i) <==> i < k - 1 {
        assert Bit(x, i + 1) <==> Bit(x / 2, i);
      }
      AllOnes(x / 2, k - 1);
    }
  }

  // The top m of the k significant bits of v are set.
  ghost predicate TopOnes(v: nat, k: nat, m: nat) {
    forall i: nat :: (Bit(v, i) ==> i < k) && (k - m <= i < k ==> Bit(v, i))
  }

  // One smearing step doubles the run of ones at the top.
  lemma Smear(v: nat, k: nat, m: nat)
    requires TopOnes(v, k, m)
    ensures TopOnes(Or(v, Shr(v, m)), k, 2 * m)
  {
    var r := Or(v, Shr(v, m));
    forall i: nat
      ensures (Bit(r, i) ==> i < k) && (k - 2 * m <= i < k ==> Bit(r, i))
    {
      BitOr(v, Shr(v, m), i);
      BitShr(v, m, i);
      assert Bit(r, i) <==> Bit(v, i) || Bit(v, m + i);
    }
  }

  // The or-and-shift steps by m, 2m, 4m, ... up to 16.
  function Smeared(v: nat, m: nat): (r: nat)
    requires 0 < m
    decreases 32 - m
  {
    if m > 16 then v else Smeared(Or(v, Shr(v, m)), 2 * m)
  }

  // round_up_pow_of_two on a 32-bit unsigned variable.
  function RoundUpPow2(x: nat): (r: nat)
    requires x < WORD
  {
    (Smeared(if x == 0 then WORD - 1 else x - 1, 1) + 1) % WORD
  }

  lemma {:induction false} SmearedSpec(v: nat, k: nat, m: nat)
    requires k <= 32 && m in {1, 2, 4, 8, 16, 32} && TopOnes(v, k, m)
    ensures Smeared(v, m) == Pow2(k) - 1
    decreases 32 - m
  {
    if m > 16 {
      AllOnes(v, k);
    } else {
      Smear(v, k, m);
      SmearedSpec(Or(v, Shr(v, m)), k, 2 * m);
    }
  }

  lemma StartTopOnes(v: nat)
    ensures TopOnes(v, Width(v), 1)
  {
    forall i: nat ensures Bit(v, i) ==> i < Width(v) {
      if i >= Width(v) { NoBitAbove(v, i); }
    }
    if v > 0 { TopBit(v); }
  }

  lemma Pow2Of32()
    ensures Pow2(31) == 0x8000_0000 && Pow2(32) == WORD
  {
    assert Pow2(8) == 0x100;
    assert Pow2(16) == 0x1_0000;
    assert Pow2(24) == 0x100_0000;
  }

  lemma WrapAtWord(p: nat)
    requires p <= WORD
    ensures p % WORD == if p == WORD then 0 else p
  {}

  lemma RoundByWidth(x: nat, n: nat) returns (k: nat)
    requires x < WORD && n > 0 && Pow2(n) == WORD && n <= 32
    ensures 1 <= x <= Pow2(n - 1) ==> RoundUpPow2(x) == Pow2(k) && x <= Pow2(k) < 2 * x && k < n
    ensures (x == 0 || x > Pow2(n - 1)) ==> RoundUpPow2(x) == 0
  {
    var v := if x == 0 then WORD - 1 else x - 1;
    k := Width(v);
    WidthBound(v, n);
    WidthBound(v, n - 1);
    StartTopOnes(v);
    SmearedSpec(v, k, 1);
    Pow2Monotone(k, n);
    if k < n { Pow2Monotone(k, n - 1); }
    WrapAtWord(Pow2(k));
  }

  /** Rounding gives a power of two in [x, 2x), except that 0 and everything above
      2^31 round to 0. */
  lemma RoundUpPow2Spec(x: nat) returns (k: nat)
    requires x < WORD
    ensures 1 <= x <= 0x8000_0000 ==> RoundUpPow2(x) == Pow2(k) && x <= Pow2(k) < 2 * x && k <= 31
    ensures (x == 0 || x > 0x8000_0000) ==> RoundUpPow2(x) == 0
  {
    Pow2Of32();
    k := RoundByWidth(x, 32);
  }

  /** The rounding is the least power of two that is not below x. */
  lemma RoundUpPow2Least(x: nat, j: nat)
    requires 1 <= x <= 0x8000_0000 && x <= Pow2(j)
    ensures x <= RoundUpPow2(x) <= Pow2(j)
  {
    var k := RoundUpPow2Spec(x);
    if j < k { Pow2Monotone(j, k - 1); } else { Pow2Monotone(k, j); }
  }
}
