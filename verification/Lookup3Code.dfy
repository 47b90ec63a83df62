/**
 hashlittle and its relatives as they run: three ways of reading the key, chosen by the
 alignment of its address, all proved to compute the hash of the key's bytes.
 */
module Lookup3Code {
  import opened Words
  import opened Lookup3

  // ---------- reads from memory ----------

  function Load8(mem: Bytes, p: nat): Word
    requires p < |mem|
  {
    mem[p]
  }

  function Load16(mem: Bytes, p: nat): Word
    requires p + 2 <= |mem|
  {
    (mem[p] as int) + 0x100 * (mem[p + 1] as int)
  }

  function Load32(mem: Bytes, p: nat): Word
    requires p + 4 <= |mem|
  {
    Le(mem[p], mem[p + 1], mem[p + 2], mem[p + 3])
  }

  // x << 8, x << 16, x << 24 of a byte or half word
  function Shl(x: Word, k: nat): Word
    requires k in {8, 16, 24} && (k == 24 ==> x < 0x100) && (k == 16 ==> x < 0x1_0000) && (k == 8 ==> x < 0x100)
  {
    if k == 8 then 0x100 * x else if k == 16 then 0x1_0000 * x else 0x100_0000 * x
  }

  // The bytes of the key that starts at p.
  function Key(mem: Bytes, p: nat, length: nat): Bytes
    requires p + length <= |mem|
  {
    mem[p..p + length]
  }

  lemma KeyByte(mem: Bytes, p: nat, length: nat, i: nat)
    requires p + length <= |mem|
    ensures ByteAt(Key(mem, p, length), i) == if i < length then ByteAt(mem, p + i) else 0
  {}

  // A whole word of the key is what a 32-bit read gives, and what two 16-bit reads give.
  lemma WholeWord(mem: Bytes, p: nat, length: nat, i: nat)
    requires p + length <= |mem| && i + 4 <= length
    ensures WordAt(Key(mem, p, length), i) == Load32(mem, p + i)
  {
    KeyByte(mem, p, length, i);
    KeyByte(mem, p, length, i + 1);
    KeyByte(mem, p, length, i + 2);
    KeyByte(mem, p, length, i + 3);
  }

  lemma Masks()
    ensures Pow2(8) == 0x100 && Pow2(16) == 0x1_0000 && Pow2(24) == 0x100_0000
  {
    assert Pow2(8) == 0x100;
    assert Pow2(16) == 0x1_0000;
  }

  // k & 0xff, k & 0xffff, k & 0xffffff for n = 1, 2, 3
  function LowBytes(x: Word, n: nat): Word
    requires 1 <= n <= 3
  {
    var m := if n == 1 then 0xff else if n == 2 then 0xffff else 0xff_ffff;
    AndSmall(x, m);
    And(x, m)
  }

  lemma {:induction false} AndSmall(x: nat, y: nat)
    ensures And(x, y) <= y && And(x, y) <= x
  {
    if x != 0 && y != 0 { AndSmall(x / 2, y / 2); }
  }

  lemma LowBytesIsMod(x: Word, n: nat)
    requires 1 <= n <= 3
    ensures LowBytes(x, n) == if n == 1 then x % 0x100 else if n == 2 then x % 0x1_0000 else x % 0x100_0000
  {
    Masks();
    if n == 1 { AndMask(x, 8); } else if n == 2 { AndMask(x, 16); } else { AndMask(x, 24); }
  }

  // The masked tail of a word read past the end of the key is the zero-padded tail of the key.
  lemma MaskedTail(mem: Bytes, p: nat, length: nat, i: nat, n: nat)
    requires p + length <= |mem| && length == i + n && 1 <= n <= 3 && p + i + 4 <= |mem|
    ensures WordAt(Key(mem, p, length), i) == LowBytes(Load32(mem, p + i), n)
  {
    KeyByte(mem, p, length, i);
    KeyByte(mem, p, length, i + 1);
    KeyByte(mem, p, length, i + 2);
    KeyByte(mem, p, length, i + 3);
    LowBytesIsMod(Load32(mem, p + i), n);
    LeLow(mem[p + i], mem[p + i + 1], mem[p + i + 2], mem[p + i + 3]);
  }

  lemma LeLow(b0: Byte, b1: Byte, b2: Byte, b3: Byte)
    ensures Le(b0, b1, b2, b3) % 0x100 == Le(b0, 0, 0, 0)
    ensures Le(b0, b1, b2, b3) % 0x1_0000 == Le(b0, b1, 0, 0)
    ensures Le(b0, b1, b2, b3) % 0x100_0000 == Le(b0, b1, b2, 0)
  {}

  // The part of word i of the key that is there, read byte by byte.
  lemma TailBytes(mem: Bytes, p: nat, length: nat, i: nat)
    requires p + length <= |mem|
    ensures length <= i ==> WordAt(Key(mem, p, length), i) == 0
    ensures length == i + 1 ==> WordAt(Key(mem, p, length), i) == Load8(mem, p + i)
    ensures length == i + 2 ==> WordAt(Key(mem, p, length), i) == Load16(mem, p + i)
    ensures length == i + 3 ==> WordAt(Key(mem, p, length), i) == Load16(mem, p + i) + Shl(Load8(mem, p + i + 2), 16)
  {
    KeyByte(mem, p, length, i);
    KeyByte(mem, p, length, i + 1);
    KeyByte(mem, p, length, i + 2);
    KeyByte(mem, p, length, i + 3);
  }

  // Dropping one block of the key.
  lemma NextBlock(mem: Bytes, p: nat, length: nat, t: Triple)
    requires p + length <= |mem| && length > 12
    ensures Absorb(Mix(AddBlock(t, Key(mem, p, length))), Key(mem, p + 12, length - 12))
              == Absorb(t, Key(mem, p, length))
  {
    var key := Key(mem, p, length);
    assert key[12..] == Key(mem, p + 12, length - 12);
    assert forall i: nat :: i < 12 ==> ByteAt(key[..12], i) == ByteAt(key, i);
  }

  // ---------- 32-bit reads ----------

  // An aligned word never straddles the end of memory.
  ghost predicate AlignedIn(mem: Bytes, p: nat, length: nat) {
    p % 4 == 0 && p + length <= |mem| && |mem| % 4 == 0
  }

  // Word i of the last block as the switch on the length reads it.
  ghost function Tail32(mem: Bytes, p: nat, length: nat, i: nat): Word
    requires AlignedIn(mem, p, length) && i % 4 == 0
  {
    if i + 4 <= length then Load32(mem, p + i)
    else if i < length then LowBytes(Load32(mem, p + i), length - i)
    else 0
  }

  lemma Tail32Ok(mem: Bytes, p: nat, length: nat, i: nat)
    requires AlignedIn(mem, p, length) && i % 4 == 0
    ensures WordAt(Key(mem, p, length), i) == Tail32(mem, p, length, i)
  {
    if i + 4 <= length {
      WholeWord(mem, p, length, i);
    } else if i < length {
      MaskedTail(mem, p, length, i, length - i);
    } else {
      TailBytes(mem, p, length, i);
    }
  }

  method Absorb32(mem: Bytes, key: nat, len: nat, t: Triple) returns (r: Triple)
    requires AlignedIn(mem, key, len)
    ensures r == Absorb(t, Key(mem, key, len))
  {
    var k: nat, length: nat := key, len;
    r := t;
    while length > 12
      invariant AlignedIn(mem, k, length)
      invariant Absorb(r, Key(mem, k, length)) == Absorb(t, Key(mem, key, len))
    {
      WholeWord(mem, k, length, 0);
      WholeWord(mem, k, length, 4);
      WholeWord(mem, k, length, 8);
      NextBlock(mem, k, length, r);
      r := Mix(AddWords(r, Load32(mem, k), Load32(mem, k + 4), Load32(mem, k + 8)));
      length := length - 12;
      k := k + 12;
    }
    Tail32Ok(mem, k, length, 0);
    Tail32Ok(mem, k, length, 4);
    Tail32Ok(mem, k, length, 8);
    if length == 0 {
      return;
    }
    var x, y, z := Switch32(mem, k, length);
    r := Final(AddWords(r, x, y, z));
  }

  method Switch32(mem: Bytes, k: nat, length: nat) returns (x: Word, y: Word, z: Word)
    requires AlignedIn(mem, k, length) && 0 < length <= 12
    ensures x == Tail32(mem, k, length, 0) && y == Tail32(mem, k, length, 4) && z == Tail32(mem, k, length, 8)
  {
    x, y, z := 0, 0, 0;
    match length
    case 12 => z := Load32(mem, k + 8); y := Load32(mem, k + 4); x := Load32(mem, k);
    case 11 => z := LowBytes(Load32(mem, k + 8), 3); y := Load32(mem, k + 4); x := Load32(mem, k);
    case 10 => z := LowBytes(Load32(mem, k + 8), 2); y := Load32(mem, k + 4); x := Load32(mem, k);
    case 9 => z := LowBytes(Load32(mem, k + 8), 1); y := Load32(mem, k + 4); x := Load32(mem, k);
    case 8 => y := Load32(mem, k + 4); x := Load32(mem, k);
    case 7 => y := LowBytes(Load32(mem, k + 4), 3); x := Load32(mem, k);
    case 6 => y := LowBytes(Load32(mem, k + 4), 2); x := Load32(mem, k);
    case 5 => y := LowBytes(Load32(mem, k + 4), 1); x := Load32(mem, k);
    case 4 => x := Load32(mem, k);
    case 3 => x := LowBytes(Load32(mem, k), 3);
    case 2 => x := LowBytes(Load32(mem, k), 2);
    case _ => x := LowBytes(Load32(mem, k), 1);
  }

  // ---------- 16-bit reads ----------

  function Pair(mem: Bytes, p: nat): Word
    requires p + 4 <= |mem|
  {
    Load16(mem, p) + Shl(Load16(mem, p + 2), 16)
  }

  lemma WholePair(mem: Bytes, p: nat, length: nat, i: nat)
    requires p + length <= |mem| && i + 4 <= length
    ensures WordAt(Key(mem, p, length), i) == Pair(mem, p + i)
  {
    WholeWord(mem, p, length, i);
  }

  ghost function Tail16(mem: Bytes, p: nat, length: nat, i: nat): Word
    requires p + length <= |mem|
  {
    if i + 4 <= length then Pair(mem, p + i)
    else if i + 3 == length then Load16(mem, p + i) + Shl(Load8(mem, p + i + 2), 16)
    else if i + 2 == length then Load16(mem, p + i)
    else if i + 1 == length then Load8(mem, p + i)
    else 0
  }

  lemma Tail16Ok(mem: Bytes, p: nat, length: nat, i: nat)
    requires p + length <= |mem|
    ensures WordAt(Key(mem, p, length), i) == Tail16(mem, p, length, i)
  {
    if i + 4 <= length { WholePair(mem, p, length, i); } else { TailBytes(mem, p, length, i); }
  }

  method Absorb16(mem: Bytes, key: nat, len: nat, t: Triple) returns (r: Triple)
    requires key + len <= |mem|
    ensures r == Absorb(t, Key(mem, key, len))
  {
    var k: nat, length: nat := key, len;
    r := t;
    while length > 12
      invariant k + length <= |mem|
      invariant Absorb(r, Key(mem, k, length)) == Absorb(t, Key(mem, key, len))
    {
      WholePair(mem, k, length, 0);
      WholePair(mem, k, length, 4);
      WholePair(mem, k, length, 8);
      NextBlock(mem, k, length, r);
      r := Mix(AddWords(r, Pair(mem, k), Pair(mem, k + 4), Pair(mem, k + 8)));
      length := length - 12;
      k := k + 12;
    }
    Tail16Ok(mem, k, length, 0);
    Tail16Ok(mem, k, length, 4);
    Tail16Ok(mem, k, length, 8);
    if length == 0 {
      return;
    }
    var x, y, z := Switch16(mem, k, length);
    r := Final(AddWords(r, x, y, z));
  }

  method Switch16(mem: Bytes, k: nat, length: nat) returns (x: Word, y: Word, z: Word)
    requires k + length <= |mem| && 0 < length <= 12
    ensures x == Tail16(mem, k, length, 0) && y == Tail16(mem, k, length, 4) && z == Tail16(mem, k, length, 8)
  {
    x, y, z := 0, 0, 0;
    match length
    case 12 => z := Pair(mem, k + 8); y := Pair(mem, k + 4); x := Pair(mem, k);
    case 11 => z := Load16(mem, k + 8) + Shl(Load8(mem, k + 10), 16); y := Pair(mem, k + 4); x := Pair(mem, k);
    case 10 => z := Load16(mem, k + 8); y := Pair(mem, k + 4); x := Pair(mem, k);
    case 9 => z := Load8(mem, k + 8); y := Pair(mem, k + 4); x := Pair(mem, k);
    case 8 => y := Pair(mem, k + 4); x := Pair(mem, k);
    case 7 => y := Load16(mem, k + 4) + Shl(Load8(mem, k + 6), 16); x := Pair(mem, k);
    case 6 => y := Load16(mem, k + 4); x := Pair(mem, k);
    case 5 => y := Load8(mem, k + 4); x := Pair(mem, k);
    case 4 => x := Pair(mem, k);
    case 3 => x := Load16(mem, k) + Shl(Load8(mem, k + 2), 16);
    case 2 => x := Load16(mem, k);
    case _ => x := Load8(mem, k);
  }

  // ---------- byte reads ----------

  // Adding the bytes of a word one after the other is adding the word.
  function AddBytes(x: Word, b0: Byte, b1: Byte, b2: Byte, b3: Byte): (r: Word)
    ensures r == Plus(x, Le(b0, b1, b2, b3))
  {
    Plus(Plus(Plus(Plus(x, b0), Shl(b1, 8)), Shl(b2, 16)), Shl(b3, 24))
  }

  method Absorb8(mem: Bytes, key: nat, len: nat, t: Triple) returns (r: Triple)
    requires key + len <= |mem|
    ensures r == Absorb(t, Key(mem, key, len))
  {
    var k: nat, length: nat := key, len;
    r := t;
    while length > 12
      invariant k + length <= |mem|
      invariant Absorb(r, Key(mem, k, length)) == Absorb(t, Key(mem, key, len))
    {
      WholeWord(mem, k, length, 0);
      WholeWord(mem, k, length, 4);
      WholeWord(mem, k, length, 8);
      NextBlock(mem, k, length, r);
      r := Mix(Triple(AddBytes(r.a, mem[k], mem[k + 1], mem[k + 2], mem[k + 3]),
                      AddBytes(r.b, mem[k + 4], mem[k + 5], mem[k + 6], mem[k + 7]),
                      AddBytes(r.c, mem[k + 8], mem[k + 9], mem[k + 10], mem[k + 11])));
      length := length - 12;
      k := k + 12;
    }
    if length == 0 {
      return;
    }
    var a := Fall(mem, k, length, 0, r.a);
    var b := Fall(mem, k, length, 4, r.b);
    var c := Fall(mem, k, length, 8, r.c);
    r := Final(Triple(a, b, c));
  }

  // The four cases of the switch that add to one register, each falling through to the next.
  method Fall(mem: Bytes, k: nat, length: nat, i: nat, x: Word) returns (r: Word)
    requires k + length <= |mem|
    ensures r == Plus(x, WordAt(Key(mem, k, length), i))
  {
    KeyByte(mem, k, length, i);
    KeyByte(mem, k, length, i + 1);
    KeyByte(mem, k, length, i + 2);
    KeyByte(mem, k, length, i + 3);
    r := x;
    if length >= i + 4 {
      r := Plus(r, Shl(mem[k + i + 3], 24));
    }
    if length >= i + 3 {
      r := Plus(r, Shl(mem[k + i + 2], 16));
    }
    if length >= i + 2 {
      r := Plus(r, Shl(mem[k + i + 1], 8));
    }
    if length >= i + 1 {
      r := Plus(r, mem[k + i]);
    }
  }

  // ---------- the hash functions ----------

  /** hashlittle2: both results depend only on the bytes of the key, its length and the seeds,
      not on its alignment or on what surrounds it. */
  method HashLittle2(mem: Bytes, key: nat, length: nat, pc: Word, pb: Word) returns (c: Word, b: Word)
    requires key + length <= |mem| && |mem| % 4 == 0
    ensures c == HashState(mem[key..key + length], pc, pb).c
    ensures b == HashState(mem[key..key + length], pc, pb).b
  {
    var t := Start(length % WORD, pc, pb);
    if key % 4 == 0 {
      t := Absorb32(mem, key, length, t);
    } else if key % 2 == 0 {
      t := Absorb16(mem, key, length, t);
    } else {
      t := Absorb8(mem, key, length, t);
    }
    c, b := t.c, t.b;
  }

  /** hashlittle: the first result of hashlittle2 with a second seed of 0. */
  method HashLittle(mem: Bytes, key: nat, length: nat, initval: Word) returns (c: Word)
    requires key + length <= |mem| && |mem| % 4 == 0
    ensures c == HashState(mem[key..key + length], initval, 0).c
  {
    var x := Plus(Plus(0xdeadbeef, length % WORD), initval);
    var t := Triple(x, x, x);
    if key % 4 == 0 {
      t := Absorb32(mem, key, length, t);
    } else if key % 2 == 0 {
      t := Absorb16(mem, key, length, t);
    } else {
      t := Absorb8(mem, key, length, t);
    }
    c := t.c;
  }

  // ---------- keys made of words ----------

  function WordBytes(w: Word): Bytes {
    [w % 0x100, (w / 0x100) % 0x100, (w / 0x1_0000) % 0x100, w / 0x100_0000]
  }

  // The words of a key in little-endian memory.
  function BytesOf(k: seq<Word>): Bytes {
    if k == [] then [] else WordBytes(k[0]) + BytesOf(k[1..])
  }

  lemma WordBytesOk(w: Word)
    ensures var b := WordBytes(w); Le(b[0], b[1], b[2], b[3]) == w
  {
    assert w / 0x1_0000 == (w / 0x100) / 0x100 && w / 0x100_0000 == (w / 0x1_0000) / 0x100;
  }

  lemma {:induction false} BytesOfWord(k: seq<Word>, i: nat)
    ensures |BytesOf(k)| == 4 * |k|
    ensures WordAt(BytesOf(k), 4 * i) == if i < |k| then k[i] else 0
    decreases |k|
  {
    if k != [] {
      WordBytesOk(k[0]);
      var rest := BytesOf(k[1..]);
      assert forall j: nat :: ByteAt(BytesOf(k), 4 + j) == ByteAt(rest, j);
      if i > 0 {
        BytesOfWord(k[1..], i - 1);
        assert 4 * i == 4 + 4 * (i - 1);
      } else {
        BytesOfWord(k[1..], 0);
      }
    }
  }

  lemma {:induction false} BytesOfDrop(k: seq<Word>, n: nat)
    requires n <= |k|
    ensures |BytesOf(k)| >= 4 * n && BytesOf(k)[4 * n..] == BytesOf(k[n..])
  {
    BytesOfWord(k, 0);
    if n > 0 {
      BytesOfDrop(k[1..], n - 1);
      assert k[1..][n - 1..] == k[n..];
      assert BytesOf(k)[4 * n..] == BytesOf(k[1..])[4 * (n - 1)..];
    }
  }

  lemma BytesOfBlock(k: seq<Word>, t: Triple)
    requires |k| > 3
    ensures |BytesOf(k)| > 12 && BytesOf(k)[12..] == BytesOf(k[3..])
    ensures AddBlock(t, BytesOf(k)[..12]) == AddWords(t, k[0], k[1], k[2])
  {
    BytesOfDrop(k, 3);
    BytesOfWord(k, 0);
    BytesOfWord(k, 1);
    BytesOfWord(k, 2);
    var key := BytesOf(k);
    assert forall i: nat :: i < 12 ==> ByteAt(key[..12], i) == ByteAt(key, i);
  }

  lemma LengthShift(n: nat)
    ensures (4 * (n % WORD)) % WORD == (4 * n) % WORD
  {}

  /** hashword2: agrees with hashlittle2 on the bytes of the words. */
  method HashWord2(key: seq<Word>, pc: Word, pb: Word) returns (c: Word, b: Word)
    ensures c == HashState(BytesOf(key), pc, pb).c && b == HashState(BytesOf(key), pc, pb).b
  {
    BytesOfWord(key, 0);
    var t := Start((4 * |key|) % WORD, pc, pb);
    t := AbsorbWords(key, t);
    c, b := t.c, t.b;
  }

  /** hashword: agrees with hashlittle on the bytes of the words. */
  method HashWord(key: seq<Word>, initval: Word) returns (c: Word)
    ensures c == HashState(BytesOf(key), initval, 0).c
  {
    BytesOfWord(key, 0);
    LengthShift(|key|);
    var x := Plus(Plus(0xdeadbeef, (4 * (|key| % WORD)) % WORD), initval);
    var t := AbsorbWords(key, Triple(x, x, x));
    c := t.c;
  }

  method AbsorbWords(key: seq<Word>, t: Triple) returns (r: Triple)
    ensures r == Absorb(t, BytesOf(key))
  {
    var k := key;
    r := t;
    while |k| > 3
      invariant Absorb(r, BytesOf(k)) == Absorb(t, BytesOf(key))
    {
      BytesOfBlock(k, r);
      r := Mix(AddWords(r, k[0], k[1], k[2]));
      k := k[3..];
    }
    BytesOfWord(k, 0);
    BytesOfWord(k, 1);
    BytesOfWord(k, 2);
    if |k| == 0 {
      return;
    }
    var x, y, z := k[0], 0, 0;
    if |k| >= 3 {
      z := k[2];
    }
    if |k| >= 2 {
      y := k[1];
    }
    r := Final(AddWords(r, x, y, z));
  }
}
