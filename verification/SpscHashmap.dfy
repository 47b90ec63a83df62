/**
 The per-thread hash map: linear probing in a power-of-two table. For every hash function it is
 proved to behave as a finite map that holds at most max_entries keys.
 */
module SpscHashmap {
  import opened Words
  import opened Collections

  type Bytes = seq<bv8>

  // An entry is | used | key | value |.
  datatype Slot = Slot(used: bool, key: Bytes, value: Bytes)

  datatype MapResult = Success | Full

  function Zeros(n: nat): Bytes {
    seq(n, _ => 0)
  }

  // ---------- probing ----------

  // hash(key) & (ht_size - 1)
  function Home(hash: Bytes -> nat, key: Bytes, size: nat): (h: nat)
    requires size > 0
    ensures h < size
  {
    hash(key) % size
  }

  // The slot after d probes from the home slot, wrapping around at the end.
  function Probe(home: nat, d: nat, size: nat): (i: nat)
    requires home < size && d <= size
    ensures i < size
  {
    if home + d < size then home + d else home + d - size
  }

  // hash_idx = (hash_idx + 1) & (ht_size - 1)
  function Next(i: nat, size: nat): nat
    requires size > 0
  {
    And(i + 1, size - 1)
  }

  lemma ModSmall(x: nat, m: nat)
    requires 0 < m && x <= m
    ensures x % m == if x == m then 0 else x
  {
    DivisionUnique(x, m, if x == m then 1 else 0, if x == m then 0 else x);
  }

  lemma NextProbe(home: nat, d: nat, size: nat, k: nat)
    requires size == Pow2(k) && home < size && d < size
    ensures Next(Probe(home, d, size), size) == Probe(home, d + 1, size)
    ensures Probe(home, d + 1, size) == home <==> d + 1 == size
  {
    var i := Probe(home, d, size);
    AndMask(i + 1, k);
    ModSmall(i + 1, size);
  }

  // Every slot of the table is some probe.
  lemma ProbeReaches(home: nat, i: nat, size: nat) returns (d: nat)
    requires home < size && i < size
    ensures d < size && Probe(home, d, size) == i
  {
    d := if home <= i then i - home else i + size - home;
  }

  // ---------- the table and the map it stands for ----------

  // The slots against the stored keys: `dist` is how many probes from home each key lies.
  ghost predicate Reflects(hash: Bytes -> nat, t: seq<Slot>, m: map<Bytes, Bytes>, dist: map<Bytes, nat>) {
    && |t| > 0 && dist.Keys == m.Keys
    && (forall k :: k in dist ==> dist[k] < |t| && t[Probe(Home(hash, k, |t|), dist[k], |t|)] == Slot(true, k, m[k]))
    && (forall k, d: nat :: k in dist && d < dist[k] < |t| ==> t[Probe(Home(hash, k, |t|), d, |t|)].used)
    && (forall i: nat :: i < |t| && t[i].used ==>
          t[i].key in dist && dist[t[i].key] < |t| && Probe(Home(hash, t[i].key, |t|), dist[t[i].key], |t|) == i)
  }

  // The first d probes of key hit used slots with other keys.
  ghost predicate Missed(hash: Bytes -> nat, t: seq<Slot>, key: Bytes, d: nat)
    requires |t| > 0 && d <= |t|
  {
    forall e: nat :: e < d ==>
      t[Probe(Home(hash, key, |t|), e, |t|)].used && t[Probe(Home(hash, key, |t|), e, |t|)].key != key
  }

  // A key whose probes miss up to a free slot, or all around the table, is not stored.
  lemma MissedIsAbsent(hash: Bytes -> nat, t: seq<Slot>, m: map<Bytes, Bytes>, dist: map<Bytes, nat>, key: Bytes,
      d: nat)
    requires Reflects(hash, t, m, dist) && d <= |t| && Missed(hash, t, key, d)
    requires d < |t| ==> !t[Probe(Home(hash, key, |t|), d, |t|)].used
    ensures key !in m
  {}

  lemma EmptyIff(hash: Bytes -> nat, t: seq<Slot>)
    requires |t| > 0
    ensures Reflects(hash, t, map[], map[]) <==> forall i: nat :: i < |t| ==> !t[i].used
  {}

  // A full turn of misses means that there is no free slot.
  lemma FullTurn(hash: Bytes -> nat, t: seq<Slot>, key: Bytes)
    requires |t| > 0 && Missed(hash, t, key, |t|)
    ensures forall j: nat :: j < |t| ==> t[j].used
  {
    forall j: nat | j < |t| ensures t[j].used {
      var d := ProbeReaches(Home(hash, key, |t|), j, |t|);
    }
  }

  lemma MissedMore(hash: Bytes -> nat, t: seq<Slot>, key: Bytes, d: nat)
    requires |t| > 0 && d < |t| && Missed(hash, t, key, d)
    requires var i := Probe(Home(hash, key, |t|), d, |t|); t[i].used && t[i].key != key
    ensures Missed(hash, t, key, d + 1)
  {}

  lemma UsedIsStored(hash: Bytes -> nat, t: seq<Slot>, m: map<Bytes, Bytes>, dist: map<Bytes, nat>, i: nat)
    requires Reflects(hash, t, m, dist) && i < |t| && t[i].used
    ensures t[i].key in m && t[i].value == m[t[i].key]
  {}

  // The stored keys are as many as the used slots.
  lemma UsedCount(hash: Bytes -> nat, t: seq<Slot>, m: map<Bytes, Bytes>, dist: map<Bytes, nat>)
    requires Reflects(hash, t, m, dist) && forall i: nat :: i < |t| ==> t[i].used
    ensures |m| >= |t|
  {
    Injection(t, |t|);
    SubsetSize(KeysBelow(t, |t|), m.Keys) by {
      forall k | k in KeysBelow(t, |t|) ensures k in m.Keys {
        var i: nat :| i < |t| && t[i].key == k;
        assert t[i].used;
      }
    }
  }

  ghost function KeysBelow(t: seq<Slot>, n: nat): set<Bytes>
    requires n <= |t|
  {
    set i: nat | i < n :: t[i].key
  }

  lemma {:induction false} Injection(t: seq<Slot>, n: nat)
    requires n <= |t| && forall i, j :: 0 <= i < j < |t| ==> t[i].key != t[j].key
    ensures |KeysBelow(t, n)| == n
  {
    if n > 0 {
      Injection(t, n - 1);
      assert KeysBelow(t, n) == KeysBelow(t, n - 1) + {t[n - 1].key};
    }
  }

  lemma InsertReflects(hash: Bytes -> nat, t: seq<Slot>, m: map<Bytes, Bytes>, dist: map<Bytes, nat>,
                       key: Bytes, value: Bytes, d: nat)
    requires Reflects(hash, t, m, dist) && key !in m && d < |t| && Missed(hash, t, key, d)
    requires !t[Probe(Home(hash, key, |t|), d, |t|)].used
    ensures Reflects(hash, t[Probe(Home(hash, key, |t|), d, |t|) := Slot(true, key, value)], m[key := value],
              dist[key := d])
  {
  }

  // The same, of the tables and maps before and after.
  lemma InsertKeeps(hash: Bytes -> nat, t: seq<Slot>, t': seq<Slot>, m: map<Bytes, Bytes>, m': map<Bytes, Bytes>,
                    dist: map<Bytes, nat>, dist': map<Bytes, nat>, key: Bytes, value: Bytes, d: nat)
    requires Reflects(hash, t, m, dist) && key !in m && d < |t| && Missed(hash, t, key, d)
    requires !t[Probe(Home(hash, key, |t|), d, |t|)].used
    requires t' == t[Probe(Home(hash, key, |t|), d, |t|) := Slot(true, key, value)] && m' == m[key := value]
             && dist' == dist[key := d]
    ensures Reflects(hash, t', m', dist')
  {
    InsertReflects(hash, t, m, dist, key, value, d);
  }

  lemma OverwriteReflects(hash: Bytes -> nat, t: seq<Slot>, m: map<Bytes, Bytes>, dist: map<Bytes, nat>,
                          value: Bytes, i: nat)
    requires Reflects(hash, t, m, dist) && i < |t| && t[i].used
    ensures t[i].key in m
    ensures Reflects(hash, t[i := Slot(true, t[i].key, value)], m[t[i].key := value], dist)
  {
  }

  // ---------- the byte layout ----------

  // The product i * n.
  function Product(i: nat, n: nat): nat {
    if i == 0 then 0 else Product(i - 1, n) + n
  }

  lemma {:induction false} ProductIs(i: nat, n: nat)
    ensures Product(i, n) == i * n
  {
    if i > 0 {
      ProductIs(i - 1, n);
      assert i * n == (i - 1) * n + n;
    }
  }

  lemma {:induction false} ProductOrder(i: nat, j: nat, n: nat)
    requires i <= j
    ensures Product(i, n) <= Product(j, n)
    ensures i < j ==> Product(i, n) + n <= Product(j, n)
  {
    if i < j { ProductOrder(i, j - 1, n); }
  }

  // The lowest 32 bits, x % WORD.
  function Low32(x: nat): (r: nat)
    ensures r <= x
  {
    if x < WORD then x else Low32(x - WORD)
  }

  lemma {:induction false} Low32Is(x: nat)
    ensures Low32(x) == x % WORD
  {
    if x >= WORD { Low32Is(x - WORD); }
  }

  // The product of two unsigned ints.
  method Times32(i: nat, n: nat) returns (r: nat)
    ensures r == Low32(Product(i, n))
  {
    ProductIs(i, n);
    Low32Is(i * n);
    r := (i * n) % WORD;
  }

  // Entry i starts at hash_idx * (key_size + value_size + 1), a 32-bit product.
  function Offset(i: nat, entrySize: nat): nat {
    Low32(Product(i, entrySize))
  }

  // The last entry starts below 2^32.
  predicate LaidOut(size: nat, entrySize: nat) {
    size > 0 && Product(size - 1, entrySize) < WORD
  }

  // Entries i and j have no byte in common.
  predicate Apart(i: nat, j: nat, entrySize: nat) {
    Offset(i, entrySize) + entrySize <= Offset(j, entrySize) || Offset(j, entrySize) + entrySize <= Offset(i, entrySize)
  }

  lemma OffsetIs(i: nat, size: nat, entrySize: nat)
    requires i < size && LaidOut(size, entrySize)
    ensures Offset(i, entrySize) == Product(i, entrySize)
            && Product(i, entrySize) + entrySize <= Product(size, entrySize)
  {
    ProductOrder(i, size - 1, entrySize);
    ProductOrder(i, size, entrySize);
  }

  lemma EntriesApart(i: nat, j: nat, size: nat, entrySize: nat)
    requires i < size && j < size && i != j && LaidOut(size, entrySize)
    ensures Apart(i, j, entrySize)
  {
    OffsetIs(i, size, entrySize);
    OffsetIs(j, size, entrySize);
    if i < j { ProductOrder(i, j, entrySize); } else { ProductOrder(j, i, entrySize); }
  }

  /** No two entries of a table have a byte in common exactly when the offset of the last one fits 32 bits. */
  lemma LayoutIsSound(size: nat, entrySize: nat)
    requires size > 0 && 0 < entrySize < WORD
    ensures (forall i: nat, j: nat :: i < j < size ==> Apart(i, j, entrySize)) <==> LaidOut(size, entrySize)
    ensures LaidOut(size, entrySize) <==> (size - 1) * entrySize < WORD
  {
    ProductIs(size - 1, entrySize);
    if LaidOut(size, entrySize) {
      forall i: nat, j: nat | i < j < size ensures Apart(i, j, entrySize) {
        EntriesApart(i, j, size, entrySize);
      }
    } else {
      var j := FirstWrap(size - 1, entrySize);
      assert Offset(0, entrySize) == 0;
      assert !Apart(0, j, entrySize);
    }
  }

  // The first entry whose offset wraps begins within the bytes of entry 0.
  lemma {:induction false} FirstWrap(j: nat, n: nat) returns (w: nat)
    requires 0 < n < WORD && Product(j, n) >= WORD
    ensures 0 < w <= j && Offset(w, n) < n
  {
    if Product(j - 1, n) < WORD {
      w := j;
      assert Low32(Product(j, n)) == Low32(Product(j, n) - WORD) == Product(j, n) - WORD;
    } else {
      w := FirstWrap(j - 1, n);
    }
  }

  // What is read at an offset; outside the memory there is nothing.
  function SlotAt(mem: Bytes, off: nat, keySize: nat, valueSize: nat): Slot {
    if off + keySize + valueSize + 1 > |mem| then Slot(false, [], [])
    else Slot(mem[off] != 0, mem[off + 1..off + 1 + keySize], mem[off + 1 + keySize..off + 1 + keySize + valueSize])
  }

  function Slots(mem: Bytes, size: nat, keySize: nat, valueSize: nat): (t: seq<Slot>)
    ensures |t| == size
  {
    if size == 0 then []
    else
      var last := SlotAt(mem, Offset(size - 1, keySize + valueSize + 1), keySize, valueSize);
      Slots(mem, size - 1, keySize, valueSize) + [last]
  }

  lemma {:induction false} SlotsAt(mem: Bytes, size: nat, keySize: nat, valueSize: nat, i: nat)
    requires i < size
    ensures Slots(mem, size, keySize, valueSize)[i]
              == SlotAt(mem, Offset(i, keySize + valueSize + 1), keySize, valueSize)
  {
    if i < size - 1 { SlotsAt(mem, size - 1, keySize, valueSize, i); }
  }

  // memcpy
  function Spliced(mem: Bytes, at: nat, src: Bytes): (r: Bytes)
    requires at + |src| <= |mem|
    ensures |r| == |mem|
  {
    mem[..at] + src + mem[at + |src|..]
  }

  function Written(mem: Bytes, off: nat, key: Bytes, value: Bytes): (r: Bytes)
    requires off + |key| + |value| + 1 <= |mem|
    ensures |r| == |mem|
  {
    Spliced(Spliced(mem[off := 1], off + 1, key), off + 1 + |key|, value)
  }

  lemma WrittenBytes(mem: Bytes, off: nat, key: Bytes, value: Bytes, x: nat)
    requires off + |key| + |value| + 1 <= |mem| && x < |mem|
    ensures Written(mem, off, key, value)[x] ==
            if x == off then 1
            else if off < x <= off + |key| then key[x - off - 1]
            else if off + |key| < x <= off + |key| + |value| then value[x - off - 1 - |key|] else mem[x]
  {}

  lemma WrittenSlot(mem: Bytes, off: nat, key: Bytes, value: Bytes)
    requires off + |key| + |value| + 1 <= |mem|
    ensures SlotAt(Written(mem, off, key, value), off, |key|, |value|) == Slot(true, key, value)
  {
    var r := Written(mem, off, key, value);
    WrittenBytes(mem, off, key, value, off);
    forall x | 0 <= x < |key| ensures r[off + 1..off + 1 + |key|][x] == key[x] {
      WrittenBytes(mem, off, key, value, off + 1 + x);
    }
    forall x | 0 <= x < |value| ensures r[off + 1 + |key|..off + 1 + |key| + |value|][x] == value[x] {
      WrittenBytes(mem, off, key, value, off + 1 + |key| + x);
    }
  }

  // Bytes outside the entry are not read.
  lemma SameSlot(mem: Bytes, mem': Bytes, off: nat, keySize: nat, valueSize: nat)
    requires |mem'| == |mem| && forall x :: off <= x < off + keySize + valueSize + 1 && x < |mem| ==> mem'[x] == mem[x]
    ensures SlotAt(mem', off, keySize, valueSize) == SlotAt(mem, off, keySize, valueSize)
  {
    if off + keySize + valueSize + 1 <= |mem| {
      assert mem'[off + 1..off + 1 + keySize] == mem[off + 1..off + 1 + keySize];
      assert mem'[off + 1 + keySize..off + 1 + keySize + valueSize]
               == mem[off + 1 + keySize..off + 1 + keySize + valueSize];
    }
  }

  // The memories differ at most within n bytes from off on.
  ghost predicate Within(mem: Bytes, mem': Bytes, off: nat, n: nat) {
    |mem'| == |mem| && forall x :: 0 <= x < |mem| && !(off <= x < off + n) ==> mem'[x] == mem[x]
  }

  lemma WrittenWithin(mem: Bytes, off: nat, key: Bytes, value: Bytes)
    requires off + |key| + |value| + 1 <= |mem|
    ensures Within(mem, Written(mem, off, key, value), off, |key| + |value| + 1)
  {
    forall x: nat | x < |mem| && !(off <= x < off + |key| + |value| + 1)
      ensures Written(mem, off, key, value)[x] == mem[x]
    {
      WrittenBytes(mem, off, key, value, x);
    }
  }

  // A new value for the entry.
  lemma ValueSlot(mem: Bytes, mem': Bytes, off: nat, keySize: nat, value: Bytes)
    requires off + keySize + |value| + 1 <= |mem| && mem' == Spliced(mem, off + 1 + keySize, value)
    ensures SlotAt(mem', off, keySize, |value|) == SlotAt(mem, off, keySize, |value|).(value := value)
    ensures Within(mem, mem', off, keySize + |value| + 1)
  {
    var at := off + 1 + keySize;
    assert mem'[off + 1..at] == mem[off + 1..at] && mem'[at..at + |value|] == value && mem'[off] == mem[off];
  }

  // Copying what is there changes nothing.
  lemma SameBytes(mem: Bytes, at: nat, src: Bytes)
    requires at + |src| <= |mem| && mem[at..at + |src|] == src
    ensures Spliced(mem, at, src) == mem
  {
    assert mem == mem[..at] + mem[at..at + |src|] + mem[at + |src|..];
  }

  lemma SlotAfterWrite(mem: Bytes, mem': Bytes, size: nat, i: nat, j: nat, keySize: nat, valueSize: nat)
    requires i < size && j < size && LaidOut(size, keySize + valueSize + 1)
    requires Within(mem, mem', Offset(i, keySize + valueSize + 1), keySize + valueSize + 1)
    ensures Slots(mem', size, keySize, valueSize)[j]
            == if j == i then SlotAt(mem', Offset(i, keySize + valueSize + 1), keySize, valueSize)
              else Slots(mem, size, keySize, valueSize)[j]
  {
    SlotsAt(mem, size, keySize, valueSize, j);
    SlotsAt(mem', size, keySize, valueSize, j);
    if j != i {
      EntriesApart(i, j, size, keySize + valueSize + 1);
      SameSlot(mem, mem', Offset(j, keySize + valueSize + 1), keySize, valueSize);
    }
  }

  /** In a table that is laid out soundly, writing bytes of an entry changes that entry and no other. */
  lemma WriteIsLocal(mem: Bytes, mem': Bytes, size: nat, i: nat, keySize: nat, valueSize: nat)
    requires i < size && LaidOut(size, keySize + valueSize + 1)
    requires Within(mem, mem', Offset(i, keySize + valueSize + 1), keySize + valueSize + 1)
    ensures var slot := SlotAt(mem', Offset(i, keySize + valueSize + 1), keySize, valueSize);
            Slots(mem', size, keySize, valueSize) == Slots(mem, size, keySize, valueSize)[i := slot]
  {
    var t, t' := Slots(mem, size, keySize, valueSize), Slots(mem', size, keySize, valueSize);
    var slot := SlotAt(mem', Offset(i, keySize + valueSize + 1), keySize, valueSize);
    forall j: nat | j < size ensures t'[j] == t[i := slot][j] {
      SlotAfterWrite(mem, mem', size, i, j, keySize, valueSize);
    }
  }

  lemma EntryWritten(mem: Bytes, mem': Bytes, size: nat, i: nat, off: nat, key: Bytes, value: Bytes)
    requires i < size && LaidOut(size, |key| + |value| + 1) && off == Offset(i, |key| + |value| + 1)
    requires off + |key| + |value| + 1 <= |mem| && mem' == Written(mem, off, key, value)
    ensures Slots(mem', size, |key|, |value|) == Slots(mem, size, |key|, |value|)[i := Slot(true, key, value)]
  {
    WrittenWithin(mem, off, key, value);
    WrittenSlot(mem, off, key, value);
    WriteIsLocal(mem, mem', size, i, |key|, |value|);
  }

  lemma ValueWritten(mem: Bytes, mem': Bytes, size: nat, i: nat, off: nat, keySize: nat, value: Bytes)
    requires i < size && LaidOut(size, keySize + |value| + 1) && off == Offset(i, keySize + |value| + 1)
    requires Within(mem, mem', off, keySize + |value| + 1)
    requires SlotAt(mem', off, keySize, |value|) == SlotAt(mem, off, keySize, |value|).(value := value)
    ensures var t := Slots(mem, size, keySize, |value|);
            Slots(mem', size, keySize, |value|) == t[i := t[i].(value := value)]
  {
    SlotsAt(mem, size, keySize, |value|, i);
    WriteIsLocal(mem, mem', size, i, keySize, |value|);
  }

  // Some byte of the entry is different, and so is what is read.
  lemma ByteShows(mem: Bytes, mem': Bytes, off: nat, keySize: nat, valueSize: nat, x: nat)
    requires |mem'| == |mem| && off < x < off + keySize + valueSize + 1 <= |mem| && mem'[x] != mem[x]
    ensures SlotAt(mem', off, keySize, valueSize) != SlotAt(mem, off, keySize, valueSize)
  {
    var a, b := SlotAt(mem, off, keySize, valueSize), SlotAt(mem', off, keySize, valueSize);
    if x < off + 1 + keySize {
      assert a.key[x - off - 1] == mem[x] && b.key[x - off - 1] == mem'[x];
    } else {
      assert a.value[x - off - 1 - keySize] == mem[x] && b.value[x - off - 1 - keySize] == mem'[x];
    }
  }

  /** In any other table there is an entry such that, as long as it is free, writing it changes what is read of
      entry 0. */
  lemma WriteDisturbs(mem: Bytes, size: nat, key: Bytes, value: Bytes) returns (w: nat)
    requires var n := |key| + |value| + 1; size > 0 && n < WORD && !LaidOut(size, n) && |mem| == Product(size, n)
    ensures var n := |key| + |value| + 1;
            && 0 < w < size && Offset(w, n) + n <= |mem|
            && (!SlotAt(mem, Offset(w, n), |key|, |value|).used ==>
                  SlotAt(Written(mem, Offset(w, n), key, value), 0, |key|, |value|) != SlotAt(mem, 0, |key|, |value|))
  {
    var n := |key| + |value| + 1;
    w := FirstWrap(size - 1, n);
    ProductOrder(2, size, n);
    var off := Offset(w, n);
    var mem' := Written(mem, off, key, value);
    WrittenBytes(mem, off, key, value, off);
    if mem[off] == 0 && off > 0 { ByteShows(mem, mem', 0, |key|, |value|, off); }
  }

  // ---------- clearing ----------

  // The bytes that clear zeroes: (key_size + value_size + 1) * ht_size, a 32-bit product.
  function ClearedBytes(size: nat, entrySize: nat): nat {
    Low32(Product(size, entrySize))
  }

  // Entry i begins within them.
  predicate Reached(i: nat, size: nat, entrySize: nat) {
    Product(i, entrySize) < ClearedBytes(size, entrySize)
  }

  /** Clearing reaches every entry exactly when the table has fewer than 2^32 bytes. */
  lemma ClearCovers(size: nat, entrySize: nat)
    requires size > 0 && 0 < entrySize < WORD
    ensures (forall i: nat :: i < size ==> Reached(i, size, entrySize)) <==> Product(size, entrySize) < WORD
    ensures Product(size, entrySize) == size * entrySize
  {
    ProductIs(size, entrySize);
    if Product(size, entrySize) < WORD {
      forall i: nat | i < size ensures Reached(i, size, entrySize) {
        ProductOrder(i, size, entrySize);
      }
    } else {
      assert !Reached(size - 1, size, entrySize);
    }
  }

  // Table t' is table t with the entries that clear reaches freed.
  ghost predicate Cleared(t: seq<Slot>, t': seq<Slot>, entrySize: nat) {
    |t'| == |t| && forall i: nat :: i < |t| ==> if Reached(i, |t|, entrySize) then !t'[i].used else t'[i] == t[i]
  }

  lemma ClearedReflects(hash: Bytes -> nat, t: seq<Slot>, t': seq<Slot>, entrySize: nat)
    requires |t| > 0 && entrySize < WORD && Cleared(t, t', entrySize)
    ensures Reflects(hash, t', map[], map[]) <==> forall i: nat :: i < |t| && t[i].used ==> Reached(i, |t|, entrySize)
    ensures 0 < entrySize && Product(|t|, entrySize) < WORD ==> Reflects(hash, t', map[], map[])
  {
    EmptyIff(hash, t');
    if entrySize > 0 { ClearCovers(|t|, entrySize); }
  }

  lemma ZerosReflect(hash: Bytes -> nat, mem: Bytes, size: nat, keySize: nat, valueSize: nat)
    requires size > 0 && forall x :: 0 <= x < |mem| ==> mem[x] == 0
    ensures Reflects(hash, Slots(mem, size, keySize, valueSize), map[], map[])
  {
    forall i: nat | i < size ensures !Slots(mem, size, keySize, valueSize)[i].used {
      SlotsAt(mem, size, keySize, valueSize, i);
    }
    EmptyIff(hash, Slots(mem, size, keySize, valueSize));
  }

  // memset from the start of the table
  lemma ZeroedIsCleared(mem: Bytes, mem': Bytes, size: nat, keySize: nat, valueSize: nat)
    requires var n := keySize + valueSize + 1; LaidOut(size, n) && n < WORD && |mem'| == |mem| == Product(size, n)
    requires var c := ClearedBytes(size, keySize + valueSize + 1);
             c <= |mem| && forall x :: 0 <= x < |mem| ==> mem'[x] == if x < c then 0 else mem[x]
    ensures Cleared(Slots(mem, size, keySize, valueSize), Slots(mem', size, keySize, valueSize),
              keySize + valueSize + 1)
  {
    var n := keySize + valueSize + 1;
    var t, t' := Slots(mem, size, keySize, valueSize), Slots(mem', size, keySize, valueSize);
    forall i: nat | i < size ensures if Reached(i, size, n) then !t'[i].used else t'[i] == t[i] {
      OffsetIs(i, size, n);
      SlotsAt(mem, size, keySize, valueSize, i);
      SlotsAt(mem', size, keySize, valueSize, i);
      if !Reached(i, size, n) { SameSlot(mem, mem', Product(i, n), keySize, valueSize); }
    }
  }

  /** A table of 2^29 entries of 8 bytes lies soundly, and clearing it zeroes nothing. */
  lemma ClearOfNothing(size: nat)
    requires size == 0x2000_0000
    ensures LaidOut(size, 8) && ClearedBytes(size, 8) == 0
  {
    ProductIs(size - 1, 8);
    ProductIs(size, 8);
  }

  // ---------- the object ----------

  class Table {
    const keySize: nat
    const valueSize: nat
    const maxEntries: nat
    const htSize: nat
    const mem: array<bv8>                   // ht
    const hash: Bytes -> nat
    var count: nat
    ghost var contents: map<Bytes, Bytes>   // the map it stands for
    ghost var dist: map<Bytes, nat>

    // key_size + value_size + 1, a 32-bit sum
    function EntrySize(): nat {
      Low32(keySize + valueSize + 1)
    }

    // The entries fit, and their offsets do not wrap.
    predicate Sized() {
      keySize + valueSize + 1 < WORD && LaidOut(htSize, keySize + valueSize + 1)
    }

    predicate Shaped() {
      Sized() && mem.Length == Product(htSize, keySize + valueSize + 1)
    }

    ghost predicate Built() {
      Shaped() && maxEntries <= htSize && exists k: nat :: htSize == Pow2(k)
    }

    ghost function Entries(): (t: seq<Slot>)
      reads mem
      ensures |t| == htSize
    {
      Slots(mem[..], htSize, keySize, valueSize)
    }

    ghost predicate Valid()
      reads this, mem
    {
      && Built()
      && Reflects(hash, Entries(), contents, dist)
      && count == |contents| <= maxEntries
    }

    /** jbpf_bpf_spsc_hashmap_create: the table has the least power of two of slots that is not below max_entries, none
        for a max_entries of 0 or above 2^31; it is usable exactly when it has slots and its entries do not overlap. */
    constructor (keySize: nat, valueSize: nat, maxEntries: nat, hash: Bytes -> nat)
      requires maxEntries < WORD
      ensures this.keySize == keySize && this.valueSize == valueSize && this.maxEntries == maxEntries
      ensures htSize == RoundUpPow2(maxEntries) && count == 0 && contents == map[] && fresh(mem)
      ensures Valid() <==> 1 <= maxEntries <= 0x8000_0000 && Sized()
    {
      this.keySize, this.valueSize, this.maxEntries, this.hash := keySize, valueSize, maxEntries, hash;
      htSize := RoundUpPow2(maxEntries);
      ProductIs(RoundUpPow2(maxEntries), Low32(keySize + valueSize + 1));
      mem := new bv8[RoundUpPow2(maxEntries) * Low32(keySize + valueSize + 1)](_ => 0);
      count := 0;
      contents, dist := map[], map[];
      new;
      ghost var k := RoundUpPow2Spec(maxEntries);
      if Sized() {
        ZerosReflect(hash, mem[..], htSize, keySize, valueSize);
      }
    }

    // Where entry i starts.
    method At(i: nat) returns (off: nat)
      requires Shaped() && i < htSize
      ensures off == Offset(i, keySize + valueSize + 1) && off + keySize + valueSize + 1 <= mem.Length
      ensures Entries()[i] == SlotAt(mem[..], off, keySize, valueSize)
    {
      off := Times32(i, EntrySize());
      OffsetIs(i, htSize, keySize + valueSize + 1);
      SlotsAt(mem[..], htSize, keySize, valueSize, i);
    }

    // The used byte, and memcmp on the key.
    method Read(i: nat, key: Bytes) returns (used: bool, same: bool)
      requires Shaped() && i < htSize && |key| == keySize
      ensures used == Entries()[i].used && same == (Entries()[i].key == key)
    {
      var off := At(i);
      used := mem[off] != 0;
      assert mem[..][off + 1..off + 1 + keySize] == mem[off + 1..off + 1 + keySize];
      same := mem[off + 1..off + 1 + keySize] == key;
    }

    // Slot i is where d missed probes for the key lead.
    ghost predicate StopsAt(key: Bytes, d: nat, i: int)
      reads mem
    {
      0 < htSize && d < htSize && i == Probe(Home(hash, key, htSize), d, htSize) && Missed(hash, Entries(), key, d)
    }

    // The probe loop for the key ends at slot i, which has the key or is free, or after a full turn with -1.
    ghost predicate Ended(key: Bytes, i: int, used: bool, d: nat)
      reads this, mem
    {
      && -1 <= i < htSize && (used <==> key in contents)
      && (if i < 0 then !used && forall j: nat :: j < htSize ==> Entries()[j].used else used == Entries()[i].used)
      && (used ==> i >= 0 && Entries()[i] == Slot(true, key, contents[key]))
      && (i >= 0 && !used ==> StopsAt(key, d, i))
    }

    // The probe loop shared by lookup and update.
    method Find(key: Bytes) returns (i: int, used: bool, ghost d: nat)
      requires Valid() && |key| == keySize
      ensures Ended(key, i, used, d)
    {
      ghost var k: nat :| htSize == Pow2(k);
      ghost var t := Entries();
      i := And(hash(key), htSize - 1);
      AndMask(hash(key), k);
      ghost var home := Home(hash, key, htSize);
      var orig := i;
      d := 0;
      while true
        invariant d < htSize && 0 <= i == Probe(home, d, htSize) && orig == home
        invariant Missed(hash, t, key, d)
        decreases htSize - d
      {
        var same;
        used, same := Read(i, key);
        if !used {
          MissedIsAbsent(hash, t, contents, dist, key, d);
          assert StopsAt(key, d, i);
          return;
        }
        if same {
          UsedIsStored(hash, t, contents, dist, i);
          return;
        }
        MissedMore(hash, t, key, d);
        NextProbe(home, d, htSize, k);
        i := Next(i, htSize);
        d := d + 1;
        if orig == i {
          break;
        }
      }
      MissedIsAbsent(hash, t, contents, dist, key, htSize);
      FullTurn(hash, t, key);
      i, used := -1, false;
    }

    /** jbpf_bpf_spsc_hashmap_lookup_elem: the slot whose value was last stored for the key. */
    method Lookup(key: Bytes) returns (i: int)
      requires Valid() && |key| == keySize
      ensures i >= 0 <==> key in contents
      ensures i >= 0 ==> i < htSize && Entries()[i] == Slot(true, key, contents[key])
    {
      var used;
      ghost var d;
      i, used, d := Find(key);
      if !used {
        i := -1;
      }
    }

    // memcpy into the table
    method Copy(at: nat, src: Bytes)
      requires at + |src| <= mem.Length
      modifies mem
      ensures mem[..] == Spliced(old(mem[..]), at, src)
    {
      for k := 0 to |src|
        invariant mem[..] == old(mem[..at]) + src[..k] + old(mem[at + k..])
      {
        mem[at + k] := src[k];
      }
    }

    // The used byte, the key and the value.
    method WriteAt(off: nat, key: Bytes, value: Bytes)
      requires off + |key| + |value| + 1 <= mem.Length
      modifies mem
      ensures mem[..] == Written(old(mem[..]), off, key, value)
    {
      mem[off] := 1;
      assert mem[..] == old(mem[..])[off := 1];
      Copy(off + 1, key);
      Copy(off + 1 + |key|, value);
    }

    // Writes entry i, and no other.
    method Write(i: nat, key: Bytes, value: Bytes)
      requires Shaped() && i < htSize && |key| == keySize && |value| == valueSize
      modifies mem
      ensures Entries() == old(Entries())[i := Slot(true, key, value)]
    {
      ghost var before := mem[..];
      var off := At(i);
      WriteAt(off, key, value);
      EntryWritten(before, mem[..], htSize, i, off, key, value);
    }

    method WriteValueAt(off: nat, value: Bytes)
      requires off + keySize + |value| + 1 <= mem.Length
      modifies mem
      ensures Within(old(mem[..]), mem[..], off, keySize + |value| + 1)
      ensures SlotAt(mem[..], off, keySize, |value|) == SlotAt(old(mem[..]), off, keySize, |value|).(value := value)
    {
      Copy(off + 1 + keySize, value);
      ValueSlot(old(mem[..]), mem[..], off, keySize, value);
    }

    // Writes the value of entry i.
    method WriteValue(i: nat, value: Bytes)
      requires Shaped() && i < htSize && |value| == valueSize
      modifies mem
      ensures Entries() == old(Entries())[i := old(Entries())[i].(value := value)]
    {
      ghost var before := mem[..];
      var off := At(i);
      WriteValueAt(off, value);
      ValueWritten(before, mem[..], htSize, i, off, keySize, value);
    }

    // Copies the key of entry i over itself.
    method RewriteKey(i: nat, key: Bytes)
      requires Shaped() && i < htSize && |key| == keySize && Entries()[i].key == key
      modifies mem
      ensures mem[..] == old(mem[..])
    {
      var off := At(i);
      SameBytes(mem[..], off + 1, key);
      Copy(off + 1, key);
    }

    // Overwrites the value in a used slot.
    method Store(i: nat, value: Bytes)
      requires Valid() && i < htSize && Entries()[i].used && |value| == valueSize
      modifies this, mem
      ensures Valid() && count == old(count)
      ensures contents == old(contents)[old(Entries())[i].key := value]
    {
      ghost var t := Entries();
      OverwriteReflects(hash, t, contents, dist, value, i);
      WriteValue(i, value);
      contents := contents[t[i].key := value];
    }

    /** jbpf_bpf_spsc_hashmap_reset_elem */
    method Reset(key: Bytes) returns (i: int)
      requires Valid() && |key| == keySize
      modifies this, mem
      ensures Valid() && count == old(count)
      ensures i >= 0 <==> key in old(contents)
      ensures contents == if i >= 0 then old(contents)[key := Zeros(valueSize)] else old(contents)
    {
      i := Lookup(key);
      if i >= 0 {
        Store(i, Zeros(valueSize));
      }
    }

    // Stores a new key in the free slot its probes lead to.
    method Insert(i: nat, key: Bytes, value: Bytes, ghost d: nat)
      requires Valid() && StopsAt(key, d, i) && !Entries()[i].used && |key| == keySize && |value| == valueSize
      requires key !in contents && count < maxEntries
      modifies this, mem
      ensures Valid() && contents == old(contents)[key := value]
    {
      ghost var t := Entries();
      Write(i, key, value);
      count := count + 1;
      contents, dist := contents[key := value], dist[key := d];
      InsertKeeps(hash, t, Entries(), old(contents), contents, old(dist), dist, key, value, d);
    }

    // What update does once the probe loop has ended.
    method Place(i: int, key: Bytes, value: Bytes, used: bool, ghost d: nat) returns (res: MapResult)
      requires Valid() && |key| == keySize && |value| == valueSize && Ended(key, i, used, d)
      modifies this, mem
      ensures Valid()
      ensures res == Full <==> key !in old(contents) && |old(contents)| == maxEntries
      ensures contents == if res == Full then old(contents) else old(contents)[key := value]
    {
      res := Success;
      if i < 0 {
        UsedCount(hash, Entries(), contents, dist);
        res := Full;
      } else if used {
        RewriteKey(i, key);
        Store(i, value);
      } else if count == maxEntries {
        res := Full;
      } else {
        Insert(i, key, value, d);
      }
    }

    /** jbpf_bpf_spsc_hashmap_update_elem: FULL exactly when the key is new and max_entries keys
        are stored; otherwise the key now has the value and nothing else changed. */
    method Update(key: Bytes, value: Bytes) returns (res: MapResult)
      requires Valid() && |key| == keySize && |value| == valueSize
      modifies this, mem
      ensures Valid()
      ensures res == Full <==> key !in old(contents) && |old(contents)| == maxEntries
      ensures contents == if res == Full then old(contents) else old(contents)[key := value]
    {
      var i, used;
      ghost var d;
      i, used, d := Find(key);
      res := Place(i, key, value, used, d);
    }

    /** jbpf_bpf_spsc_hashmap_clear: an entry is freed exactly when it begins within the bytes cleared. The table is
        empty then exactly when all stored entries do, as in every table of fewer than 2^32 bytes. */
    method Clear()
      requires Built()
      modifies this, mem
      ensures count == 0 && contents == map[] && Cleared(old(Entries()), Entries(), EntrySize())
      ensures Valid() <==> forall i: nat :: i < htSize && old(Entries())[i].used ==> Reached(i, htSize, EntrySize())
      ensures Product(htSize, EntrySize()) < WORD ==> Valid()
    {
      ghost var t := Entries();
      Zero();
      count := 0;
      contents, dist := map[], map[];
      ClearedReflects(hash, t, Entries(), EntrySize());
      assert Valid() <==> Reflects(hash, Entries(), map[], map[]);
    }

    // memset(hmap->ht, 0, ...)
    method Zero()
      requires Shaped()
      modifies mem
      ensures Cleared(old(Entries()), Entries(), EntrySize())
    {
      ghost var before := mem[..];
      var n := Times32(htSize, EntrySize());
      for x := 0 to n
        invariant forall y :: 0 <= y < mem.Length ==> mem[y] == if y < x then 0 else before[y]
      {
        mem[x] := 0;
      }
      ZeroedIsCleared(before, mem[..], htSize, keySize, valueSize);
    }
  }
}
