/**
 The table of linked maps as the code keeps it: under strings that join the names of codelet and map.

 Two aliases can have one string. The rest of the model takes aliases as pairs of names; here is said exactly when the
 table under strings is the table under pairs, and when its counts are those of its entries.
 */
module AliasKeys {
  import opened Collections
  import LM = LinkedMaps

  // linked_map_entries: strings leading to records, and total_refs of each record.
  datatype Table = Table(table: map<string, nat>, totals: map<nat, int>, next: nat)

  function Empty(): Table {
    Table(map[], map[], 0)
  }

  function Joined(s: Table, k: string, g: nat): Table {
    if g !in s.totals then s else s.(table := s.table[k := g], totals := s.totals[g := s.totals[g] + 1])
  }

  // One pass of the loop of jbpf_populate_linked_map_entries. An entry that is there is not put again.
  function LinkKeys(s: Table, k: string, l: string): Table {
    if k !in s.table && l !in s.table then
      Table(s.table[k := s.next][l := s.next], s.totals[s.next := 2], s.next + 1)
    else if k in s.table && l in s.table then s
    else if k in s.table then Joined(s, l, s.table[k])
    else Joined(s, k, s.table[l])
  }

  function Populate(links: LM.Links): Table {
    if links == [] then Empty()
    else LinkKeys(Populate(links[..|links| - 1]), LM.Key(links[|links| - 1].0), LM.Key(links[|links| - 1].1))
  }

  // ---------- the counts ----------

  function Entries(s: Table, g: nat): set<string> {
    set k | k in s.table && s.table[k] == g
  }

  ghost predicate WellFormed(s: Table) {
    && (forall k :: k in s.table ==> s.table[k] in s.totals)
    && (forall g :: g in s.totals ==> g < s.next && s.totals[g] >= |Entries(s, g)|)
  }

  // total_refs is more than the number of entries that lead to the record.
  predicate Over(s: Table, g: nat) {
    g in s.totals && s.totals[g] > |Entries(s, g)|
  }

  ghost predicate SomeOver(s: Table) {
    exists g :: Over(s, g)
  }

  // A new record, with two entries or, when both ends have the same string, with one.
  lemma NewRecord(s: Table, k: string, l: string)
    requires WellFormed(s) && k !in s.table && l !in s.table
    ensures WellFormed(LinkKeys(s, k, l)) && (SomeOver(LinkKeys(s, k, l)) <==> SomeOver(s) || k == l)
  {
    var s' := LinkKeys(s, k, l);
    assert Entries(s', s.next) == {k, l};
    forall g | g in s.totals ensures Entries(s', g) == Entries(s, g) {}
    if k == l { assert Over(s', s.next); }
    if g :| Over(s, g) { assert Over(s', g); }
    if g :| Over(s', g) { assert g != s.next ==> Over(s, g); }
  }

  lemma MoreEntries(s: Table, k: string, g: nat)
    requires WellFormed(s) && k !in s.table && g in s.totals
    ensures WellFormed(Joined(s, k, g)) && (SomeOver(Joined(s, k, g)) <==> SomeOver(s))
  {
    var s' := Joined(s, k, g);
    assert Entries(s', g) == Entries(s, g) + {k};
    forall h | h in s.totals && h != g ensures Entries(s', h) == Entries(s, h) {}
    if h :| Over(s, h) { assert Over(s', h); }
    if h :| Over(s', h) { assert Over(s, h); }
  }

  // The link has the same string at both ends, and it is not in the table.
  predicate SelfLink(s: Table, l: (LM.Alias, LM.Alias)) {
    LM.Key(l.0) == LM.Key(l.1) && LM.Key(l.0) !in s.table
  }

  lemma LinkCounts(s: Table, l: (LM.Alias, LM.Alias))
    requires WellFormed(s)
    ensures var s' := LinkKeys(s, LM.Key(l.0), LM.Key(l.1));
            WellFormed(s') && (SomeOver(s') <==> SomeOver(s) || SelfLink(s, l))
  {
    var k, m := LM.Key(l.0), LM.Key(l.1);
    if k !in s.table && m !in s.table {
      NewRecord(s, k, m);
    } else if k in s.table && m !in s.table {
      MoreEntries(s, m, s.table[k]);
    } else if k !in s.table && m in s.table {
      MoreEntries(s, k, s.table[m]);
    }
  }

  // Some link before i has the string at one end.
  ghost predicate Earlier(links: LM.Links, k: string, i: nat)
    requires i <= |links|
  {
    exists j :: 0 <= j < i && (LM.Key(links[j].0) == k || LM.Key(links[j].1) == k)
  }

  // Link i has the same string at both ends, and no earlier link has it.
  ghost predicate FirstSelf(links: LM.Links, i: nat)
    requires i < |links|
  {
    LM.Key(links[i].0) == LM.Key(links[i].1) && !Earlier(links, LM.Key(links[i].0), i)
  }

  lemma {:induction false} KeysOfLinks(links: LM.Links, k: string)
    ensures WellFormed(Populate(links)) && (k in Populate(links).table <==> Earlier(links, k, |links|))
  {
    if links == [] {
      assert forall g :: Entries(Empty(), g) == {};
    } else {
      var n := |links| - 1;
      KeysOfLinks(links[..n], k);
      KeysOfLinks(links[..n], LM.Key(links[n].0));
      LinkCounts(Populate(links[..n]), links[n]);
      assert Earlier(links, k, n) <==> Earlier(links[..n], k, n) by { SameLinks(links, k, n); }
      assert Earlier(links, k, n + 1) <==> Earlier(links, k, n) || LM.Key(links[n].0) == k || LM.Key(links[n].1) == k;
    }
  }

  lemma SameLinks(links: LM.Links, k: string, n: nat)
    requires n <= |links|
    ensures Earlier(links, k, n) <==> Earlier(links[..n], k, n)
  {
    if Earlier(links, k, n) {
      var j :| 0 <= j < n && (LM.Key(links[j].0) == k || LM.Key(links[j].1) == k);
      assert links[..n][j] == links[j];
    }
  }

  /** Whatever the links, total_refs of every record is the number of entries that lead to it exactly when each link
      with the same string at both ends comes after another link that has that string. */
  lemma {:induction false} CountsAreExactIff(links: LM.Links)
    ensures (forall g :: g in Populate(links).totals ==> Populate(links).totals[g] == |Entries(Populate(links), g)|)
            <==> forall i :: 0 <= i < |links| ==> !FirstSelf(links, i)
  {
    OverIff(links, |links|);
    KeysOfLinks(links, "");
    assert links[..|links|] == links;
    var s := Populate(links);
    if SomeOver(s) {
      var g :| Over(s, g);
      assert s.totals[g] != |Entries(s, g)|;
    } else {
      forall g | g in s.totals ensures s.totals[g] == |Entries(s, g)| { assert !Over(s, g); }
    }
  }

  lemma {:induction false} OverIff(links: LM.Links, n: nat)
    requires n <= |links|
    ensures SomeOver(Populate(links[..n])) <==> exists i :: 0 <= i < n && FirstSelf(links, i)
  {
    if n == 0 {
      assert forall g :: !Over(Empty(), g);
    } else {
      var before := links[..n - 1];
      OverIff(links, n - 1);
      assert links[..n][..n - 1] == before && links[..n][n - 1] == links[n - 1];
      KeysOfLinks(before, LM.Key(links[n - 1].0));
      SameLinks(links, LM.Key(links[n - 1].0), n - 1);
      LinkCounts(Populate(before), links[n - 1]);
      assert SelfLink(Populate(before), links[n - 1]) <==> FirstSelf(links, n - 1);
    }
  }

  /** One link between two aliases with the same string: one entry is made and two references are counted. */
  lemma OneEntryTwoReferences(a: LM.Alias, b: LM.Alias)
    requires LM.Key(a) == LM.Key(b)
    ensures var s := Populate([(a, b)]);
            0 in s.totals && s.totals[0] == 2 && s.table.Keys == {LM.Key(a)} && |Entries(s, 0)| == 1
  {
    assert [(a, b)][..0] == [];
    var s := LinkKeys(Empty(), LM.Key(a), LM.Key(b));
    assert Populate([(a, b)]) == s && Entries(s, 0) == {LM.Key(a)};
  }

  /** Two links can share a string without any count being off. */
  lemma SharedKeyCounts(a: LM.Alias, b: LM.Alias, x: LM.Alias, y: LM.Alias)
    requires LM.Key(a) == LM.Key(b) && LM.Key(a) != LM.Key(x) && LM.Key(b) != LM.Key(y)
    ensures forall i :: 0 <= i < 2 ==> !FirstSelf([(a, x), (b, y)], i)
  {}

  // ---------- strings against pairs ----------

  // No two aliases of the links have the same string.
  ghost predicate Injective(links: LM.Links) {
    forall a, b :: LM.Used(links, a) && LM.Used(links, b) && LM.Key(a) == LM.Key(b) ==> a == b
  }

  function KeySet(q: set<LM.Alias>): set<string> {
    set a | a in q :: LM.Key(a)
  }

  // Under strings there are the same entries as under pairs, with the same records and counts.
  ghost predicate Alike(k: Table, s: LM.State) {
    && k.next == s.next && k.table.Keys == KeySet(s.table.Keys)
    && (forall a :: a in s.table ==> LM.Key(a) in k.table && k.table[LM.Key(a)] == s.table[a])
    && k.totals.Keys == s.groups.Keys && (forall g :: g in s.groups ==> k.totals[g] == s.groups[g].total)
  }

  // And no two pairs have one entry.
  ghost predicate Same(k: Table, s: LM.State) {
    Alike(k, s) && |k.table| == |s.table|
  }

  ghost predicate Apart(q: set<LM.Alias>) {
    forall a, b :: a in q && b in q && LM.Key(a) == LM.Key(b) ==> a == b
  }

  lemma {:induction false} KeySetSize(q: set<LM.Alias>)
    ensures |KeySet(q)| <= |q| && (|KeySet(q)| == |q| <==> Apart(q))
  {
    if q != {} {
      var a :| a in q;
      var rest := q - {a};
      KeySetSize(rest);
      assert KeySet(q) == KeySet(rest) + {LM.Key(a)};
      if LM.Key(a) in KeySet(rest) {
        var b :| b in rest && LM.Key(b) == LM.Key(a);
        assert KeySet(q) == KeySet(rest) && !Apart(q);
      } else {
        assert |KeySet(q)| == |KeySet(rest)| + 1;
        if Apart(rest) {
          forall x, y | x in q && y in q && LM.Key(x) == LM.Key(y) ensures x == y {
            if x != a { assert LM.Key(x) in KeySet(rest); }
            if y != a { assert LM.Key(y) in KeySet(rest); }
          }
        }
      }
    }
  }

  lemma JoinAlike(k: Table, s: LM.State, a: LM.Alias, g: nat)
    requires Alike(k, s) && g in s.groups && LM.Key(a) !in k.table
    ensures Alike(Joined(k, LM.Key(a), g), LM.Joined(s, a, g))
  {
    var s' := LM.Joined(s, a, g);
    assert s'.table.Keys == s.table.Keys + {a};
    assert KeySet(s'.table.Keys) == KeySet(s.table.Keys) + {LM.Key(a)};
    assert a !in s.table;
  }

  lemma NewAlike(k: Table, s: LM.State, a: LM.Alias, b: LM.Alias)
    requires Alike(k, s) && LM.Key(a) !in k.table && LM.Key(b) !in k.table && LM.Key(a) != LM.Key(b)
    ensures Alike(LinkKeys(k, LM.Key(a), LM.Key(b)), LM.DoLink(s, a, b))
  {
    assert a !in s.table && b !in s.table;
    var s' := LM.DoLink(s, a, b);
    assert s'.table.Keys == s.table.Keys + {a, b};
    assert KeySet(s'.table.Keys) == KeySet(s.table.Keys) + {LM.Key(a), LM.Key(b)};
  }

  lemma LinkAlike(k: Table, s: LM.State, a: LM.Alias, b: LM.Alias)
    requires Alike(k, s) && Apart(s.table.Keys + {a, b}) && a != b
    requires a in s.table ==> s.table[a] in s.groups
    requires b in s.table ==> s.table[b] in s.groups
    ensures Alike(LinkKeys(k, LM.Key(a), LM.Key(b)), LM.DoLink(s, a, b))
  {
    assert forall x :: x in s.table.Keys ==> LM.Key(x) in KeySet(s.table.Keys);
    assert LM.Key(a) in k.table <==> a in s.table;
    assert LM.Key(b) in k.table <==> b in s.table;
    if a !in s.table && b !in s.table {
      NewAlike(k, s, a, b);
    } else if a in s.table && b !in s.table {
      JoinAlike(k, s, b, s.table[a]);
    } else if a !in s.table && b in s.table {
      JoinAlike(k, s, a, s.table[b]);
    }
  }

  lemma ApartIff(links: LM.Links, q: set<LM.Alias>)
    requires forall a :: a in q <==> LM.Used(links, a)
    ensures Apart(q) <==> Injective(links)
  {
    if Apart(q) {
      forall a, b | LM.Used(links, a) && LM.Used(links, b) && LM.Key(a) == LM.Key(b) ensures a == b {
        assert a in q && b in q;
      }
    }
  }

  lemma InjectiveLess(links: LM.Links)
    requires links != [] && Injective(links)
    ensures Injective(links[..|links| - 1])
  {
    var n := |links| - 1;
    forall a, b | LM.Used(links[..n], a) && LM.Used(links[..n], b) && LM.Key(a) == LM.Key(b) ensures a == b {
      LM.UsedMore(links, a);
      LM.UsedMore(links, b);
    }
  }

  // The pairs in the table and those of the next link.
  lemma ApartMore(links: LM.Links)
    requires links != [] && LM.Distinct(links) && Injective(links)
    ensures var n := |links| - 1; Apart(LM.Populate(links[..n]).table.Keys + {links[n].0, links[n].1})
  {
    var n := |links| - 1;
    LM.DistinctLess(links);
    forall a ensures a in LM.Populate(links[..n]).table.Keys + {links[n].0, links[n].1} <==> LM.Used(links, a) {
      LM.UsedMore(links, a);
      LM.PairsOfLinks(links[..n], a);
    }
    ApartIff(links, LM.Populate(links[..n]).table.Keys + {links[n].0, links[n].1});
  }

  lemma {:induction false} InjectiveAlike(links: LM.Links)
    requires LM.Distinct(links) && Injective(links)
    ensures Alike(Populate(links), LM.Populate(links))
  {
    if links != [] {
      var n := |links| - 1;
      var s, l := LM.Populate(links[..n]), links[n];
      LM.DistinctLess(links);
      InjectiveLess(links);
      InjectiveAlike(links[..n]);
      ApartMore(links);
      LM.PopulateReachable(links[..n]);
      if l.0 in s.table { LM.RecordsExist(s, l.0); }
      if l.1 in s.table { LM.RecordsExist(s, l.1); }
      LinkAlike(Populate(links[..n]), s, l.0, l.1);
    }
  }

  /** Whatever the links, the table under strings is the table under pairs, with the same records and counts, exactly
      when no two aliases of the links have the same string. */
  lemma SameTableIff(links: LM.Links)
    requires LM.Distinct(links)
    ensures Same(Populate(links), LM.Populate(links)) <==> Injective(links)
  {
    var k, s := Populate(links), LM.Populate(links);
    forall a ensures a in s.table.Keys <==> LM.Used(links, a) { LM.PairsOfLinks(links, a); }
    ApartIff(links, s.table.Keys);
    KeySetSize(s.table.Keys);
    assert |s.table| == |s.table.Keys| && |k.table| == |k.table.Keys|;
    if Injective(links) { InjectiveAlike(links); }
  }
}
